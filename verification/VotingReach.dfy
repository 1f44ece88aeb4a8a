/** Games built ballot by ballot, with the ballots that they complete. */
module VotingReach {
  import opened VotingModel
  import opened VotingRuns

  /** Some game from the start leads to g and completes n ballots. */
  ghost predicate ReachableIn(start: Game, g: Game, n: nat) {
    exists states, votes :: IsRun(start, states, votes) && states[|votes|] == g && Completed(states, votes) == n
  }

  ghost predicate Reachable(start: Game, g: Game) {
    exists n: nat :: ReachableIn(start, g, n)
  }

  lemma FirstReached(start: Game, g: Game)
    requires Stored(start) && Offers(start, g)
    ensures ReachableIn(start, g, 0) && Reachable(start, g)
  {
    hide Stored, Offers;
    assert IsRun(start, [g], []);
  }

  lemma NextReached(start: Game, g: Game, n: nat, v: Ballot, g': Game)
    requires ReachableIn(start, g, n) && Votes(g, v, g')
    ensures ReachableIn(start, g', n + if Completes(g, v) then 1 else 0)
  {
    hide Stored, Offers, Votes, Completes;
    var states, votes :| IsRun(start, states, votes) && states[|votes|] == g && Completed(states, votes) == n;
    var states', votes' := states + [g'], votes + [v];
    assert IsRun(start, states', votes');
    assert states'[..|votes|] == states[..|votes|] && votes'[..|votes|] == votes;
    var m := |votes|;
    CompletedPrefix(states, votes, m);
    assert states[..m + 1] == states;
  }

  // Ballots

  /** The rows after some votes on row k, which had none. */
  function Counted(rows: seq<Row>, k: nat, up: nat, down: nat): seq<Row>
    requires k < |rows|
  {
    rows[k := rows[k].(pos := up, neg := down)]
  }

  lemma CountOne(rows: seq<Row>, k: nat, up: nat, down: nat)
    requires k < |rows| && UniqueIds(rows)
    ensures AddPos(Counted(rows, k, up, down), rows[k].id) == Counted(rows, k, up + 1, down)
    ensures AddNeg(Counted(rows, k, up, down), rows[k].id) == Counted(rows, k, up, down + 1)
  {
  }

  /** Row k is on offer and has no votes. */
  ghost predicate Opens(g: Game, k: nat) {
    && k < |g.rows| && g.phase == Offering(g.rows[k].id) && UniqueIds(g.rows)
    && g.rows[k].pos == g.rows[k].neg == 0
  }

  /** Any votes that do not complete the ballot can be cast. */
  lemma {:induction false} PartOfBallot(start: Game, g: Game, n: nat, k: nat, up: nat, down: nat)
    requires ReachableIn(start, g, n) && Opens(g, k) && up + down < g.players
    ensures ReachableIn(start, g.(rows := Counted(g.rows, k, up, down)), n)
    decreases up + down
  {
    hide ReachableIn, Offers;
    if up + down == 0 {
      assert Counted(g.rows, k, 0, 0) == g.rows;
    } else {
      var up', down' := if up > 0 then up - 1 else up, if up > 0 then down else down - 1;
      PartOfBallot(start, g, n, k, up', down');
      CountOne(g.rows, k, up', down');
      var before, after := g.(rows := Counted(g.rows, k, up', down')), g.(rows := Counted(g.rows, k, up, down));
      assert Votes(before, Ballot(k, up > 0), after) && !Completes(before, Ballot(k, up > 0));
      NextReached(start, before, n, Ballot(k, up > 0), after);
    }
  }

  /** A ballot with both kinds of votes moves its row on, and the search goes on from there. */
  lemma MixedBallotReached(start: Game, g: Game, n: nat, k: nat, down: nat, g': Game)
    requires ReachableIn(start, g, n) && Opens(g, k) && 0 < down < g.players
    requires Offers(g.(rows := NextRound(Counted(g.rows, k, g.players - down, down), g.rows[k].id)), g')
    ensures ReachableIn(start, g', n + 1)
    ensures ReachableIn(start, g.(rows := Counted(g.rows, k, g.players - down, down - 1)), n)
    ensures Votes(g.(rows := Counted(g.rows, k, g.players - down, down - 1)), Ballot(k, false), g')
  {
    hide ReachableIn, Offers, NextRound;
    PartOfBallot(start, g, n, k, g.players - down, down - 1);
    CountOne(g.rows, k, g.players - down, down - 1);
    var before := g.(rows := Counted(g.rows, k, g.players - down, down - 1));
    assert Votes(before, Ballot(k, false), g') && Completes(before, Ballot(k, false));
    NextReached(start, before, n, Ballot(k, false), g');
  }

  /** A ballot in which everybody rejects the row disables it, and the search goes on from there. */
  lemma RejectionReached(start: Game, g: Game, n: nat, k: nat, g': Game)
    requires ReachableIn(start, g, n) && Opens(g, k) && g.players > 0
    requires Offers(g.(rows := Disable(Counted(g.rows, k, 0, g.players), g.rows[k].id)), g')
    ensures ReachableIn(start, g', n + 1)
  {
    hide ReachableIn, Offers, Disable;
    PartOfBallot(start, g, n, k, 0, g.players - 1);
    CountOne(g.rows, k, 0, g.players - 1);
    var before := g.(rows := Counted(g.rows, k, 0, g.players - 1));
    assert Votes(before, Ballot(k, false), g') && Completes(before, Ballot(k, false));
    NextReached(start, before, n, Ballot(k, false), g');
  }

  lemma OfferOne(g: Game, k: nat)
    requires g.currRound <= ROUNDS && k < |g.rows| && g.rows[k].candidate && g.rows[k].round == g.currRound
    ensures Offers(g, g.(phase := Offering(g.rows[k].id)))
  {
    assert k in Current(g.rows, g.currRound);
  }

  // The same without the count

  lemma MixedBallotLeads(start: Game, g: Game, k: nat, down: nat, g': Game)
    requires Reachable(start, g) && Opens(g, k) && 0 < down < g.players
    requires Offers(g.(rows := NextRound(Counted(g.rows, k, g.players - down, down), g.rows[k].id)), g')
    ensures Reachable(start, g')
    ensures Reachable(start, g.(rows := Counted(g.rows, k, g.players - down, down - 1)))
    ensures Votes(g.(rows := Counted(g.rows, k, g.players - down, down - 1)), Ballot(k, false), g')
  {
    hide ReachableIn, Opens, Offers, NextRound, Counted, Votes;
    var n: nat :| ReachableIn(start, g, n);
    MixedBallotReached(start, g, n, k, down, g');
  }

  lemma RejectionLeads(start: Game, g: Game, k: nat, g': Game)
    requires Reachable(start, g) && Opens(g, k) && g.players > 0
    requires Offers(g.(rows := Disable(Counted(g.rows, k, 0, g.players), g.rows[k].id)), g')
    ensures Reachable(start, g')
  {
    hide ReachableIn, Opens, Offers, Disable, Counted;
    var n: nat :| ReachableIn(start, g, n);
    RejectionReached(start, g, n, k, g');
  }
}
