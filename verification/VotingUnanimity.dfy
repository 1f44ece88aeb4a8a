/** Which ballots decide a game, told from the votes that were cast and nothing else. */
module VotingUnanimity {
  import opened VotingModel
  import opened VotingRuns

  // One vote

  /** The row of a ballot with one more vote. */
  function WithVote(row: Row, up: bool): Row {
    if up then row.(pos := row.pos + 1) else row.(neg := row.neg + 1)
  }

  /** A vote within a ballot is counted for its direction, and changes nothing else. */
  lemma VoteCounts(g: Game, k: nat, up: bool, g': Game)
    requires Playing(g, k) && Vote(g, k, up, g') && g.rows[k].pos + g.rows[k].neg + 1 < g.players
    ensures g' == g.(rows := g.rows[k := WithVote(g.rows[k], up)])
  {
    hide Offers;
    assert g'.rows == g.rows[k := WithVote(g.rows[k], up)];
  }

  /** The approving vote with which all players have approved chooses the restaurant. */
  lemma LastApproval(g: Game, k: nat, g': Game)
    requires Playing(g, k) && Vote(g, k, true, g') && g.rows[k].pos + 1 == g.players
    ensures g' == g.(rows := g.rows[k := WithVote(g.rows[k], true)], phase := Chosen(g.rows[k].id))
  {
    hide Offers;
    assert g'.rows == g.rows[k := WithVote(g.rows[k], true)];
  }

  /** A search that starts within the rounds and chooses a restaurant has gone through all rounds. */
  lemma {:induction false} SearchChooses(g: Game, g': Game)
    requires Offers(g, g') && g.currRound <= ROUNDS && g'.phase.Chosen?
    ensures g'.currRound > ROUNDS
    decreases ROUNDS - g.currRound
  {
    hide Ends;
    if Current(g.rows, g.currRound) == {} {
      var rows' :| Reduced(g.rows, rows') && Offers(g.(rows := rows', currRound := g.currRound + 1), g');
      var g1 := g.(rows := rows', currRound := g.currRound + 1);
      if g1.currRound <= ROUNDS {
        SearchChooses(g1, g');
      } else {
        assert Ends(g1, g');
        EndsInRound(g1, g');
      }
    }
  }

  lemma EndsInRound(g: Game, g': Game)
    requires Ends(g, g')
    ensures g'.currRound == g.currRound
  {
  }

  /** The last vote of a ballot chooses a restaurant before the last round change if and only if all votes approved. */
  lemma LastVoteDecides(g: Game, k: nat, up: bool, g': Game)
    requires Playing(g, k) && Vote(g, k, up, g') && g.rows[k].pos + g.rows[k].neg + 1 == g.players
    ensures g'.phase.Chosen? && g'.currRound <= ROUNDS <==> up && g.rows[k].neg == 0
    ensures up && g.rows[k].neg == 0 ==> g'.phase == Chosen(g.rows[k].id)
  {
    var id := g.rows[k].id;
    var voted := if up then AddPos(g.rows, id) else AddNeg(g.rows, id);
    assert voted[k] == WithVote(g.rows[k], up);
    hide Offers;
    if up && g.rows[k].neg == 0 {
      LastApproval(g, k, g');
    } else if g'.phase.Chosen? {
      var g1 := g.(rows := if !up && g.players == voted[k].neg then Disable(voted, id) else NextRound(voted, id));
      assert Offers(g1, g');
      SearchChooses(g1, g');
    }
  }

  // Whole games

  /** The last c votes were all on row k. */
  ghost predicate AllOn(votes: seq<Ballot>, c: nat, k: nat) {
    c <= |votes| && forall i :: |votes| - c <= i < |votes| ==> votes[i].row == k
  }

  /** The approving votes among the last c. */
  function Ups(votes: seq<Ballot>, c: nat): nat
    requires c <= |votes|
  {
    if c == 0 then 0 else Ups(votes[..|votes| - 1], c - 1) + if votes[|votes| - 1].up then 1 else 0
  }

  lemma {:induction false} UpsAll(votes: seq<Ballot>, c: nat)
    requires c <= |votes|
    ensures Ups(votes, c) <= c
    ensures Ups(votes, c) == c <==> forall i :: |votes| - c <= i < |votes| ==> votes[i].up
  {
    if c > 0 {
      var before := votes[..|votes| - 1];
      UpsAll(before, c - 1);
      assert forall i :: |votes| - c <= i < |votes| - 1 ==> votes[i] == before[i];
    }
  }

  /** Where a game with a restaurant on offer stands: row k has had c votes, the last ones, counted by direction. */
  ghost predicate Tally(g: Game, votes: seq<Ballot>, k: nat, c: nat) {
    && Playing(g, k) && c == g.rows[k].pos + g.rows[k].neg && AllOn(votes, c, k) && g.rows[k].pos == Ups(votes, c)
    && |votes| % g.players == c
  }

  lemma Distribute(m: nat, q: nat)
    ensures m * (q + 1) == m * q + m
  {
  }

  lemma NextRemainder(n: nat, players: nat)
    requires players > 0
    ensures (n + 1) % players == if n % players + 1 == players then 0 else n % players + 1
  {
    var q := n / players;
    assert n == players * q + n % players;
    if n % players + 1 == players {
      Distribute(players, q);
      RemainderIs(n + 1, players, q + 1, 0);
    } else {
      RemainderIs(n + 1, players, q, n % players + 1);
    }
  }

  lemma RemainderIs(n: nat, players: nat, q: nat, c: nat)
    requires c < players && n == players * q + c
    ensures n % players == c
  {
    var m: int, d: int := players, q - n / players;
    assert m * d == n % players - c;
    Multiple(players, d);
  }

  lemma Multiple(m: int, d: int)
    requires m >= 0
    ensures d >= 1 ==> m * d >= m
    ensures d <= -1 ==> m * d <= -m
  {
    if d >= 1 {
      assert m * d == m + m * (d - 1);
    }
    if d <= -1 {
      assert m * d == -m + m * (d + 1);
    }
  }

  /** A vote within the ballot goes on with it. */
  lemma TallyGoesOn(g: Game, votes: seq<Ballot>, k: nat, c: nat, v: Ballot, g': Game)
    requires Tally(g, votes, k, c) && Votes(g, v, g') && c + 1 < g.players
    ensures Tally(g', votes + [v], k, c + 1)
  {
    SameKey(g, k, v.row);
    assert (votes + [v])[..|votes|] == votes;
    NextRemainder(|votes|, g.players);
    VoteCounts(g, k, v.up, g');
    VoteWithinBallot(g, k, v.up, g');
    hide Vote, Playing;
  }

  /** After the last vote of a ballot another one starts, if there is still a restaurant on offer. */
  lemma TallyStartsAgain(g: Game, votes: seq<Ballot>, k: nat, v: Ballot, g': Game)
    requires g.players > 0 && Tally(g, votes, k, g.players - 1) && Votes(g, v, g') && g'.phase.Offering?
    ensures exists l: nat :: Tally(g', votes + [v], l, 0)
  {
    SameKey(g, k, v.row);
    NextRemainder(|votes|, g.players);
    VoteCompletesBallot(g, k, v.up, g');
    hide Vote, Left;
    var l: nat :| Playing(g', l) && g'.rows[l].pos == g'.rows[l].neg == 0;
    assert Tally(g', votes + [v], l, 0);
  }

  ghost predicate Tallied(g: Game, votes: seq<Ballot>) {
    exists k: nat, c: nat :: Tally(g, votes, k, c)
  }

  lemma TallyFirst(start: Game, g: Game)
    requires Stored(start) && Offers(start, g) && g.phase.Offering?
    ensures Tallied(g, [])
  {
    StoredSearches(start);
    SearchSettles(start, g);
    hide Offers, Left, Stored;
    var k: nat :| Playing(g, k) && g.rows[k].pos == g.rows[k].neg == 0;
    assert Tally(g, [], k, 0);
  }

  lemma TallyNext(g: Game, votes: seq<Ballot>, v: Ballot, g': Game)
    requires Tallied(g, votes) && Votes(g, v, g') && g'.phase.Offering?
    ensures Tallied(g', votes + [v])
  {
    var k: nat, c: nat :| Tally(g, votes, k, c);
    assert c < g.players;
    hide Tally, Votes;
    if c + 1 < g.players {
      TallyGoesOn(g, votes, k, c, v, g');
    } else {
      TallyStartsAgain(g, votes, k, v, g');
    }
  }

  lemma RunPrefix(start: Game, states: seq<Game>, votes: seq<Ballot>, j: nat)
    requires IsRun(start, states, votes) && j <= |votes|
    ensures IsRun(start, states[..j + 1], votes[..j])
  {
    hide Offers, Votes, Stored;
  }

  /** Along any game the counts on the screen are those of the last votes. */
  lemma {:induction false} RunIsTallied(start: Game, states: seq<Game>, votes: seq<Ballot>)
    requires IsRun(start, states, votes) && states[|votes|].phase.Offering?
    ensures Tallied(states[|votes|], votes)
  {
    hide Offers, Votes, Tallied, Stored;
    var n := |votes| - 1;
    if votes == [] {
      TallyFirst(start, states[0]);
    } else {
      RunPrefix(start, states, votes, n);
      assert Votes(states[n], votes[n], states[n + 1]);
      assert states[n].phase.Offering? by { VotedOn(states[n], votes[n], states[n + 1]); }
      RunIsTallied(start, states[..n + 1], votes[..n]);
      TallyNext(states[n], votes[..n], votes[n], states[n + 1]);
      assert votes[..n] + [votes[n]] == votes;
    }
  }

  lemma VotedOn(g: Game, v: Ballot, g': Game)
    requires Votes(g, v, g')
    ensures g.phase.Offering?
  {
  }

  /** The last votes make up a whole ballot, and all of them approve. */
  ghost predicate LastBallotApproves(votes: seq<Ballot>, players: nat) {
    && 0 < players <= |votes| && |votes| % players == 0
    && forall i :: |votes| - players <= i < |votes| ==> votes[i].up
  }

  /** The last c + 1 votes are the last c votes before one, and that one. */
  lemma OneMoreVote(votes: seq<Ballot>, c: nat, v: Ballot)
    requires c <= |votes|
    ensures AllOn(votes, c, v.row) ==> AllOn(votes + [v], c + 1, v.row)
    ensures (forall i :: |votes| - c <= i < |votes| + 1 ==> (votes + [v])[i].up) <==> v.up && Ups(votes, c) == c
  {
    UpsAll(votes, c);
    assert (votes + [v])[|votes|] == v;
    assert forall i :: |votes| - c <= i < |votes| ==> (votes + [v])[i] == votes[i];
  }

  lemma VoteDecides(g: Game, votes: seq<Ballot>, v: Ballot, g': Game)
    requires Tallied(g, votes) && Votes(g, v, g')
    ensures g'.phase.Chosen? && g'.currRound <= ROUNDS <==> LastBallotApproves(votes + [v], g.players)
    ensures LastBallotApproves(votes + [v], g.players) ==>
      v.row < |g.rows| && g'.phase == Chosen(g.rows[v.row].id) && AllOn(votes + [v], g.players, v.row)
  {
    var k: nat, c: nat :| Tally(g, votes, k, c);
    SameKey(g, k, v.row);
    NextRemainder(|votes|, g.players);
    OneMoreVote(votes, c, v);
    if c + 1 < g.players {
      VoteCounts(g, k, v.up, g');
      hide Vote, Playing, Ups, AllOn;
    } else {
      assert c + 1 == g.players;
      LastVoteDecides(g, k, v.up, g');
      hide Vote, Playing, Ups, AllOn;
      assert |votes + [v]| - g.players == |votes| - c;
    }
  }

  lemma FirstIsOffer(start: Game, g: Game)
    requires Stored(start) && Offers(start, g)
    ensures g.phase.Offering?
  {
    assert 0 in Current(start.rows, start.currRound);
  }

  /**
   * After any votes from the start of a game, a restaurant has been chosen before the last round change if and only
   * if the last ballot is complete and all its votes approve. It is then the restaurant of that ballot.
   */
  lemma UnanimityExactly(start: Game, states: seq<Game>, votes: seq<Ballot>)
    requires IsRun(start, states, votes)
    ensures var g := states[|votes|];
      g.phase.Chosen? && g.currRound <= ROUNDS <==> LastBallotApproves(votes, start.players)
    ensures LastBallotApproves(votes, start.players) ==>
      votes != [] && var k := votes[|votes| - 1].row;
      k < |start.rows| && states[|votes|].phase == Chosen(start.rows[k].id) && AllOn(votes, start.players, k)
  {
    hide Offers, Votes, Tallied, Stored, LastBallotApproves, AllOn;
    var n := |votes| - 1;
    if votes == [] {
      FirstIsOffer(start, states[0]);
      assert !LastBallotApproves(votes, start.players) by { NoVotes(start.players); }
    } else {
      RunPrefix(start, states, votes, n);
      assert Votes(states[n], votes[n], states[n + 1]);
      VotedOn(states[n], votes[n], states[n + 1]);
      RunIsTallied(start, states[..n + 1], votes[..n]);
      VoteDecides(states[n], votes[..n], votes[n], states[n + 1]);
      assert votes[..n] + [votes[n]] == votes;
      RowsOfRun(start, states[..n + 1], votes[..n]);
    }
  }

  lemma NoVotes(players: nat)
    ensures !LastBallotApproves([], players)
  {
  }

  lemma RowsOfRun(start: Game, states: seq<Game>, votes: seq<Ballot>)
    requires IsRun(start, states, votes)
    ensures SameRows(start.rows, states[|votes|].rows) && states[|votes|].players == start.players
  {
    Players(start, states, votes);
    hide *;
    RunProgresses(start, states, votes);
    ProgressRows(start, states[|votes|], Completed(states, votes), |votes|);
  }

  lemma ProgressRows(start: Game, g: Game, completed: nat, votes: nat)
    requires Progress(start, g, completed, votes)
    ensures SameRows(start.rows, g.rows) && g.players == start.players
  {
    hide SameRows;
  }

  /** The first ballot in which all approve ends the game: no such ballot comes before the last one. */
  lemma FirstUnanimityEnds(start: Game, states: seq<Game>, votes: seq<Ballot>, j: nat)
    requires IsRun(start, states, votes) && j < |votes|
    ensures !LastBallotApproves(votes[..j], start.players)
  {
    RunPrefix(start, states, votes, j);
    hide Offers, Stored, LastBallotApproves, AllOn;
    assert |states| == |votes| + 1;
    assert Votes(states[j], votes[j], states[j + 1]);
    UnanimityExactly(start, states[..j + 1], votes[..j]);
    hide Votes;
    VotedOn(states[j], votes[j], states[j + 1]);
  }
}
