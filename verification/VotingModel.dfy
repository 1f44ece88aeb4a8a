/** The voting game as a relation between the states before and after a vote. */
module VotingModel {

  datatype Row = Row(id: nat, pos: nat, neg: nat, candidate: bool, round: nat)

  datatype Phase = Offering(id: nat) | Chosen(id: nat)

  /** One game: the restaurant rows, the number of players, the current round, and what is on the screens. */
  datatype Game = Game(rows: seq<Row>, players: nat, currRound: nat, phase: Phase)

  const ROUNDS := 3

  ghost predicate UniqueIds(rows: seq<Row>) {
    forall i, j :: 0 <= i < j < |rows| ==> rows[i].id != rows[j].id
  }

  /** The rows that can be offered in the round. */
  ghost function Current(rows: seq<Row>, round: nat): set<nat> {
    set i | 0 <= i < |rows| && rows[i].candidate && rows[i].round == round
  }

  // Updates of the rows with an identifier

  function AddPos(rows: seq<Row>, id: nat): (r: seq<Row>)
    ensures |r| == |rows|
  {
    seq(|rows|, i requires 0 <= i < |rows| => if rows[i].id == id then rows[i].(pos := rows[i].pos + 1) else rows[i])
  }

  function AddNeg(rows: seq<Row>, id: nat): (r: seq<Row>)
    ensures |r| == |rows|
  {
    seq(|rows|, i requires 0 <= i < |rows| => if rows[i].id == id then rows[i].(neg := rows[i].neg + 1) else rows[i])
  }

  function NextRound(rows: seq<Row>, id: nat): (r: seq<Row>)
    ensures |r| == |rows|
  {
    seq(|rows|, i requires 0 <= i < |rows| => if rows[i].id == id then rows[i].(round := rows[i].round + 1) else rows[i])
  }

  function Disable(rows: seq<Row>, id: nat): (r: seq<Row>)
    ensures |r| == |rows|
  {
    seq(|rows|, i requires 0 <= i < |rows| => if rows[i].id == id then rows[i].(candidate := false) else rows[i])
  }

  /** The round change: half of the rows, those with the fewest negative votes, lose candidacy; all votes are reset. */
  ghost predicate IsLowerHalf(rows: seq<Row>, lower: set<nat>) {
    && (forall i :: i in lower ==> i < |rows|)
    && |lower| == |rows| / 2
    && forall i, j :: i in lower && 0 <= j < |rows| && j !in lower ==> rows[i].neg <= rows[j].neg
  }

  ghost function DropAndReset(rows: seq<Row>, lower: set<nat>): (r: seq<Row>)
    ensures |r| == |rows|
  {
    seq(|rows|, i requires 0 <= i < |rows| =>
      rows[i].(pos := 0, neg := 0, candidate := rows[i].candidate && i !in lower))
  }

  ghost predicate Reduced(rows: seq<Row>, rows': seq<Row>) {
    exists lower :: IsLowerHalf(rows, lower) && rows' == DropAndReset(rows, lower)
  }

  /** What the search for a new candidate can lead to, round changes included. */
  ghost predicate Offers(g: Game, g': Game)
    decreases if g.currRound <= ROUNDS then ROUNDS + 1 - g.currRound else 0
  {
    if g.currRound <= ROUNDS then
      if Current(g.rows, g.currRound) == {} then
        exists rows' :: Reduced(g.rows, rows') && Offers(g.(rows := rows', currRound := g.currRound + 1), g')
      else
        && g'.phase.Offering? && g' == g.(phase := g'.phase)
        && exists i :: i in Current(g.rows, g.currRound) && g'.phase.id == g.rows[i].id
    else Ends(g, g')
  }

  ghost predicate AnyCandidate(rows: seq<Row>) {
    exists i :: 0 <= i < |rows| && rows[i].candidate
  }

  /** The end after the last round: a candidate with the fewest negative votes, or any row when none is left. */
  ghost predicate Ends(g: Game, g': Game) {
    && g'.phase.Chosen? && g' == g.(phase := g'.phase)
    && exists i :: 0 <= i < |g.rows| && g'.phase.id == g.rows[i].id && (AnyCandidate(g.rows) ==> LeastDisliked(g.rows, i))
  }

  ghost predicate LeastDisliked(rows: seq<Row>, i: nat)
    requires i < |rows|
  {
    rows[i].candidate && forall j :: 0 <= j < |rows| && rows[j].candidate ==> rows[i].neg <= rows[j].neg
  }

  /** One vote for the restaurant on offer, which is row k. */
  ghost predicate Vote(g: Game, k: nat, up: bool, g': Game)
    requires k < |g.rows| && g.phase == Offering(g.rows[k].id)
  {
    var id := g.rows[k].id;
    var voted := if up then AddPos(g.rows, id) else AddNeg(g.rows, id);
    var row := voted[k];
    if up && g.players == row.pos then g' == g.(rows := voted, phase := Chosen(id))
    else if !up && g.players == row.neg then Offers(g.(rows := Disable(voted, id)), g')
    else if g.players == row.pos + row.neg then Offers(g.(rows := NextRound(voted, id)), g')
    else g' == g.(rows := voted)
  }

  // The invariant

  ghost predicate RoundsOk(g: Game) {
    forall i :: 0 <= i < |g.rows| && g.rows[i].candidate ==> g.currRound <= g.rows[i].round <= g.currRound + 1
  }

  /** The rows still to be offered in this round, other than k, have no votes yet. */
  ghost predicate Unvoted(g: Game, k: int) {
    forall i :: 0 <= i < |g.rows| && i != k && g.rows[i].candidate && g.rows[i].round == g.currRound ==>
      g.rows[i].pos == g.rows[i].neg == 0
  }

  ghost predicate Playing(g: Game, k: nat) {
    && k < |g.rows| && g.phase == Offering(g.rows[k].id)
    && UniqueIds(g.rows) && g.players >= 1 && 1 <= g.currRound <= ROUNDS
    && RoundsOk(g) && Unvoted(g, k)
    && g.rows[k].candidate && g.rows[k].round == g.currRound
    && g.rows[k].pos + g.rows[k].neg < g.players
  }

  /** The states from which the server looks for a new candidate. */
  ghost predicate Searching(g: Game) {
    && g.rows != [] && UniqueIds(g.rows) && g.players >= 1 && 1 <= g.currRound <= ROUNDS + 1
    && RoundsOk(g) && Unvoted(g, -1)
    && (g.currRound == ROUNDS + 1 ==> forall i :: 0 <= i < |g.rows| ==> g.rows[i].pos == g.rows[i].neg == 0)
  }

  /** Half of the rows, rounded up: what a round change can leave. */
  function Half(rows: seq<Row>): nat {
    |rows| - |rows| / 2
  }

  /** An upper bound on the ballots to come, the one under way included. */
  ghost function Left(g: Game): nat {
    if g.currRound <= ROUNDS then |Current(g.rows, g.currRound)| + (ROUNDS - g.currRound) * Half(g.rows) else 0
  }

  lemma ReducedKeeps(g: Game, rows': seq<Row>)
    requires Searching(g) && g.currRound <= ROUNDS && Current(g.rows, g.currRound) == {} && Reduced(g.rows, rows')
    ensures Searching(g.(rows := rows', currRound := g.currRound + 1))
    ensures |rows'| == |g.rows| && SameRows(g.rows, rows')
    ensures |Current(rows', g.currRound + 1)| <= Half(g.rows)
  {
    var lower :| IsLowerHalf(g.rows, lower) && rows' == DropAndReset(g.rows, lower);
    hide IsLowerHalf, Half;
    var g1 := g.(rows := rows', currRound := g.currRound + 1);
    forall i | 0 <= i < |rows'| && rows'[i].candidate ensures rows'[i].round == g.currRound + 1 {
      assert i !in Current(g.rows, g.currRound);
    }
    assert RoundsOk(g1) && Unvoted(g1, -1) && UniqueIds(rows');
    CurrentIsBounded(g.rows, lower, g.currRound + 1);
  }

  lemma CurrentIsBounded(rows: seq<Row>, lower: set<nat>, round: nat)
    requires IsLowerHalf(rows, lower)
    ensures |Current(DropAndReset(rows, lower), round)| <= Half(rows)
  {
    SetsShareIndices(Current(DropAndReset(rows, lower), round), lower, |rows|);
  }

  lemma {:induction false} SetsShareIndices(a: set<nat>, b: set<nat>, n: nat)
    requires a !! b && (forall i :: i in a ==> i < n) && (forall i :: i in b ==> i < n)
    ensures |a| + |b| <= n
  {
    if n == 0 {
      assert forall i :: i in a || i in b ==> i < 0;
      assert a == {};
      assert b == {};
    } else {
      SetsShareIndices(a - {n - 1}, b - {n - 1}, n - 1);
      assert |a| <= |a - {n - 1}| + if n - 1 in a then 1 else 0;
      assert |b| <= |b - {n - 1}| + if n - 1 in b then 1 else 0;
    }
  }

  /** The rows keep their identifiers, and a row without candidacy never regains it. */
  ghost predicate SameRows(rows: seq<Row>, rows': seq<Row>) {
    && |rows'| == |rows|
    && forall i :: 0 <= i < |rows| ==> rows'[i].id == rows[i].id && (rows'[i].candidate ==> rows[i].candidate)
  }

  /** How a game that the server has left its search in can stand. */
  ghost predicate Settled(g: Game, g': Game) {
    && SameRows(g.rows, g'.rows) && g'.players == g.players && g'.currRound >= g.currRound
    && match g'.phase
      case Offering(_) => Left(g') <= Left(g) && exists k: nat :: Playing(g', k) && g'.rows[k].pos == g'.rows[k].neg == 0
      case Chosen(id) => AfterLastRound(g')
  }

  /** The choice made after the third round, when all votes have been reset. */
  ghost predicate AfterLastRound(g: Game)
    requires g.phase.Chosen?
  {
    && g.currRound == ROUNDS + 1
    && (forall i :: 0 <= i < |g.rows| ==> g.rows[i].neg == 0)
    && exists i :: 0 <= i < |g.rows| && g.phase.id == g.rows[i].id && (AnyCandidate(g.rows) ==> g.rows[i].candidate)
  }

  lemma OfferPlays(g: Game, g': Game, k: nat)
    requires Searching(g) && g.currRound <= ROUNDS && k in Current(g.rows, g.currRound)
    requires g' == g.(phase := Offering(g.rows[k].id))
    ensures Settled(g, g')
  {
    assert Playing(g', k);
    assert g'.rows[k].pos == g'.rows[k].neg == 0;
  }

  lemma EndSettles(g: Game, g': Game)
    requires Searching(g) && g.currRound == ROUNDS + 1 && Ends(g, g')
    ensures Settled(g, g')
  {
  }

  lemma SettledVia(g: Game, g1: Game, g': Game)
    requires SameRows(g.rows, g1.rows) && g1.players == g.players && g1.currRound >= g.currRound
    requires Left(g1) <= Left(g) && Settled(g1, g')
    ensures Settled(g, g')
  {
    hide Playing, AfterLastRound, Left;
  }

  /** However many rounds the search goes through, it ends in an offer that respects the bound, or in a choice. */
  lemma {:induction false} SearchSettles(g: Game, g': Game)
    requires Searching(g) && Offers(g, g')
    ensures Settled(g, g')
    decreases ROUNDS + 1 - g.currRound
  {
    hide Searching, Settled, Reduced, Ends;
    if g.currRound > ROUNDS {
      assert g.currRound == ROUNDS + 1 by { SearchRound(g); }
      EndSettles(g, g');
    } else if Current(g.rows, g.currRound) == {} {
      var rows' :| Reduced(g.rows, rows') && Offers(g.(rows := rows', currRound := g.currRound + 1), g');
      ReducedKeeps(g, rows');
      var g1 := g.(rows := rows', currRound := g.currRound + 1);
      RoundLeft(g, g1);
      SearchSettles(g1, g');
      hide Offers, Left;
      SettledVia(g, g1, g');
    } else {
      var k :| k in Current(g.rows, g.currRound) && g'.phase.id == g.rows[k].id;
      OfferPlays(g, g', k);
    }
  }

  lemma SearchRound(g: Game)
    requires Searching(g)
    ensures g.currRound <= ROUNDS + 1
  {
  }

  lemma RoundLeft(g: Game, g1: Game)
    requires g.currRound <= ROUNDS && g1.currRound == g.currRound + 1 && |g1.rows| == |g.rows|
    requires |Current(g1.rows, g1.currRound)| <= Half(g.rows)
    ensures Left(g1) <= Left(g)
  {
    var n, h := ROUNDS - g.currRound, Half(g.rows);
    if n > 0 {
      assert n * h == (n - 1) * h + h;
    }
  }

  // One vote

  predicate ApprovedByAll(row: Row, players: nat) {
    row.candidate && row.pos == players && row.neg == 0
  }

  /** The chosen restaurant has the approval of every player in one ballot. */
  ghost predicate Unanimous(g: Game)
    requires g.phase.Chosen?
  {
    exists i :: 0 <= i < |g.rows| && g.phase.id == g.rows[i].id && ApprovedByAll(g.rows[i], g.players)
  }

  lemma BallotLeavesRow(g: Game, k: nat, rows2: seq<Row>)
    requires Playing(g, k) && |rows2| == |g.rows|
    requires forall i :: 0 <= i < |g.rows| && i != k ==> rows2[i] == g.rows[i]
    requires rows2[k].id == g.rows[k].id
    requires rows2[k].candidate ==> rows2[k].round == g.currRound + 1
    ensures Searching(g.(rows := rows2)) && SameRows(g.rows, rows2)
    ensures Left(g.(rows := rows2)) == Left(g) - 1
  {
    assert Current(rows2, g.currRound) == Current(g.rows, g.currRound) - {k};
    assert k in Current(g.rows, g.currRound);
  }

  /** A vote that does not complete the ballot only counts; the same restaurant stays on offer. */
  lemma VoteWithinBallot(g: Game, k: nat, up: bool, g': Game)
    requires Playing(g, k) && Vote(g, k, up, g') && g.rows[k].pos + g.rows[k].neg + 1 < g.players
    ensures Playing(g', k) && SameRows(g.rows, g'.rows) && g'.players == g.players
    ensures g'.rows[k].pos + g'.rows[k].neg == g.rows[k].pos + g.rows[k].neg + 1
    ensures Left(g') == Left(g) && g'.currRound == g.currRound
  {
    hide Offers;
    assert Current(g'.rows, g.currRound) == Current(g.rows, g.currRound);
  }

  lemma SettledAfterBallot(g: Game, g1: Game, g': Game)
    requires Searching(g1) && SameRows(g.rows, g1.rows) && g1.players == g.players && g1.currRound == g.currRound
    requires Left(g1) == Left(g) - 1 && Offers(g1, g')
    ensures BallotDone(g, g')
  {
    hide Searching, Offers, Left, Playing, AfterLastRound;
    SearchSettles(g1, g');
  }

  /** How a game stands after a completed ballot. */
  ghost predicate BallotDone(g: Game, g': Game) {
    && SameRows(g.rows, g'.rows) && g'.players == g.players
    && match g'.phase
      case Offering(_) => Left(g') < Left(g) && exists k: nat :: Playing(g', k) && g'.rows[k].pos == g'.rows[k].neg == 0
      case Chosen(id) => Unanimous(g') || AfterLastRound(g')
  }

  lemma VoteCompletesBallot(g: Game, k: nat, up: bool, g': Game)
    requires Playing(g, k) && Vote(g, k, up, g') && g.rows[k].pos + g.rows[k].neg + 1 == g.players
    ensures BallotDone(g, g')
  {
    hide Offers, Left, Searching, AfterLastRound;
    var id := g.rows[k].id;
    var voted := if up then AddPos(g.rows, id) else AddNeg(g.rows, id);
    var row := voted[k];
    if up && g.players == row.pos {
      assert g'.rows[k].pos == g'.players && g'.rows[k].neg == 0;
    } else if !up && g.players == row.neg {
      BallotLeavesRow(g, k, Disable(voted, id));
      SettledAfterBallot(g, g.(rows := Disable(voted, id)), g');
    } else {
      BallotLeavesRow(g, k, NextRound(voted, id));
      SettledAfterBallot(g, g.(rows := NextRound(voted, id)), g');
    }
  }
}
