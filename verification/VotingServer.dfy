/** The game logic of the server: the row of the game and its restaurant rows, updated step by step. */
module VotingServer {
  import opened VotingModel
  import opened VotingRuns

  /** A pick from n items. */
  method PickIndex(n: nat) returns (i: nat)
    requires n > 0
    ensures i < n
  {
    i :| 0 <= i < n;
  }

  ghost predicate Ordered(rows: seq<Row>) {
    forall i, j :: 0 <= i < j < |rows| ==> rows[i].neg <= rows[j].neg
  }

  /** perm says where each row of sorted comes from, and uses every row once. */
  ghost predicate Rearranges(rows: seq<Row>, sorted: seq<Row>, perm: seq<nat>) {
    && |perm| == |sorted| == |rows|
    && (forall i :: 0 <= i < |perm| ==> perm[i] < |rows| && sorted[i] == rows[perm[i]])
    && (forall i, j :: 0 <= i < j < |perm| ==> perm[i] != perm[j])
  }

  /** Some order by increasing negative votes; ties may fall either way. */
  method SortByNeg(rows: seq<Row>) returns (sorted: seq<Row>, ghost perm: seq<nat>)
    ensures Rearranges(rows, sorted, perm) && Ordered(sorted)
  {
    hide Ordered, Rearranges;
    sorted, perm := [], [];
    NothingToSort(rows[..0]);
    for n := 0 to |rows|
      invariant Rearranges(rows[..n], sorted, perm) && Ordered(sorted) && |perm| == |sorted| == n
    {
      var k := 0;
      while k < |sorted| && sorted[k].neg < rows[n].neg
        invariant 0 <= k <= |sorted|
        invariant forall i :: 0 <= i < k ==> sorted[i].neg < rows[n].neg
      {
        k := k + 1;
      }
      InsertKeepsOrder(sorted, rows[n], k);
      InsertRearranges(rows, n, sorted, perm, k);
      sorted := sorted[..k] + [rows[n]] + sorted[k..];
      perm := perm[..k] + [n] + perm[k..];
    }
    assert rows[..|rows|] == rows;
  }

  lemma NothingToSort(rows: seq<Row>)
    requires rows == []
    ensures Rearranges(rows, [], []) && Ordered([])
  {
  }

  lemma InsertKeepsOrder(sorted: seq<Row>, row: Row, k: nat)
    requires Ordered(sorted) && k <= |sorted|
    requires forall i :: 0 <= i < k ==> sorted[i].neg < row.neg
    requires k < |sorted| ==> row.neg <= sorted[k].neg
    ensures Ordered(sorted[..k] + [row] + sorted[k..])
  {
  }

  lemma InsertRearranges(rows: seq<Row>, n: nat, sorted: seq<Row>, perm: seq<nat>, k: nat)
    requires n < |rows| && Rearranges(rows[..n], sorted, perm) && k <= |sorted|
    ensures |perm| == |sorted| && Rearranges(rows[..n + 1], sorted[..k] + [rows[n]] + sorted[k..], perm[..k] + [n] + perm[k..])
  {
  }

  class Server {
    var rows: seq<Row>
    var currRound: nat
    const players: nat
    var phase: Phase

    ghost function Value(): Game
      reads this
    {
      Game(rows, players, currRound, phase)
    }

    constructor (rows: seq<Row>, players: nat)
      ensures this.rows == rows && this.players == players && currRound == 1
    {
      this.rows, this.players, currRound := rows, players, 1;
      phase := Offering(0);
    }

    /** The game starts with the search for the first candidate. */
    method Gameplay()
      requires Stored(Value())
      modifies this
      ensures Offers(old(Value()), Value())
    {
      StoredSearches(Value());
      NewCandidateLogic();
    }

    /** The row of the restaurant on offer. */
    ghost predicate OnOffer(k: nat)
      reads this
    {
      Playing(Value(), k)
    }

    /** An approving vote for the restaurant on offer. */
    method HandlePosVote(restId: nat, ghost k: nat)
      requires OnOffer(k) && restId == rows[k].id
      modifies this
      ensures Vote(old(Value()), k, true, Value())
    {
      ghost var g := Value();
      rows := AddPos(rows, restId);
      var row := SelectRow(restId, k);
      if players == row.pos {
        phase := Chosen(row.id);
      } else if players == row.pos + row.neg {
        UpdateRestaurantRound(restId, g, k);
      }
    }

    /** A rejecting vote for the restaurant on offer. */
    method HandleNegVote(restId: nat, ghost k: nat)
      requires OnOffer(k) && restId == rows[k].id
      modifies this
      ensures Vote(old(Value()), k, false, Value())
    {
      ghost var g := Value();
      rows := AddNeg(rows, restId);
      var row := SelectRow(restId, k);
      if players == row.neg {
        DisableCandidacy(restId, g, k);
      } else if players == row.pos + row.neg {
        UpdateRestaurantRound(restId, g, k);
      }
    }

    /** The row with the identifier. */
    method SelectRow(restId: nat, ghost k: nat) returns (row: Row)
      requires k < |rows| && rows[k].id == restId && UniqueIds(rows)
      ensures row == rows[k]
    {
      var i := 0;
      while rows[i].id != restId
        invariant 0 <= i <= k
        decreases k - i
      {
        i := i + 1;
      }
      row := rows[i];
    }

    /** The restaurant had its ballot in this round and is up again in the next. */
    method UpdateRestaurantRound(restId: nat, ghost g: Game, ghost k: nat)
      requires Playing(g, k) && restId == g.rows[k].id && VotedFrom(g, k, Value())
      modifies this
      ensures Offers(old(Value()).(rows := NextRound(old(Value()).rows, restId)), Value())
    {
      BallotLeavesRow(g, k, NextRound(rows, restId));
      rows := NextRound(rows, restId);
      NewCandidateLogic();
    }

    /** The restaurant is out. */
    method DisableCandidacy(restId: nat, ghost g: Game, ghost k: nat)
      requires Playing(g, k) && restId == g.rows[k].id && VotedFrom(g, k, Value())
      modifies this
      ensures Offers(old(Value()).(rows := Disable(old(Value()).rows, restId)), Value())
    {
      BallotLeavesRow(g, k, Disable(rows, restId));
      rows := Disable(rows, restId);
      NewCandidateLogic();
    }

    /** Offers a random candidate of the current round, or moves on to the next round or the end. */
    method NewCandidateLogic()
      requires Searching(Value())
      modifies this
      ensures Offers(old(Value()), Value())
      decreases if currRound <= ROUNDS then ROUNDS + 1 - currRound else 0, 1
    {
      if currRound <= ROUNDS {
        var found: seq<nat> := [];
        for i := 0 to |rows|
          invariant forall x :: x in found <==> x in Current(rows[..i], currRound)
        {
          if rows[i].candidate && rows[i].round == currRound {
            found := found + [i];
          }
        }
        assert rows[..|rows|] == rows;
        if |found| == 0 {
          UpdateGameRound();
        } else {
          var k := PickIndex(|found|);
          assert found[k] in found;
          phase := Offering(rows[found[k]].id);
        }
      } else {
        SystemEndGameplay();
      }
    }

    /** The next round: half of the restaurants lose candidacy, the votes are reset, and the search goes on. */
    method UpdateGameRound()
      requires Searching(Value()) && currRound <= ROUNDS && Current(rows, currRound) == {}
      modifies this
      ensures Offers(old(Value()), Value())
      decreases if currRound <= ROUNDS then ROUNDS + 1 - currRound else 0, 0
    {
      ghost var g := Value();
      currRound := currRound + 1;
      DisableMultiCandidates();
      ghost var lower :| IsLowerHalf(g.rows, lower) && rows == Dropped(g.rows, lower);
      ResetRoundVotes();
      assert rows == DropAndReset(g.rows, lower);
      assert Reduced(g.rows, rows);
      ReducedKeeps(g, rows);
      NewCandidateLogic();
    }

    /** Sorts a copy of the rows by negative votes and disables the first half of it. */
    method DisableMultiCandidates()
      requires UniqueIds(rows)
      modifies this`rows
      ensures exists lower :: IsLowerHalf(old(rows), lower) && rows == Dropped(old(rows), lower)
    {
      ghost var before := rows;
      var sorted, perm := SortByNeg(rows);
      var lowerHalfLength := |sorted| / 2;
      for n := 0 to lowerHalfLength
        invariant rows == Dropped(before, Firsts(perm, n))
      {
        DropNext(before, sorted, perm, n);
        rows := Disable(rows, sorted[n].id);
      }
      HalfOf(before, sorted, perm);
    }

    /** Clears the votes of every row. */
    method ResetRoundVotes()
      modifies this`rows
      ensures |rows| == |old(rows)| && forall i :: 0 <= i < |rows| ==> rows[i] == old(rows)[i].(pos := 0, neg := 0)
    {
      rows := seq(|rows|, i requires 0 <= i < |rows| reads this => rows[i].(pos := 0, neg := 0));
    }

    /** Picks a candidate with the fewest negative votes, or any restaurant when no candidate is left. */
    method SystemEndGameplay()
      requires rows != []
      modifies this`phase
      ensures Ends(old(Value()), Value())
    {
      var candidates: seq<Row> := [];
      ghost var from: seq<nat> := [];
      for i := 0 to |rows|
        invariant |from| == |candidates|
        invariant forall x :: 0 <= x < |from| ==> from[x] < i && candidates[x] == rows[from[x]] && rows[from[x]].candidate
        invariant forall j :: 0 <= j < i && rows[j].candidate ==> j in from
      {
        if rows[i].candidate {
          candidates := candidates + [rows[i]];
          from := from + [i];
        }
      }
      if |candidates| > 0 {
        var sorted, perm := SortByNeg(candidates);
        FirstIsLeast(rows, candidates, from, sorted, perm);
        phase := Chosen(sorted[0].id);
      } else {
        var k := PickIndex(|rows|);
        phase := Chosen(rows[k].id);
      }
    }
  }

  /** g' is g with votes added to row k. */
  ghost predicate VotedFrom(g: Game, k: nat, g': Game)
    requires k < |g.rows|
  {
    && g' == g.(rows := g'.rows) && |g'.rows| == |g.rows|
    && (forall i :: 0 <= i < |g.rows| && i != k ==> g'.rows[i] == g.rows[i])
    && g'.rows[k].id == g.rows[k].id && g'.rows[k].round == g.rows[k].round
  }

  ghost function Dropped(rows: seq<Row>, lower: set<nat>): (r: seq<Row>)
    ensures |r| == |rows|
  {
    seq(|rows|, i requires 0 <= i < |rows| => rows[i].(candidate := rows[i].candidate && i !in lower))
  }

  ghost function Firsts(perm: seq<nat>, n: nat): set<nat>
    requires n <= |perm|
  {
    set i | 0 <= i < n :: perm[i]
  }

  lemma FirstsStep(perm: seq<nat>, n: nat)
    requires n < |perm|
    ensures Firsts(perm, n + 1) == Firsts(perm, n) + {perm[n]}
  {
  }

  lemma DropNext(rows: seq<Row>, sorted: seq<Row>, perm: seq<nat>, n: nat)
    requires Rearranges(rows, sorted, perm) && UniqueIds(rows) && n < |perm|
    ensures Disable(Dropped(rows, Firsts(perm, n)), sorted[n].id) == Dropped(rows, Firsts(perm, n + 1))
  {
    FirstsStep(perm, n);
    hide Firsts;
    var k := perm[n];
    forall i | 0 <= i < |rows| && i != k ensures rows[i].id != rows[k].id {
      assert i < k || k < i;
    }
  }

  lemma {:induction false} FirstsSize(perm: seq<nat>, n: nat)
    requires n <= |perm| && forall i, j :: 0 <= i < j < |perm| ==> perm[i] != perm[j]
    ensures |Firsts(perm, n)| == n
  {
    if n == 0 {
      assert Firsts(perm, 0) == {};
    } else {
      FirstsSize(perm, n - 1);
      FirstsStep(perm, n - 1);
    }
  }

  /** A rearrangement leaves no row out. */
  lemma NoneLeftOut(rows: seq<Row>, sorted: seq<Row>, perm: seq<nat>, j: nat)
    requires Rearranges(rows, sorted, perm) && j < |rows|
    ensures j in perm
  {
    FirstsSize(perm, |perm|);
    if j !in perm {
      SetsShareIndices(Firsts(perm, |perm|), {j}, |rows|);
    }
  }

  /** The first half of the sorted rows is a lower half. */
  lemma HalfOf(rows: seq<Row>, sorted: seq<Row>, perm: seq<nat>)
    requires Rearranges(rows, sorted, perm) && Ordered(sorted)
    ensures IsLowerHalf(rows, Firsts(perm, |rows| / 2))
  {
    var h := |rows| / 2;
    var lower := Firsts(perm, h);
    FirstsSize(perm, h);
    forall i, j | i in lower && 0 <= j < |rows| && j !in lower ensures rows[i].neg <= rows[j].neg {
      NoneLeftOut(rows, sorted, perm, j);
      var x :| 0 <= x < h && perm[x] == i;
      var y :| 0 <= y < |perm| && perm[y] == j;
      assert h <= y;
      assert sorted[x].neg <= sorted[y].neg;
    }
  }

  /** The first of the sorted candidates has the fewest negative votes of all candidates. */
  lemma FirstIsLeast(rows: seq<Row>, candidates: seq<Row>, from: seq<nat>, sorted: seq<Row>, perm: seq<nat>)
    requires candidates != [] && |from| == |candidates|
    requires forall x :: 0 <= x < |from| ==> from[x] < |rows| && candidates[x] == rows[from[x]] && rows[from[x]].candidate
    requires forall j :: 0 <= j < |rows| && rows[j].candidate ==> j in from
    requires Rearranges(candidates, sorted, perm) && Ordered(sorted)
    ensures var i := from[perm[0]]; i < |rows| && sorted[0] == rows[i] && LeastDisliked(rows, i)
  {
    var i := from[perm[0]];
    forall j | 0 <= j < |rows| && rows[j].candidate ensures rows[i].neg <= rows[j].neg {
      var x :| 0 <= x < |from| && from[x] == j;
      NoneLeftOut(candidates, sorted, perm, x);
      var y :| 0 <= y < |perm| && perm[y] == x;
      assert sorted[0].neg <= sorted[y].neg;
    }
  }
}
