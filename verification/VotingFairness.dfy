/** Which restaurants the rounds eliminate, and which can win, against what the game promises about dislikes. */
module VotingFairness {
  import opened VotingModel

  ghost predicate InRows(rows: seq<Row>, s: set<nat>) {
    forall i :: i in s ==> i < |rows|
  }

  ghost function Candidates(rows: seq<Row>): set<nat> {
    set i | 0 <= i < |rows| && rows[i].candidate
  }

  /** The rows with at most as many negative votes as row c. */
  ghost function AtMost(rows: seq<Row>, c: nat): set<nat>
    requires c < |rows|
  {
    set i | 0 <= i < |rows| && rows[i].neg <= rows[c].neg
  }

  /** The rows with fewer negative votes than row c. */
  ghost function Fewer(rows: seq<Row>, c: nat): set<nat>
    requires c < |rows|
  {
    set i | 0 <= i < |rows| && rows[i].neg < rows[c].neg
  }

  /** The rows outside keep with at most as many negative votes as every row in it. */
  ghost function Eligible(rows: seq<Row>, keep: set<nat>): set<nat>
    requires InRows(rows, keep)
  {
    set i | 0 <= i < |rows| && i !in keep && forall c :: c in keep ==> rows[i].neg <= rows[c].neg
  }

  /** The rows of drop, and those with fewer negative votes than one of them. */
  ghost function Below(rows: seq<Row>, drop: set<nat>): set<nat>
    requires InRows(rows, drop)
  {
    set i | 0 <= i < |rows| && (i in drop || exists c :: c in drop && rows[i].neg < rows[c].neg)
  }

  /** No row outside has fewer negative votes than a row inside. */
  ghost predicate IsLower(rows: seq<Row>, s: set<nat>)
    requires InRows(rows, s)
  {
    forall i, j :: i in s && 0 <= j < |rows| && j !in s ==> rows[i].neg <= rows[j].neg
  }

  lemma {:induction false} Least(rows: seq<Row>, pool: set<nat>) returns (m: nat)
    requires InRows(rows, pool) && pool != {}
    ensures m in pool && forall i :: i in pool ==> rows[m].neg <= rows[i].neg
    decreases |pool|
  {
    m :| m in pool;
    if pool != {m} {
      var rest := pool - {m};
      var x :| x in pool && x != m;
      assert x in rest;
      var n := Least(rows, rest);
      assert forall i :: i in pool ==> i == m || i in rest;
      if rows[n].neg < rows[m].neg {
        m := n;
      }
    }
  }

  /** A lower set can be filled up to any size with rows that may go before those to be kept. */
  lemma {:induction false} Fill(rows: seq<Row>, base: set<nat>, keep: set<nat>, h: nat) returns (lower: set<nat>)
    requires InRows(rows, base) && InRows(rows, keep) && IsLower(rows, base) && base !! keep
    requires |base| <= h <= |Eligible(rows, keep)|
    ensures InRows(rows, lower) && IsLower(rows, lower) && |lower| == h && base <= lower && lower !! keep
    decreases h - |base|
  {
    if |base| == h {
      lower := base;
    } else {
      var all := Eligible(rows, keep);
      var pool := all - base;
      if all <= base {
        SubsetSize(all, base);
        assert false;
      }
      var x :| x in all && x !in base;
      assert x in pool;
      var m := Least(rows, pool);
      FillNext(rows, base, keep, m);
      lower := Fill(rows, base + {m}, keep, h);
    }
  }

  lemma FillNext(rows: seq<Row>, base: set<nat>, keep: set<nat>, m: nat)
    requires InRows(rows, base) && InRows(rows, keep) && IsLower(rows, base)
    requires m in Eligible(rows, keep) - base
    requires forall i :: i in Eligible(rows, keep) - base ==> rows[m].neg <= rows[i].neg
    ensures IsLower(rows, base + {m})
  {
    forall j | 0 <= j < |rows| && j !in base + {m} ensures rows[m].neg <= rows[j].neg {
      if j !in keep && j !in Eligible(rows, keep) {
        var c :| c in keep && rows[c].neg < rows[j].neg;
      }
    }
  }

  lemma {:induction false} SubsetSize(a: set<nat>, b: set<nat>)
    requires a <= b
    ensures |a| <= |b|
    decreases |a|
  {
    if a != {} {
      var x :| x in a;
      SubsetSize(a - {x}, b - {x});
    }
  }

  lemma BelowIsLower(rows: seq<Row>, drop: set<nat>)
    requires InRows(rows, drop)
    ensures IsLower(rows, Below(rows, drop))
  {
  }

  // What a round change can do

  ghost predicate KeepsAll(rows: seq<Row>, s: set<nat>) {
    forall c :: c in s ==> c < |rows| && rows[c].candidate
  }

  ghost predicate DropsAll(rows: seq<Row>, s: set<nat>) {
    forall c :: c in s ==> c < |rows| && !rows[c].candidate
  }

  lemma Reduce(rows: seq<Row>, lower: set<nat>)
    requires InRows(rows, lower) && IsLower(rows, lower) && |lower| == |rows| / 2
    ensures IsLowerHalf(rows, lower) && Reduced(rows, DropAndReset(rows, lower))
  {
  }

  /** A round change can leave the given candidates in if and only if half of the rows may go before them all. */
  lemma KeepExactly(rows: seq<Row>, keep: set<nat>)
    requires keep <= Candidates(rows)
    ensures (exists rows': seq<Row> :: Reduced(rows, rows') && KeepsAll(rows', keep)) <==> |rows| / 2 <= |Eligible(rows, keep)|
  {
    var all := Eligible(rows, keep);
    if rows': seq<Row> :| Reduced(rows, rows') && KeepsAll(rows', keep) {
      var lower :| IsLowerHalf(rows, lower) && rows' == DropAndReset(rows, lower);
      assert forall c :: c in keep ==> rows'[c].candidate;
      assert lower <= all;
      SubsetSize(lower, all);
    }
    if |rows| / 2 <= |all| {
      var lower := Fill(rows, {}, keep, |rows| / 2);
      Reduce(rows, lower);
      assert KeepsAll(DropAndReset(rows, lower), keep);
    }
  }

  /** A round change can eliminate the given candidates if and only if they and all rows below them are at most half. */
  lemma DropExactly(rows: seq<Row>, drop: set<nat>)
    requires drop <= Candidates(rows)
    ensures (exists rows': seq<Row> :: Reduced(rows, rows') && DropsAll(rows', drop)) <==> |Below(rows, drop)| <= |rows| / 2
  {
    var below := Below(rows, drop);
    if rows': seq<Row> :| Reduced(rows, rows') && DropsAll(rows', drop) {
      var lower :| IsLowerHalf(rows, lower) && rows' == DropAndReset(rows, lower);
      assert forall c :: c in drop ==> !rows'[c].candidate && rows[c].candidate;
      assert below <= lower;
      SubsetSize(below, lower);
    }
    if |below| <= |rows| / 2 {
      BelowIsLower(rows, drop);
      EveryRow(rows);
      var lower := Fill(rows, below, {}, |rows| / 2);
      Reduce(rows, lower);
      assert DropsAll(DropAndReset(rows, lower), drop);
    }
  }

  lemma {:induction false} EveryRow(rows: seq<Row>)
    ensures |Eligible(rows, {})| == |rows|
  {
    if rows == [] {
      assert Eligible(rows, {}) == {};
    } else {
      var n := |rows| - 1;
      EveryRow(rows[..n]);
      assert Eligible(rows, {}) == Eligible(rows[..n], {}) + {n};
    }
  }

  /** A candidate can stay in if and only if more than half of the rows have at most as many negative votes as it has. */
  lemma SurvivesExactly(rows: seq<Row>, c: nat)
    requires c < |rows| && rows[c].candidate
    ensures (exists rows': seq<Row> :: Reduced(rows, rows') && c < |rows'| && rows'[c].candidate) <==> |rows| / 2 < |AtMost(rows, c)|
  {
    KeepExactly(rows, {c});
    assert Eligible(rows, {c}) == AtMost(rows, c) - {c};
    if rows': seq<Row> :| Reduced(rows, rows') && c < |rows'| && rows'[c].candidate {
      assert KeepsAll(rows', {c});
    }
    if rows': seq<Row> :| Reduced(rows, rows') && KeepsAll(rows', {c}) {
      assert c in {c};
    }
  }

  /** A candidate can be eliminated if and only if fewer than half of the rows have fewer negative votes. */
  lemma EliminatedExactly(rows: seq<Row>, c: nat)
    requires c < |rows| && rows[c].candidate
    ensures (exists rows': seq<Row> :: Reduced(rows, rows') && c < |rows'| && !rows'[c].candidate) <==> |Fewer(rows, c)| < |rows| / 2
  {
    DropExactly(rows, {c});
    assert Below(rows, {c}) == Fewer(rows, c) + {c};
    if rows': seq<Row> :| Reduced(rows, rows') && c < |rows'| && !rows'[c].candidate {
      assert DropsAll(rows', {c});
    }
    if rows': seq<Row> :| Reduced(rows, rows') && DropsAll(rows', {c}) {
      assert c in {c};
    }
  }

  /** A round change can leave no candidate if and only if the candidates and all rows below one are at most half. */
  lemma LeavesNoneExactly(rows: seq<Row>)
    ensures (exists rows': seq<Row> :: Reduced(rows, rows') && !AnyCandidate(rows')) <==> |Below(rows, Candidates(rows))| <= |rows| / 2
  {
    DropExactly(rows, Candidates(rows));
    if rows': seq<Row> :| Reduced(rows, rows') && !AnyCandidate(rows') {
      assert DropsAll(rows', Candidates(rows));
    }
    if rows': seq<Row> :| Reduced(rows, rows') && DropsAll(rows', Candidates(rows)) {
      assert forall i :: 0 <= i < |rows'| && rows'[i].candidate ==> i in Candidates(rows);
    }
  }

  /**
   * The promise that no more are eliminated when half already have been: however ties fall, a round change spares
   * every candidate if and only if at least half of the rows have fewer negative votes than each of them.
   */
  lemma SparesAllExactly(rows: seq<Row>)
    ensures (forall rows': seq<Row> :: Reduced(rows, rows') ==> KeepsAll(rows', Candidates(rows)))
       <==> (forall c :: c in Candidates(rows) ==> |rows| / 2 <= |Fewer(rows, c)|)
  {
    forall c | c in Candidates(rows)
      ensures (exists rows': seq<Row> :: Reduced(rows, rows') && c < |rows'| && !rows'[c].candidate) <==> |Fewer(rows, c)| < |rows| / 2
    {
      EliminatedExactly(rows, c);
    }
    if c :| c in Candidates(rows) && |Fewer(rows, c)| < |rows| / 2 {
      var rows': seq<Row> :| Reduced(rows, rows') && c < |rows'| && !rows'[c].candidate;
      assert !KeepsAll(rows', Candidates(rows));
    }
  }

  // The choice after the last round, against the votes that the last round change clears

  /** The candidates of a have equally many negative votes in rows. */
  ghost predicate Tied(rows: seq<Row>, a: seq<Row>)
    requires |a| == |rows|
  {
    forall i, j :: 0 <= i < |a| && 0 <= j < |a| && a[i].candidate && a[j].candidate ==> rows[i].neg == rows[j].neg
  }

  /** Row i can be the one that is chosen when the round change before the choice leads to rows'. */
  ghost predicate CanBeChosen(rows': seq<Row>, i: nat) {
    i < |rows'| && (AnyCandidate(rows') ==> LeastDisliked(rows', i))
  }

  lemma ClearedVotes(rows: seq<Row>, rows': seq<Row>)
    requires Reduced(rows, rows')
    ensures |rows'| == |rows| && forall i :: 0 <= i < |rows| ==> rows'[i].neg == 0 && rows'[i].id == rows[i].id
    ensures forall i :: 0 <= i < |rows| && rows'[i].candidate ==> rows[i].candidate
    ensures forall i: nat :: CanBeChosen(rows', i) <==> i < |rows'| && (AnyCandidate(rows') ==> rows'[i].candidate)
  {
    hide IsLowerHalf;
  }

  /** At the end any row can be chosen when none is a candidate, and else any candidate that no candidate has fewer votes against. */
  lemma EndExactly(g: Game, i: nat)
    requires UniqueIds(g.rows) && i < |g.rows|
    ensures Ends(g, g.(phase := Chosen(g.rows[i].id))) <==>
      || (forall j :: 0 <= j < |g.rows| ==> !g.rows[j].candidate)
      || (g.rows[i].candidate && forall j :: 0 <= j < |g.rows| && g.rows[j].candidate ==> g.rows[i].neg <= g.rows[j].neg)
  {
    var g' := g.(phase := Chosen(g.rows[i].id));
    if Ends(g, g') {
      var k :| 0 <= k < |g.rows| && g'.phase.id == g.rows[k].id && (AnyCandidate(g.rows) ==> LeastDisliked(g.rows, k));
      assert k == i;
    }
  }

  /** When the last round is over, a row can come out as the choice if and only if some round change leaves it to choose. */
  lemma ChoiceExactly(g: Game, i: nat)
    requires UniqueIds(g.rows) && g.currRound == ROUNDS && Current(g.rows, ROUNDS) == {} && i < |g.rows|
    ensures (exists g' :: Offers(g, g') && g'.phase == Chosen(g.rows[i].id))
       <==> (exists rows': seq<Row> :: Reduced(g.rows, rows') && CanBeChosen(rows', i))
  {
    if g' :| Offers(g, g') && g'.phase == Chosen(g.rows[i].id) {
      var rows': seq<Row> :| Reduced(g.rows, rows') && Offers(g.(rows := rows', currRound := ROUNDS + 1), g');
      ClearedVotes(g.rows, rows');
      var k :| 0 <= k < |rows'| && g'.phase.id == rows'[k].id && (AnyCandidate(rows') ==> LeastDisliked(rows', k));
      assert k == i;
      assert CanBeChosen(rows', i);
    }
    if rows': seq<Row> :| Reduced(g.rows, rows') && CanBeChosen(rows', i) {
      ClearedVotes(g.rows, rows');
      var g1 := g.(rows := rows', currRound := ROUNDS + 1);
      assert Offers(g1, g1.(phase := Chosen(g.rows[i].id)));
      assert Offers(g, g1.(phase := Chosen(g.rows[i].id)));
    }
  }

  /**
   * After one round change, every restaurant that can be chosen is a survivor with the fewest negative votes that any
   * survivor had before its votes were cleared, if and only if all survivors had equally many.
   */
  lemma ChoiceAmongSurvivors(rows: seq<Row>, rows': seq<Row>)
    requires Reduced(rows, rows') && AnyCandidate(rows')
    ensures (forall i: nat, j :: CanBeChosen(rows', i) && 0 <= j < |rows'| && rows'[j].candidate ==>
        i < |rows| && j < |rows| && rows[i].neg <= rows[j].neg)
      <==> |rows'| == |rows| && Tied(rows, rows')
  {
    ClearedVotes(rows, rows');
    hide Reduced, LeastDisliked, CanBeChosen;
  }

  /** Whatever the last round change is, the choice is a candidate with the fewest negative votes before it. */
  ghost predicate ChoosesLeastDisliked(rows: seq<Row>) {
    forall rows': seq<Row>, i: nat :: Reduced(rows, rows') && CanBeChosen(rows', i) ==> i < |rows| && LeastDisliked(rows, i)
  }

  lemma SomeChoiceIsWrong(rows: seq<Row>, rows': seq<Row>, a: nat, b: nat)
    requires Reduced(rows, rows') && AnyCandidate(rows') && a < |rows| && b < |rows|
    requires rows[a].candidate && rows[b].candidate && rows[a].neg < rows[b].neg
    ensures !ChoosesLeastDisliked(rows)
  {
    ClearedVotes(rows, rows');
    var w :| 0 <= w < |rows'| && rows'[w].candidate;
    var lower :| IsLowerHalf(rows, lower) && rows' == DropAndReset(rows, lower);
    var c := if rows'[b].candidate then b else w;
    assert rows'[c].candidate && rows[b].neg <= rows[c].neg;
    assert CanBeChosen(rows', c) && !LeastDisliked(rows, c);
    hide Reduced, CanBeChosen, LeastDisliked;
  }

  lemma SomeReduction(rows: seq<Row>) returns (rows': seq<Row>)
    ensures Reduced(rows, rows')
  {
    EveryRow(rows);
    var lower := Fill(rows, {}, {}, |rows| / 2);
    Reduce(rows, lower);
    rows' := DropAndReset(rows, lower);
  }

  lemma SomeRowIsOut(rows: seq<Row>) returns (i: nat)
    requires rows != [] && |Candidates(rows)| <= |rows| / 2
    ensures i < |rows| && !rows[i].candidate
  {
    if forall i :: 0 <= i < |rows| ==> rows[i].candidate {
      assert Candidates(rows) == Eligible(rows, {});
      EveryRow(rows);
      assert false;
    }
    i :| 0 <= i < |rows| && !rows[i].candidate;
  }

  /**
   * The final choice is sure to be a least disliked candidate, by the votes before the last round change, if and only
   * if all candidates were tied then and the round change was sure to leave one.
   */
  lemma FinalChoiceExactly(rows: seq<Row>)
    requires rows != []
    ensures ChoosesLeastDisliked(rows) <==> Tied(rows, rows) && |rows| / 2 < |Below(rows, Candidates(rows))|
  {
    var cands := Candidates(rows);
    assert cands <= Below(rows, cands);
    hide Reduced, Below, IsLowerHalf;
    LeavesNoneExactly(rows);
    if |Below(rows, cands)| <= |rows| / 2 {
      var rows': seq<Row> :| Reduced(rows, rows') && !AnyCandidate(rows');
      ClearedVotes(rows, rows');
      SubsetSize(cands, Below(rows, cands));
      var i := SomeRowIsOut(rows);
      assert CanBeChosen(rows', i) && !LeastDisliked(rows, i);
    } else if !Tied(rows, rows) {
      var rows' := SomeReduction(rows);
      var i, j :| 0 <= i < |rows| && 0 <= j < |rows| && rows[i].candidate && rows[j].candidate && rows[i].neg < rows[j].neg;
      SomeChoiceIsWrong(rows, rows', i, j);
    } else {
      forall rows': seq<Row>, i: nat | Reduced(rows, rows') && CanBeChosen(rows', i)
        ensures i < |rows| && LeastDisliked(rows, i)
      {
        ClearedVotes(rows, rows');
      }
    }
  }
}
