/** Which of several optimal seams the traceback finds. */
module SeamTies {
  import opened Builtins
  import opened Grids
  import opened SeamTable
  import opened SeamTrace

  /** The paths agree in all rows below row r. */
  ghost predicate AgreeBelow(p: seq<int>, s: seq<int>, r: nat) {
    |p| == |s| && forall q :: r < q < |p| ==> p[q] == s[q]
  }

  /** The cost of the first n rows of a path. */
  ghost function CostTo(e: Grid<real>, w: nat, p: seq<int>, n: nat): real
    requires Wide(e, w) && IsPath(p, w) && n <= |p| == |e|
  {
    PrefixIsPath(p, w, n);
    Cost(e, w, p[..n])
  }

  lemma CostToNext(e: Grid<real>, w: nat, p: seq<int>, n: nat)
    requires Wide(e, w) && IsPath(p, w) && n < |p| == |e|
    ensures 0 <= p[n] < w
    ensures CostTo(e, w, p, n + 1) == CostTo(e, w, p, n) + e[n][p[n]]
  {
    assert 0 <= p[n] < w;
    hide IsPath, Cost;
    PrefixCost(e, w, p, n);
  }

  /** Where two paths agree they add the same to their costs. */
  lemma {:induction false} CostBelow(e: Grid<real>, w: nat, p: seq<int>, s: seq<int>, r: nat, n: nat)
    requires Wide(e, w) && IsPath(p, w) && IsPath(s, w) && |p| == |s| == |e| && r < n <= |e| && AgreeBelow(p, s, r)
    ensures CostTo(e, w, p, n) - CostTo(e, w, s, n) == CostTo(e, w, p, r + 1) - CostTo(e, w, s, r + 1)
  {
    hide IsPath, CostTo;
    if r + 1 < n {
      CostBelow(e, w, p, s, r, n - 1);
      CostToNext(e, w, p, n - 1);
      CostToNext(e, w, s, n - 1);
      assert p[n - 1] == s[n - 1];
    }
  }

  lemma CostToEnd(e: Grid<real>, w: nat, p: seq<int>)
    requires Wide(e, w) && IsPath(p, w) && |p| == |e|
    ensures CostTo(e, w, p, |e|) == Cost(e, w, p)
  {
    hide IsPath, Cost;
    assert p[..|p|] == p;
  }

  lemma RowBound(e: Grid<real>, w: nat, q: seq<int>, r: nat)
    requires Wide(e, w) && Carvable(|e|, w) && r < |e| && |q| == r + 1 && IsPath(q, w) && 0 <= q[r] < w
    ensures Row(e, w, r)[q[r]] <= Cost(e, w, q)
  {
    hide Cost, Row, IsPath;
    RowIsLowerBound(e, w, q);
  }

  lemma CellBelowCost(e: Grid<real>, w: nat, p: seq<int>, r: nat)
    requires Wide(e, w) && Carvable(|e|, w) && IsPath(p, w) && r < |p| == |e|
    ensures 0 <= p[r] < w && Row(e, w, r)[p[r]] <= CostTo(e, w, p, r + 1)
  {
    assert 0 <= p[r] < w;
    PrefixIsPath(p, w, r + 1);
    var q := p[..r + 1];
    assert q[r] == p[r] && CostTo(e, w, p, r + 1) == Cost(e, w, q);
    hide IsPath, Cost, Row, CostTo, Wide;
    RowBound(e, w, q, r);
  }

  lemma CellOfSeam(e: Grid<real>, w: nat, r: nat)
    requires Wide(e, w) && w > 0 && Carvable(|e|, w) && r < |e| && IsPath(Seam(e, w), w)
    ensures 0 <= Seam(e, w)[r] < w && Row(e, w, r)[Seam(e, w)[r]] == CostTo(e, w, Seam(e, w), r + 1)
  {
    assert 0 <= Seam(e, w)[r] < w;
    assert Table(e, w)[r] == Row(e, w, r);
    hide IsPath, Cost, Row, Seam;
    TraceCost(e, w, Seam(e, w), r);
  }

  /** An optimal path that joins the seam below row r is at a cell of row r that is no dearer than the seam's. */
  lemma OptimalCell(e: Grid<real>, w: nat, p: seq<int>, r: nat)
    requires Wide(e, w) && w > 0 && Carvable(|e|, w) && r < |e|
    requires |p| == |e| && IsPath(p, w) && AgreeBelow(p, Seam(e, w), r)
    requires IsPath(Seam(e, w), w) && Cost(e, w, p) == Cost(e, w, Seam(e, w))
    ensures 0 <= p[r] < w && 0 <= Seam(e, w)[r] < w && Row(e, w, r)[p[r]] <= Row(e, w, r)[Seam(e, w)[r]]
  {
    hide IsPath, Cost, Row, Seam, AgreeBelow, CostTo;
    CostBelow(e, w, p, Seam(e, w), r, |e|);
    CostToEnd(e, w, p);
    CostToEnd(e, w, Seam(e, w));
    CellBelowCost(e, w, p, r);
    CellOfSeam(e, w, r);
  }

  /** The seam's column in a row is the first of the least ones that it could have come from. */
  lemma FirstInWindow(row: seq<real>, w: nat, c: nat, d: nat)
    requires |row| == w && w >= 2 && c < w && d < w && -1 <= d - c <= 1
    ensures var f := Lo(c) + FirstMin(row[Lo(c)..Hi(c, w)]); f < w && (row[d] <= row[f] ==> f <= d)
  {
    var win := row[Lo(c)..Hi(c, w)];
    assert win[d - Lo(c)] == row[d];
  }

  /**
   * Of all optimal seams the traceback finds the one that is furthest left, row by row from the bottom: where an
   * optimal seam that has joined it below parts from it, that seam goes to its right.
   */
  lemma SeamIsLeftmost(e: Grid<real>, w: nat, p: seq<int>, r: nat)
    requires Wide(e, w) && w > 0 && Carvable(|e|, w) && r < |e| == |p|
    requires IsOptimalSeam(e, w, p) && AgreeBelow(p, Seam(e, w), r)
    ensures Seam(e, w)[r] <= p[r]
  {
    hide Row, IsPath, IsOptimalSeam, Seam, Cost, AgreeBelow, FirstMin;
    SameCost(e, w, p);
    NextColumn(p, Seam(e, w), w, r);
    OptimalCell(e, w, p, r);
    SeamEquation(e, w, r);
    if r + 1 < |e| {
      FirstInWindow(Row(e, w, r), w, Seam(e, w)[r + 1], p[r]);
    } else {
      FirstInRow(Row(e, w, r), p[r]);
    }
  }

  lemma SameCost(e: Grid<real>, w: nat, p: seq<int>)
    requires Wide(e, w) && w > 0 && Carvable(|e|, w) && IsOptimalSeam(e, w, p)
    ensures |p| == |e| && IsPath(p, w) && IsPath(Seam(e, w), w) && Cost(e, w, p) == Cost(e, w, Seam(e, w))
  {
    hide Seam, IsPath, Cost;
    SeamIsOptimal(e, w);
  }

  lemma NextColumn(p: seq<int>, s: seq<int>, w: nat, r: nat)
    requires IsPath(p, w) && r < |p| && AgreeBelow(p, s, r)
    ensures 0 <= p[r] && |s| == |p|
    ensures r + 1 < |p| ==> -1 <= p[r] - p[r + 1] <= 1 && p[r + 1] == s[r + 1]
  {
  }

  lemma FirstInRow(row: seq<real>, d: nat)
    requires d < |row|
    ensures row[d] <= row[FirstMin(row)] ==> FirstMin(row) <= d
  {
  }

  lemma SeamEquation(e: Grid<real>, w: nat, r: nat)
    requires Wide(e, w) && w > 0 && Carvable(|e|, w) && r < |e|
    ensures r == |e| - 1 ==> Seam(e, w)[r] == FirstMin(Row(e, w, r))
    ensures r < |e| - 1 ==>
      var c := Seam(e, w)[r + 1]; 0 <= c < w && Seam(e, w)[r] == Lo(c) + FirstMin(Row(e, w, r)[Lo(c)..Hi(c, w)])
  {
    hide Row, Trace, FirstMin;
    assert Table(e, w)[r] == Row(e, w, r);
    TraceEquation(Table(e, w), w, r);
  }

  /** So it is the only seam of which this is true. */
  lemma {:induction false} LeftmostIsUnique(e: Grid<real>, w: nat, s: seq<int>, n: nat)
    requires Wide(e, w) && w > 0 && Carvable(|e|, w) && |s| == |e| && IsOptimalSeam(e, w, s) && n <= |e|
    requires forall p, r: nat :: r < |e| && IsOptimalSeam(e, w, p) && AgreeBelow(p, s, r) ==> s[r] <= p[r]
    ensures forall r :: n <= r < |e| ==> s[r] == Seam(e, w)[r]
    decreases |e| - n
  {
    hide IsOptimalSeam, Seam;
    if n < |e| {
      LeftmostIsUnique(e, w, s, n + 1);
      SeamIsOptimal(e, w);
      SeamIsLeftmost(e, w, s, n);
      assert AgreeBelow(Seam(e, w), s, n);
    }
  }
}
