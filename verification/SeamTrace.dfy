/** Tracing a seam back through the cumulative map. */
module SeamTrace {
  import opened Builtins
  import opened Grids
  import opened SeamTable

  /** The columns from which column c can be reached in one row are Lo(c), ..., Hi(c, w) - 1. */
  function Lo(c: nat): nat {
    if c == 0 then 0 else c - 1
  }

  function Hi(c: nat, w: nat): nat {
    if c == w - 1 then w else c + 2
  }

  /** The column that the traceback visits in row r. */
  ghost function Trace(t: Grid<real>, w: nat, r: nat): (c: nat)
    requires Wide(t, w) && r < |t| && w > 0 && Carvable(|t|, w)
    ensures c < w
    decreases |t| - r
  {
    if r == |t| - 1 then FirstMin(t[r])
    else
      var c := Trace(t, w, r + 1);
      Lo(c) + FirstMin(t[r][Lo(c)..Hi(c, w)])
  }

  ghost function TraceAll(t: Grid<real>, w: nat): (s: seq<int>)
    requires Wide(t, w) && w > 0 && Carvable(|t|, w)
    ensures |s| == |t|
    ensures forall r :: 0 <= r < |t| ==> s[r] == Trace(t, w, r)
  {
    seq(|t|, r requires 0 <= r < |t| => Trace(t, w, r))
  }

  /** The seam that is removed from an energy grid, top row first. */
  ghost function Seam(e: Grid<real>, w: nat): (s: seq<int>)
    requires Wide(e, w) && w > 0 && Carvable(|e|, w)
    ensures |s| == |e|
  {
    TraceAll(Table(e, w), w)
  }

  /** s is a connected path through every row, and no such path is cheaper. */
  ghost predicate IsOptimalSeam(e: Grid<real>, w: nat, s: seq<int>)
    requires Wide(e, w)
  {
    && |s| == |e| && IsPath(s, w)
    && forall p :: |p| == |e| && IsPath(p, w) ==> Cost(e, w, s) <= Cost(e, w, p)
  }

  lemma TraceStep(t: Grid<real>, w: nat, q: nat)
    requires Wide(t, w) && w > 0 && Carvable(|t|, w) && q + 1 < |t|
    ensures -1 <= Trace(t, w, q + 1) - Trace(t, w, q) <= 1
  {
  }

  lemma TraceIsPath(t: Grid<real>, w: nat)
    requires Wide(t, w) && w > 0 && Carvable(|t|, w)
    ensures IsPath(TraceAll(t, w), w)
  {
    hide Trace;
    var s := TraceAll(t, w);
    forall r, q | 0 <= q < r < |s| && r == q + 1 ensures -1 <= s[r] - s[q] <= 1 {
      TraceStep(t, w, q);
    }
  }

  lemma PrefixIsPath(s: seq<int>, w: nat, n: nat)
    requires IsPath(s, w) && n <= |s|
    ensures IsPath(s[..n], w)
  {
  }

  lemma PrefixCost(e: Grid<real>, w: nat, s: seq<int>, n: nat)
    requires Wide(e, w) && IsPath(s, w) && n < |s| <= |e|
    ensures IsPath(s[..n + 1], w) && IsPath(s[..n], w)
    ensures Cost(e, w, s[..n + 1]) == Cost(e, w, s[..n]) + e[n][s[n]]
  {
    PrefixIsPath(s, w, n);
    PrefixIsPath(s, w, n + 1);
    hide IsPath;
    assert s[..n + 1][..n] == s[..n];
  }

  /** One step of the traceback goes to the cell that the table chose for the cell below it. */
  lemma StepFollowsRelax(row: seq<real>, c: nat)
    requires 2 <= |row| && c < |row|
    ensures row[Lo(c) + FirstMin(row[Lo(c)..Hi(c, |row|)])] == Relax(row, c)
  {
    var win := row[Lo(c)..Hi(c, |row|)];
    var k := FirstMin(win);
    RelaxIsLeast(row, c, Lo(c) + k);
    var d := RelaxIsAttained(row, c);
    assert win[d - Lo(c)] == row[d];
    hide Relax;
  }

  lemma EmptyCost(e: Grid<real>, w: nat, s: seq<int>)
    requires Wide(e, w) && s == [] && IsPath(s, w)
    ensures Cost(e, w, s) == 0.0
  {
  }

  /** Down to row n the traced path costs exactly what the table records where it arrives. */
  lemma {:induction false} TraceCost(e: Grid<real>, w: nat, s: seq<int>, n: nat)
    requires Wide(e, w) && w > 0 && Carvable(|e|, w) && n < |e|
    requires IsPath(s, w) && s == Seam(e, w)
    ensures IsPath(s[..n + 1], w)
    ensures Cost(e, w, s[..n + 1]) == Table(e, w)[n][s[n]]
  {
    hide Relax, Lo, Hi, IsPath, Cost;
    PrefixCost(e, w, s, n);
    if n == 0 {
      EmptyCost(e, w, s[..0]);
    } else {
      TraceCost(e, w, s, n - 1);
      StepFollowsRelax(Row(e, w, n - 1), s[n]);
      assert s[n - 1] == Trace(Table(e, w), w, n - 1);
    }
  }

  /** The traceback starts from the least cell of the last row of the table. */
  lemma SeamEndsAtLeast(e: Grid<real>, w: nat, d: nat)
    requires Wide(e, w) && d < w && Carvable(|e|, w) && |e| > 0
    ensures var s, n := Seam(e, w), |e| - 1; 0 <= s[n] < w && Table(e, w)[n][s[n]] <= Table(e, w)[n][d]
  {
    var t, n := Table(e, w), |e| - 1;
    assert TraceAll(t, w)[n] == Trace(t, w, n) == FirstMin(t[n]);
    hide Table, Trace, FirstMin;
  }

  lemma SeamIsPath(e: Grid<real>, w: nat)
    requires Wide(e, w) && w > 0 && Carvable(|e|, w) && |e| > 0
    ensures var s, n := Seam(e, w), |e| - 1; IsPath(s, w) && 0 <= s[n] < w && |Table(e, w)[n]| == w && s[..n + 1] == s
  {
    TraceIsPath(Table(e, w), w);
    hide TraceAll, Table;
  }

  lemma SeamCostsLastCell(e: Grid<real>, w: nat)
    requires Wide(e, w) && w > 0 && Carvable(|e|, w) && |e| > 0
    ensures var s, n := Seam(e, w), |e| - 1;
      IsPath(s, w) && 0 <= s[n] < w && |Table(e, w)[n]| == w && Cost(e, w, s) == Table(e, w)[n][s[n]]
  {
    hide *;
    SeamIsPath(e, w);
    TraceCost(e, w, Seam(e, w), |e| - 1);
  }

  lemma SeamIsCheapest(e: Grid<real>, w: nat, p: seq<int>)
    requires Wide(e, w) && w > 0 && Carvable(|e|, w) && |p| == |e| > 0 && IsPath(p, w)
    ensures IsPath(Seam(e, w), w) && Cost(e, w, Seam(e, w)) <= Cost(e, w, p)
  {
    var n := |e| - 1;
    assert 0 <= p[n] < w;
    hide Trace, Cost, Row, TraceAll, Seam, FirstMin, IsPath;
    RowIsLowerBound(e, w, p);
    SeamEndsAtLeast(e, w, p[n]);
    SeamCostsLastCell(e, w);
  }

  /** The traced seam is optimal among all connected seams. */
  lemma SeamIsOptimal(e: Grid<real>, w: nat)
    requires Wide(e, w) && w > 0 && Carvable(|e|, w)
    ensures IsOptimalSeam(e, w, Seam(e, w))
  {
    hide Trace, Cost, Row, IsPath;
    TraceIsPath(Table(e, w), w);
    if |e| > 0 {
      forall p | |p| == |e| && IsPath(p, w) ensures Cost(e, w, Seam(e, w)) <= Cost(e, w, p) {
        SeamIsCheapest(e, w, p);
      }
    }
  }

  /** The cells of row r from column lo up to, not including, column hi. */
  function RowSlice(t: array2<real>, r: nat, lo: nat, hi: nat): (s: seq<real>)
    requires r < t.Length0 && lo <= hi <= t.Length1
    reads t
    ensures s == Of(t)[r][lo..hi]
  {
    var s := seq(hi - lo, j requires 0 <= j < hi - lo reads t => t[r, lo + j]);
    assert s == Of(t)[r][lo..hi];
    s
  }

  /** The cells of column c from row lo up to, not including, row hi. */
  function ColumnSlice(t: array2<real>, c: nat, lo: nat, hi: nat): (s: seq<real>)
    requires c < t.Length1 && lo <= hi <= t.Length0
    reads t
    ensures s == Transpose(Of(t), t.Length1)[c][lo..hi]
  {
    var s := seq(hi - lo, i requires 0 <= i < hi - lo reads t => t[lo + i, c]);
    assert s == Transpose(Of(t), t.Length1)[c][lo..hi];
    s
  }

  /** The step that the loops take from the column below, with the whole last row at the start. */
  lemma TraceEquation(t: Grid<real>, w: nat, r: nat)
    requires Wide(t, w) && r < |t| && w > 0 && Carvable(|t|, w)
    ensures |t[r]| == w
    ensures r == |t| - 1 ==> t[r][0..w] == t[r] && Trace(t, w, r) == FirstMin(t[r])
    ensures r < |t| - 1 ==>
      var c := Trace(t, w, r + 1); Trace(t, w, r) == Lo(c) + FirstMin(t[r][Lo(c)..Hi(c, w)])
  {
    hide FirstMin;
  }

  method FindVerticalSeam(t: array2<real>) returns (seam: array<int>)
    requires t.Length1 > 0 && Carvable(t.Length0, t.Length1)
    ensures seam[..] == TraceAll(Of(t), t.Length1)
  {
    hide FirstMin, RowSlice, Of, Trace;
    var h, w := t.Length0, t.Length1;
    seam := new int[h](_ => 0);
    ghost var g := Of(t);
    for r := h downto 0
      invariant forall i :: r <= i < h ==> seam[i] == Trace(g, w, i)
    {
      TraceEquation(g, w, r);
      if r == h - 1 {
        seam[r] := FirstMin(RowSlice(t, r, 0, w));
      } else {
        var next, i := seam[r + 1], 0;
        if next == 0 {
          i := FirstMin(RowSlice(t, r, 0, 2));
        } else if next == w - 1 {
          i := FirstMin(RowSlice(t, r, w - 2, w)) - 1;
        } else {
          i := FirstMin(RowSlice(t, r, next - 1, next + 2)) - 1;
        }
        seam[r] := next + i;
      }
    }
  }

  method FindHorizontalSeam(t: array2<real>) returns (seam: array<int>)
    requires t.Length0 > 0 && Carvable(t.Length1, t.Length0)
    ensures seam[..] == TraceAll(Transpose(Of(t), t.Length1), t.Length0)
  {
    hide FirstMin, ColumnSlice, Transpose, Of, Trace;
    var h, w := t.Length0, t.Length1;
    seam := new int[w](_ => 0);
    ghost var g := Transpose(Of(t), w);
    for c := w downto 0
      invariant forall i :: c <= i < w ==> seam[i] == Trace(g, h, i)
    {
      TraceEquation(g, h, c);
      if c == w - 1 {
        seam[c] := FirstMin(ColumnSlice(t, c, 0, h));
      } else {
        var next, i := seam[c + 1], 0;
        if next == 0 {
          i := FirstMin(ColumnSlice(t, c, 0, 2));
        } else if next == h - 1 {
          i := FirstMin(ColumnSlice(t, c, h - 2, h)) - 1;
        } else {
          i := FirstMin(ColumnSlice(t, c, next - 1, next + 2)) - 1;
        }
        seam[c] := next + i;
      }
    }
  }
}
