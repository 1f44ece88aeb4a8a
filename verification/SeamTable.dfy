/** The cumulative minimum energy map and what its cells mean. */
module SeamTable {
  import opened Grids

  /** A connected path down the rows of a grid of width w: p[r] is the column in row r. */
  ghost predicate IsPath(p: seq<int>, w: nat) {
    && (forall r :: 0 <= r < |p| ==> 0 <= p[r] < w)
    && (forall r, q :: 0 <= q < r < |p| && r == q + 1 ==> -1 <= p[r] - p[q] <= 1)
  }

  ghost function Cost(e: Grid<real>, w: nat, p: seq<int>): real
    requires Wide(e, w) && |p| <= |e| && IsPath(p, w)
  {
    if p == [] then 0.0
    else Cost(e, w, p[..|p| - 1]) + e[|p| - 1][p[|p| - 1]]
  }

  ghost predicate PathTo(p: seq<int>, w: nat, r: nat, c: nat) {
    |p| == r + 1 && IsPath(p, w) && p[r] == c
  }

  /** v is the least cost of a connected path from the first row to cell (r, c). */
  ghost predicate IsLeastCost(e: Grid<real>, w: nat, r: nat, c: nat, v: real)
    requires Wide(e, w) && r < |e| && c < w
  {
    && (forall p :: PathTo(p, w, r, c) ==> v <= Cost(e, w, p))
    && (exists p :: PathTo(p, w, r, c) && Cost(e, w, p) == v)
  }

  function Min(a: real, b: real): real {
    if b < a then b else a
  }

  /** Sizes on which the neighbour lookups of a table with rows of width w stay inside the image. */
  predicate Carvable(h: nat, w: nat) {
    h <= 1 || w != 1
  }

  /** The least of the cells of prev that are at most one column away from c, in the code's three cases. */
  ghost function Relax(prev: seq<real>, c: nat): (v: real)
    requires 2 <= |prev| && c < |prev|
  {
    if c == 0 then Min(prev[c], prev[c + 1])
    else if c == |prev| - 1 then Min(prev[c], prev[c - 1])
    else Min(Min(prev[c - 1], prev[c]), prev[c + 1])
  }

  lemma RelaxIsLeast(prev: seq<real>, c: nat, d: nat)
    requires 2 <= |prev| && c < |prev| && d < |prev| && -1 <= d - c <= 1
    ensures Relax(prev, c) <= prev[d]
  {
  }

  lemma RelaxIsAttained(prev: seq<real>, c: nat) returns (d: nat)
    requires 2 <= |prev| && c < |prev|
    ensures d < |prev| && -1 <= d - c <= 1 && Relax(prev, c) == prev[d]
  {
    d := c;
    if c > 0 && prev[c - 1] < prev[d] { d := c - 1; }
    if c + 1 < |prev| && prev[c + 1] < prev[d] { d := c + 1; }
  }

  /** Row r of the vertical table, by the recurrence over the row above. */
  ghost function Row(e: Grid<real>, w: nat, r: nat): (row: seq<real>)
    requires Wide(e, w) && r < |e| && Carvable(|e|, w)
    ensures |row| == w
  {
    if r == 0 || w == 0 then e[r]
    else
      var prev := Row(e, w, r - 1);
      seq(w, c requires 0 <= c < w => Relax(prev, c) + e[r][c])
  }

  lemma {:induction false} RowIsLowerBound(e: Grid<real>, w: nat, p: seq<int>)
    requires Wide(e, w) && 1 <= |p| <= |e| && IsPath(p, w) && Carvable(|e|, w)
    ensures Row(e, w, |p| - 1)[p[|p| - 1]] <= Cost(e, w, p)
  {
    hide Relax;
    var n := |p| - 1;
    if n > 0 {
      RowIsLowerBound(e, w, p[..n]);
      RelaxIsLeast(Row(e, w, n - 1), p[n], p[n - 1]);
    } else {
      assert Cost(e, w, p[..0]) == 0.0;
    }
  }

  lemma PathOfOne(e: Grid<real>, w: nat, c: nat)
    requires Wide(e, w) && 1 <= |e| && c < w
    ensures PathTo([c], w, 0, c) && Cost(e, w, [c]) == e[0][c]
  {
    assert [c][..0] == [] && Cost(e, w, [c][..0]) == 0.0;
  }

  lemma ExtendIsPath(w: nat, q: seq<int>, c: nat)
    requires 1 <= |q| && IsPath(q, w)
    requires c < w && -1 <= c - q[|q| - 1] <= 1
    ensures IsPath(q + [c], w)
  {
  }

  lemma ExtendPath(e: Grid<real>, w: nat, q: seq<int>, c: nat)
    requires Wide(e, w) && 1 <= |q| < |e| && IsPath(q, w)
    requires c < w && -1 <= c - q[|q| - 1] <= 1
    ensures PathTo(q + [c], w, |q|, c) && Cost(e, w, q + [c]) == Cost(e, w, q) + e[|q|][c]
  {
    hide IsPath;
    ExtendIsPath(w, q, c);
    var p := q + [c];
    assert p[..|p| - 1] == q && p[|p| - 1] == c;
  }

  lemma {:induction false} RowIsAttained(e: Grid<real>, w: nat, r: nat, c: nat) returns (p: seq<int>)
    requires Wide(e, w) && r < |e| && c < w && Carvable(|e|, w)
    ensures PathTo(p, w, r, c) && Cost(e, w, p) == Row(e, w, r)[c]
  {
    hide Cost, IsPath, Relax;
    if r == 0 {
      p := [c];
      PathOfOne(e, w, c);
    } else {
      var prev := Row(e, w, r - 1);
      var d := RelaxIsAttained(prev, c);
      var q := RowIsAttained(e, w, r - 1, d);
      ExtendPath(e, w, q, c);
      p := q + [c];
    }
  }

  /** The vertical table of an energy grid, as a value. */
  ghost function Table(e: Grid<real>, w: nat): (t: Grid<real>)
    requires Wide(e, w) && Carvable(|e|, w)
    ensures |t| == |e| && Wide(t, w)
    ensures forall r :: 0 <= r < |e| ==> t[r] == Row(e, w, r)
  {
    seq(|e|, r requires 0 <= r < |e| => Row(e, w, r))
  }

  /** Each cell of the table is the least cost of a path that reaches it from the first row. */
  lemma TableIsLeastCost(e: Grid<real>, w: nat, r: nat, c: nat)
    requires Wide(e, w) && Carvable(|e|, w) && r < |e| && c < w
    ensures IsLeastCost(e, w, r, c, Table(e, w)[r][c])
  {
    var q := RowIsAttained(e, w, r, c);
    forall p | PathTo(p, w, r, c) ensures Row(e, w, r)[c] <= Cost(e, w, p) {
      RowIsLowerBound(e, w, p);
    }
  }

  lemma {:induction false} MapIsTable(m: array2<real>, e: Grid<real>)
    requires m.Length0 == |e| && Wide(e, m.Length1) && Carvable(|e|, m.Length1)
    requires forall i, j :: 0 <= i < |e| && 0 <= j < m.Length1 ==> m[i, j] == Row(e, m.Length1, i)[j]
    ensures Of(m) == Table(e, m.Length1)
  {
    SameGrid(Of(m), Table(e, m.Length1), m.Length1);
  }

  lemma MapIsTransposedTable(m: array2<real>, e: Grid<real>)
    requires m.Length1 == |e| && Wide(e, m.Length0) && Carvable(|e|, m.Length0)
    requires forall i, j :: 0 <= i < m.Length0 && 0 <= j < |e| ==> m[i, j] == Row(e, m.Length0, j)[i]
    ensures Transpose(Of(m), m.Length1) == Table(e, m.Length0)
  {
    SameGrid(Transpose(Of(m), m.Length1), Table(e, m.Length0), m.Length0);
  }

  /** The value that the vertical branch must store at (r, c), in terms of the row it has stored above. */
  lemma VerticalCell(energy: array2<real>, e: Grid<real>, m: array2<real>, r: nat, c: nat)
    requires e == Of(energy) && m.Length0 == energy.Length0 && m.Length1 == energy.Length1
    requires r < |e| && c < m.Length1 && Carvable(|e|, m.Length1)
    requires forall i, j {:trigger m[i, j]} :: 0 <= i < r && 0 <= j < m.Length1 ==> m[i, j] == Row(e, m.Length1, i)[j]
    ensures r > 0 ==> m.Length1 != 1
    ensures Row(e, m.Length1, r)[c] ==
      if r == 0 then energy[r, c]
      else if c == 0 then Min(m[r - 1, c], m[r - 1, c + 1]) + energy[r, c]
      else if c == m.Length1 - 1 then Min(m[r - 1, c], m[r - 1, c - 1]) + energy[r, c]
      else Min(Min(m[r - 1, c - 1], m[r - 1, c]), m[r - 1, c + 1]) + energy[r, c]
  {
  }

  /** The value that the horizontal branch must store at (r, c), in terms of the column to its left. */
  lemma HorizontalCell(energy: array2<real>, e: Grid<real>, m: array2<real>, r: nat, c: nat)
    requires e == Transpose(Of(energy), energy.Length1)
    requires m.Length0 == energy.Length0 && m.Length1 == energy.Length1
    requires r < m.Length0 && c < |e| && Carvable(|e|, m.Length0)
    requires forall i, j {:trigger m[i, j]} :: 0 <= i < m.Length0 && 0 <= j < c ==> m[i, j] == Row(e, m.Length0, j)[i]
    ensures c > 0 ==> m.Length0 != 1
    ensures Row(e, m.Length0, c)[r] ==
      if c == 0 then energy[r, c]
      else if r == 0 then Min(m[r, c - 1], m[r + 1, c - 1]) + energy[r, c]
      else if r == m.Length0 - 1 then Min(m[r - 1, c - 1], m[r, c - 1]) + energy[r, c]
      else Min(Min(m[r - 1, c - 1], m[r, c - 1]), m[r + 1, c - 1]) + energy[r, c]
  {
  }

  const VERTICAL := "VERTICAL"
  const HORIZONTAL := "HORIZONTAL"

  ghost predicate Zero(m: array2<real>)
    reads m
  {
    forall r, c :: 0 <= r < m.Length0 && 0 <= c < m.Length1 ==> m[r, c] == 0.0
  }

  /**
   * Fills the table cell by cell. The horizontal table is the transpose of the vertical table of the
   * transposed energies; any other direction leaves the zeros of the preallocated result.
   */
  method CumulativeMinEnergyMap(energy: array2<real>, direction: string) returns (m: array2<real>)
    requires direction == VERTICAL ==> Carvable(energy.Length0, energy.Length1)
    requires direction == HORIZONTAL ==> Carvable(energy.Length1, energy.Length0)
    ensures m.Length0 == energy.Length0 && m.Length1 == energy.Length1
    ensures direction == VERTICAL ==> Of(m) == Table(Of(energy), energy.Length1)
    ensures direction == HORIZONTAL ==>
      Transpose(Of(m), m.Length1) == Table(Transpose(Of(energy), energy.Length1), energy.Length0)
    ensures direction != VERTICAL && direction != HORIZONTAL ==> Zero(m)
  {
    if direction == HORIZONTAL {
      m := HorizontalMap(energy);
    } else if direction == VERTICAL {
      m := VerticalMap(energy);
    } else {
      m := new real[energy.Length0, energy.Length1]((_, _) => 0.0);
    }
  }

  /** The vertical branch: row by row, each cell from the row above. */
  method VerticalMap(energy: array2<real>) returns (m: array2<real>)
    requires Carvable(energy.Length0, energy.Length1)
    ensures m.Length0 == energy.Length0 && m.Length1 == energy.Length1
    ensures Of(m) == Table(Of(energy), energy.Length1)
  {
    hide *;
    var h, w := energy.Length0, energy.Length1;
    m := new real[h, w]((_, _) => 0.0);
    ghost var e := Of(energy);
    for r := 0 to h
      invariant forall i, j {:trigger m[i, j]} :: 0 <= i < r && 0 <= j < w ==> m[i, j] == Row(e, w, i)[j]
    {
      for c := 0 to w
        invariant forall i, j {:trigger m[i, j]} ::
          0 <= i <= r && 0 <= j < w && (i < r || j < c) ==> m[i, j] == Row(e, w, i)[j]
      {
        VerticalCell(energy, e, m, r, c);
        var v;
        if r == 0 {
          v := energy[r, c];
        } else if c == 0 {
          v := Min(m[r - 1, c], m[r - 1, c + 1]) + energy[r, c];
        } else if c == w - 1 {
          v := Min(m[r - 1, c], m[r - 1, c - 1]) + energy[r, c];
        } else {
          v := Min(Min(m[r - 1, c - 1], m[r - 1, c]), m[r - 1, c + 1]) + energy[r, c];
        }
        m[r, c] := v;
      }
    }
    MapIsTable(m, e);
  }

  /** The horizontal branch: column by column, each cell from the column to its left. */
  method HorizontalMap(energy: array2<real>) returns (m: array2<real>)
    requires Carvable(energy.Length1, energy.Length0)
    ensures m.Length0 == energy.Length0 && m.Length1 == energy.Length1
    ensures Transpose(Of(m), m.Length1) == Table(Transpose(Of(energy), energy.Length1), energy.Length0)
  {
    hide *;
    var h, w := energy.Length0, energy.Length1;
    m := new real[h, w]((_, _) => 0.0);
    ghost var e := Transpose(Of(energy), w);
    for c := 0 to w
      invariant forall i, j {:trigger m[i, j]} :: 0 <= i < h && 0 <= j < c ==> m[i, j] == Row(e, h, j)[i]
    {
      for r := 0 to h
        invariant forall i, j {:trigger m[i, j]} ::
          0 <= i < h && 0 <= j <= c && (j < c || i < r) ==> m[i, j] == Row(e, h, j)[i]
      {
        HorizontalCell(energy, e, m, r, c);
        var v;
        if c == 0 {
          v := energy[r, c];
        } else if r == 0 {
          v := Min(m[r, c - 1], m[r + 1, c - 1]) + energy[r, c];
        } else if r == h - 1 {
          v := Min(m[r - 1, c - 1], m[r, c - 1]) + energy[r, c];
        } else {
          v := Min(Min(m[r - 1, c - 1], m[r, c - 1]), m[r + 1, c - 1]) + energy[r, c];
        }
        m[r, c] := v;
      }
    }
    MapIsTransposedTable(m, e);
  }
}
