/** Removing one optimal seam from the colour image and the energy image together. */
module SeamRemoval {
  import opened Builtins
  import opened Grids
  import opened SeamTable
  import opened SeamTrace

  ghost function Drop<T>(row: seq<T>, c: nat): (d: seq<T>)
    requires c < |row|
    ensures |d| == |row| - 1
    ensures forall j :: 0 <= j < |d| ==> d[j] == if j < c then row[j] else row[j + 1]
  {
    row[..c] + row[c + 1..]
  }

  ghost predicate Inside(s: seq<int>, w: nat) {
    forall r :: 0 <= r < |s| ==> 0 <= s[r] < w
  }

  /** g without the cell of column s[r] in each row r. */
  ghost function RemoveSeam<T>(g: Grid<T>, w: nat, s: seq<int>): (d: Grid<T>)
    requires Wide(g, w) && |s| == |g| && Inside(s, w) && w > 0
    ensures |d| == |g| && Wide(d, w - 1)
    ensures forall r, j :: 0 <= r < |g| && 0 <= j < w - 1 ==> d[r][j] == if j < s[r] then g[r][j] else g[r][j + 1]
  {
    seq(|g|, r requires 0 <= r < |g| => Drop(g[r], s[r]))
  }

  lemma {:induction false} SumDrop(row: seq<real>, c: nat)
    requires c < |row|
    ensures Sum(Drop(row, c)) == Sum(row) - row[c]
  {
    var n, d := |row| - 1, Drop(row, c);
    if c == n {
      assert d == row[..n];
    } else {
      SumDrop(row[..n], c);
      assert d[..n - 1] == Drop(row[..n], c);
      assert d[n - 1] == row[n];
    }
  }

  /** Removing a seam removes exactly its cost. */
  lemma {:induction false} TotalRemoveSeam(e: Grid<real>, w: nat, s: seq<int>)
    requires Wide(e, w) && |s| == |e| && IsPath(s, w) && w > 0
    ensures Total(RemoveSeam(e, w, s)) == Total(e) - Cost(e, w, s)
  {
    var d := RemoveSeam(e, w, s);
    if e != [] {
      var n := |e| - 1;
      PrefixIsPath(s, w, n);
      hide IsPath, Sum;
      TotalRemoveSeam(e[..n], w, s[..n]);
      assert d[..n] == RemoveSeam(e[..n], w, s[..n]);
      CostOfPrefix(e, w, s[..n], n);
      SumDrop(e[n], s[n]);
    }
  }

  lemma {:induction false} CostOfPrefix(e: Grid<real>, w: nat, s: seq<int>, n: nat)
    requires Wide(e, w) && IsPath(s, w) && |s| <= n <= |e|
    ensures Cost(e[..n], w, s) == Cost(e, w, s)
  {
    if s != [] {
      PrefixIsPath(s, w, |s| - 1);
      CostOfPrefix(e, w, s[..|s| - 1], n);
    }
  }

  datatype Axis = Width | Height

  /** The sizes at which one more reduction along the axis stays inside the image. */
  predicate Reducible(h: nat, w: nat, axis: Axis) {
    match axis
    case Width => w > 0 && Carvable(h, w)
    case Height => h > 0 && Carvable(w, h)
  }

  /** The seam that a reduction of the energies e removes; a horizontal seam is a seam of the transpose. */
  ghost function ChosenSeam(e: Grid<real>, w: nat, axis: Axis): (s: seq<int>)
    requires Wide(e, w) && Reducible(|e|, w, axis)
    ensures axis.Width? ==> |s| == |e| && Inside(s, w)
    ensures axis.Height? ==> |s| == w && Inside(s, |e|)
  {
    match axis
    case Width =>
      TraceIsPath(Table(e, w), w);
      Seam(e, w)
    case Height =>
      var t := Transpose(e, w);
      TraceIsPath(Table(t, |e|), |e|);
      Seam(t, |e|)
  }

  /** A grid of the same size as the energies e, reduced along the seam that e chooses. */
  ghost function Reduce<T>(e: Grid<real>, g: Grid<T>, w: nat, axis: Axis): (d: Grid<T>)
    requires Wide(e, w) && Wide(g, w) && |g| == |e| && Reducible(|e|, w, axis)
    ensures axis.Width? ==> |d| == |e| && Wide(d, w - 1)
    ensures axis.Height? ==> |d| == |e| - 1 && Wide(d, w)
  {
    var s := ChosenSeam(e, w, axis);
    match axis
    case Width => RemoveSeam(g, w, s)
    case Height => Transpose(RemoveSeam(Transpose(g, w), |e|, s), |e| - 1)
  }

  /** What the cells of a connected horizontal seam cost: p[c] is the row in column c. */
  ghost function HorizontalCost(e: Grid<real>, w: nat, p: seq<int>): real
    requires Wide(e, w) && |p| <= w && IsPath(p, |e|)
  {
    if p == [] then 0.0
    else HorizontalCost(e, w, p[..|p| - 1]) + e[p[|p| - 1]][|p| - 1]
  }

  lemma {:induction false} HorizontalCostIsTransposed(e: Grid<real>, w: nat, p: seq<int>)
    requires Wide(e, w) && |p| <= w && IsPath(p, |e|)
    ensures HorizontalCost(e, w, p) == Cost(Transpose(e, w), |e|, p)
  {
    if p != [] {
      PrefixIsPath(p, |e|, |p| - 1);
      HorizontalCostIsTransposed(e, w, p[..|p| - 1]);
    }
  }

  /** s is a connected seam across the axis, and v is its cost, which no other such seam undercuts. */
  ghost predicate IsMinimumSeam(e: Grid<real>, w: nat, axis: Axis, s: seq<int>, v: real)
    requires Wide(e, w)
  {
    match axis
    case Width =>
      && |s| == |e| && IsPath(s, w) && Cost(e, w, s) == v
      && forall p :: |p| == |e| && IsPath(p, w) ==> v <= Cost(e, w, p)
    case Height =>
      && |s| == w && IsPath(s, |e|) && HorizontalCost(e, w, s) == v
      && forall p :: |p| == w && IsPath(p, |e|) ==> v <= HorizontalCost(e, w, p)
  }

  /** The cost of the cells that the reduction removes. */
  ghost function SeamCost(e: Grid<real>, w: nat, axis: Axis): real
    requires Wide(e, w) && Reducible(|e|, w, axis)
  {
    Total(e) - Total(Reduce(e, e, w, axis))
  }

  lemma {:induction false} WidthCost(e: Grid<real>, w: nat)
    requires Wide(e, w) && Reducible(|e|, w, Width)
    ensures ChosenSeam(e, w, Width) == Seam(e, w) && IsPath(Seam(e, w), w)
    ensures SeamCost(e, w, Width) == Cost(e, w, Seam(e, w))
  {
    var s := Seam(e, w);
    TraceIsPath(Table(e, w), w);
    hide Seam, IsPath, Cost, Total;
    TotalRemoveSeam(e, w, s);
  }

  lemma {:induction false} HeightCost(e: Grid<real>, w: nat)
    requires Wide(e, w) && Reducible(|e|, w, Height)
    ensures IsPath(ChosenSeam(e, w, Height), |e|)
    ensures SeamCost(e, w, Height) == Cost(Transpose(e, w), |e|, ChosenSeam(e, w, Height))
  {
    var t, s := Transpose(e, w), ChosenSeam(e, w, Height);
    TraceIsPath(Table(t, |e|), |e|);
    hide Trace, Table, Sum, IsPath, Cost;
    TotalRemoveSeam(t, |e|, s);
    TotalTranspose(e, w);
    TotalTranspose(RemoveSeam(t, |e|, s), |e| - 1);
  }

  lemma OptimalTransposed(e: Grid<real>, w: nat, s: seq<int>)
    requires Wide(e, w) && IsOptimalSeam(Transpose(e, w), |e|, s)
    ensures IsMinimumSeam(e, w, Height, s, Cost(Transpose(e, w), |e|, s))
  {
    hide Cost, HorizontalCost, IsPath, Transpose;
    HorizontalCostIsTransposed(e, w, s);
    forall p | |p| == w && IsPath(p, |e|)
      ensures Cost(Transpose(e, w), |e|, s) <= HorizontalCost(e, w, p)
    {
      HorizontalCostIsTransposed(e, w, p);
    }
  }

  /** A reduction lowers the total energy by the cost of a minimum seam across its axis, and removes that seam. */
  lemma {:induction false} ReductionRemovesMinimumSeam(e: Grid<real>, w: nat, axis: Axis)
    requires Wide(e, w) && Reducible(|e|, w, axis)
    ensures IsMinimumSeam(e, w, axis, ChosenSeam(e, w, axis), SeamCost(e, w, axis))
  {
    hide SeamCost, Cost, HorizontalCost, IsPath, Seam, Transpose;
    match axis
    case Width =>
      SeamIsOptimal(e, w);
      WidthCost(e, w);
    case Height =>
      SeamIsOptimal(Transpose(e, w), |e|);
      HeightCost(e, w);
      OptimalTransposed(e, w, ChosenSeam(e, w, axis));
  }

  /**
   * d holds the cells of g without the seam s, as far as their origin precedes (r, c) row by row; the
   * second form is the same column by column.
   */
  ghost predicate CopiedRows<T>(d: array2<T>, g: array2<T>, s: seq<int>, r: nat, c: nat)
    requires d.Length0 == g.Length0 == |s| && d.Length1 == g.Length1 - 1
    reads d, g
  {
    forall i, j {:trigger d[i, j]} :: 0 <= i < d.Length0 && 0 <= j < d.Length1 ==>
      var j' := if j < s[i] then j else j + 1;
      (i < r || (i == r && j' < c)) ==> d[i, j] == g[i, j']
  }

  ghost predicate CopiedColumns<T>(d: array2<T>, g: array2<T>, s: seq<int>, r: nat, c: nat)
    requires d.Length0 == g.Length0 - 1 && d.Length1 == g.Length1 == |s|
    reads d, g
  {
    forall i, j {:trigger d[i, j]} :: 0 <= i < d.Length0 && 0 <= j < d.Length1 ==>
      var i' := if i < s[j] then i else i + 1;
      (j < c || (j == c && i' < r)) ==> d[i, j] == g[i', j]
  }

  lemma InsideAt(s: seq<int>, w: nat, r: nat)
    requires Inside(s, w) && r < |s|
    ensures 0 <= s[r] < w
  {
  }

  lemma NoRowCopied<T>(d: array2<T>, g: array2<T>, s: seq<int>)
    requires d.Length0 == g.Length0 == |s| && d.Length1 == g.Length1 - 1 && Inside(s, g.Length1)
    ensures CopiedRows(d, g, s, 0, 0)
  {
  }

  lemma NoColumnCopied<T>(d: array2<T>, g: array2<T>, s: seq<int>)
    requires d.Length0 == g.Length0 - 1 && d.Length1 == g.Length1 == |s| && Inside(s, g.Length0)
    ensures CopiedColumns(d, g, s, 0, 0)
  {
  }

  method PutInRow<T>(d: array2<T>, g: array2<T>, ghost s: seq<int>, r: nat, c: nat, k: nat)
    requires d != g && d.Length0 == g.Length0 == |s| && d.Length1 == g.Length1 - 1 && Inside(s, g.Length1)
    requires r < g.Length0 && c < g.Length1 && c != s[r] && k == (if c < s[r] then c else c - 1)
    requires CopiedRows(d, g, s, r, c)
    modifies d
    ensures CopiedRows(d, g, s, r, c + 1)
  {
    d[r, k] := g[r, c];
  }

  lemma SkipInRow<T>(d: array2<T>, g: array2<T>, s: seq<int>, r: nat, c: nat)
    requires d.Length0 == g.Length0 == |s| && d.Length1 == g.Length1 - 1
    requires CopiedRows(d, g, s, r, c)
    ensures r < |s| && c == s[r] ==> CopiedRows(d, g, s, r, c + 1)
    ensures c == g.Length1 ==> CopiedRows(d, g, s, r + 1, 0)
  {
  }

  method PutInColumn<T>(d: array2<T>, g: array2<T>, ghost s: seq<int>, r: nat, c: nat, k: nat)
    requires d != g && d.Length0 == g.Length0 - 1 && d.Length1 == g.Length1 == |s| && Inside(s, g.Length0)
    requires r < g.Length0 && c < g.Length1 && r != s[c] && k == (if r < s[c] then r else r - 1)
    requires CopiedColumns(d, g, s, r, c)
    modifies d
    ensures CopiedColumns(d, g, s, r + 1, c)
  {
    d[k, c] := g[r, c];
  }

  lemma SkipInColumn<T>(d: array2<T>, g: array2<T>, s: seq<int>, r: nat, c: nat)
    requires d.Length0 == g.Length0 - 1 && d.Length1 == g.Length1 == |s|
    requires CopiedColumns(d, g, s, r, c)
    ensures c < |s| && r == s[c] ==> CopiedColumns(d, g, s, r + 1, c)
    ensures r == g.Length0 ==> CopiedColumns(d, g, s, 0, c + 1)
  {
  }

  /** Fills the map and traces the seam back, in either direction. */
  method VerticalSeamOf(energy: array2<real>) returns (seam: array<int>)
    requires Reducible(energy.Length0, energy.Length1, Width)
    ensures seam[..] == ChosenSeam(Of(energy), energy.Length1, Width) && seam.Length == energy.Length0
    ensures Inside(seam[..], energy.Length1) && energy.Length1 > 0
  {
    var table := CumulativeMinEnergyMap(energy, VERTICAL);
    seam := FindVerticalSeam(table);
    hide Table, TraceAll;
  }

  method HorizontalSeamOf(energy: array2<real>) returns (seam: array<int>)
    requires Reducible(energy.Length0, energy.Length1, Height)
    ensures seam[..] == ChosenSeam(Of(energy), energy.Length1, Height) && seam.Length == energy.Length1
    ensures Inside(seam[..], energy.Length0) && energy.Length0 > 0
  {
    var table := CumulativeMinEnergyMap(energy, HORIZONTAL);
    seam := FindHorizontalSeam(table);
    hide Table, TraceAll;
  }

  /** Copies every cell except the seam's, shifting the cells right of it one column to the left. */
  method DecreaseWidth<C(0)>(im: array2<C>, energy: array2<real>)
    returns (reducedIm: array2<C>, reducedEnergy: array2<real>)
    requires im.Length0 == energy.Length0 && im.Length1 == energy.Length1
    requires Reducible(energy.Length0, energy.Length1, Width)
    ensures reducedIm.Length0 == reducedEnergy.Length0 == im.Length0
    ensures reducedIm.Length1 == reducedEnergy.Length1 == im.Length1 - 1
    ensures Of(reducedIm) == Reduce(Of(energy), Of(im), im.Length1, Width)
    ensures Of(reducedEnergy) == Reduce(Of(energy), Of(energy), im.Length1, Width)
  {
    hide *;
    var h, w := im.Length0, im.Length1;
    var seam := VerticalSeamOf(energy);
    ghost var s := seam[..];
    reducedIm := new C[h, w - 1];
    reducedEnergy := new real[h, w - 1]((_, _) => 0.0);
    NoRowCopied(reducedIm, im, s);
    NoRowCopied(reducedEnergy, energy, s);
    for r := 0 to h
      invariant seam[..] == s
      invariant CopiedRows(reducedIm, im, s, r, 0)
      invariant CopiedRows(reducedEnergy, energy, s, r, 0)
    {
      for c := 0 to w
        invariant seam[..] == s
        invariant CopiedRows(reducedIm, im, s, r, c)
        invariant CopiedRows(reducedEnergy, energy, s, r, c)
      {
        assert seam[r] == seam[..][r];
        InsideAt(s, w, r);
        if c < seam[r] {
          PutInRow(reducedIm, im, s, r, c, c);
          PutInRow(reducedEnergy, energy, s, r, c, c);
        } else if c > seam[r] {
          PutInRow(reducedIm, im, s, r, c, c - 1);
          PutInRow(reducedEnergy, energy, s, r, c, c - 1);
        } else {
          SkipInRow(reducedIm, im, s, r, c);
          SkipInRow(reducedEnergy, energy, s, r, c);
        }
      }
      SkipInRow(reducedIm, im, s, r, w);
      SkipInRow(reducedEnergy, energy, s, r, w);
    }
    RemovedWidth(energy, im, reducedIm);
    RemovedWidth(energy, energy, reducedEnergy);
  }

  lemma RemovedWidth<C>(energy: array2<real>, g: array2<C>, d: array2<C>)
    requires g.Length0 == energy.Length0 && g.Length1 == energy.Length1
    requires Reducible(energy.Length0, energy.Length1, Width)
    requires d.Length0 == g.Length0 && d.Length1 == g.Length1 - 1
    requires CopiedRows(d, g, ChosenSeam(Of(energy), g.Length1, Width), g.Length0, 0)
    ensures Of(d) == Reduce(Of(energy), Of(g), g.Length1, Width)
  {
    hide ChosenSeam;
    SameGrid(Of(d), Reduce(Of(energy), Of(g), g.Length1, Width), d.Length1);
  }

  /** The same along the other axis: cells below the seam move one row up. */
  method DecreaseHeight<C(0)>(im: array2<C>, energy: array2<real>)
    returns (reducedIm: array2<C>, reducedEnergy: array2<real>)
    requires im.Length0 == energy.Length0 && im.Length1 == energy.Length1
    requires Reducible(energy.Length0, energy.Length1, Height)
    ensures reducedIm.Length0 == reducedEnergy.Length0 == im.Length0 - 1
    ensures reducedIm.Length1 == reducedEnergy.Length1 == im.Length1
    ensures Of(reducedIm) == Reduce(Of(energy), Of(im), im.Length1, Height)
    ensures Of(reducedEnergy) == Reduce(Of(energy), Of(energy), im.Length1, Height)
  {
    hide *;
    var h, w := im.Length0, im.Length1;
    var seam := HorizontalSeamOf(energy);
    ghost var s := seam[..];
    reducedIm := new C[h - 1, w];
    reducedEnergy := new real[h - 1, w]((_, _) => 0.0);
    NoColumnCopied(reducedIm, im, s);
    NoColumnCopied(reducedEnergy, energy, s);
    for c := 0 to w
      invariant seam[..] == s
      invariant CopiedColumns(reducedIm, im, s, 0, c)
      invariant CopiedColumns(reducedEnergy, energy, s, 0, c)
    {
      for r := 0 to h
        invariant seam[..] == s
        invariant CopiedColumns(reducedIm, im, s, r, c)
        invariant CopiedColumns(reducedEnergy, energy, s, r, c)
      {
        assert seam[c] == seam[..][c];
        InsideAt(s, h, c);
        if r < seam[c] {
          PutInColumn(reducedIm, im, s, r, c, r);
          PutInColumn(reducedEnergy, energy, s, r, c, r);
        } else if r > seam[c] {
          PutInColumn(reducedIm, im, s, r, c, r - 1);
          PutInColumn(reducedEnergy, energy, s, r, c, r - 1);
        } else {
          SkipInColumn(reducedIm, im, s, r, c);
          SkipInColumn(reducedEnergy, energy, s, r, c);
        }
      }
      SkipInColumn(reducedIm, im, s, h, c);
      SkipInColumn(reducedEnergy, energy, s, h, c);
    }
    RemovedHeight(energy, im, reducedIm);
    RemovedHeight(energy, energy, reducedEnergy);
  }

  lemma RemovedHeight<C>(energy: array2<real>, g: array2<C>, d: array2<C>)
    requires g.Length0 == energy.Length0 && g.Length1 == energy.Length1
    requires Reducible(energy.Length0, energy.Length1, Height)
    requires d.Length0 == g.Length0 - 1 && d.Length1 == g.Length1
    requires CopiedColumns(d, g, ChosenSeam(Of(energy), g.Length1, Height), 0, g.Length1)
    ensures Of(d) == Reduce(Of(energy), Of(g), g.Length1, Height)
  {
    hide ChosenSeam;
    SameGrid(Of(d), Reduce(Of(energy), Of(g), g.Length1, Height), d.Length1);
  }
}
