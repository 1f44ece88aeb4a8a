/** Rectangular grids as values: the meaning of a two-dimensional array, its transpose and its total. */
module Grids {
  import opened Builtins

  type Grid<T> = seq<seq<T>>

  /** Every row of g has w cells. */
  ghost predicate Wide<T>(g: Grid<T>, w: nat) {
    forall r :: 0 <= r < |g| ==> |g[r]| == w
  }

  ghost function Of<T>(a: array2<T>): (g: Grid<T>)
    reads a
    ensures |g| == a.Length0 && Wide(g, a.Length1)
    ensures forall r, c :: 0 <= r < a.Length0 && 0 <= c < a.Length1 ==> g[r][c] == a[r, c]
  {
    seq(a.Length0, r requires 0 <= r < a.Length0 reads a =>
      seq(a.Length1, c requires 0 <= c < a.Length1 reads a => a[r, c]))
  }

  ghost function Transpose<T>(g: Grid<T>, w: nat): (t: Grid<T>)
    requires Wide(g, w)
    ensures |t| == w && Wide(t, |g|)
    ensures forall r, c :: 0 <= r < w && 0 <= c < |g| ==> t[r][c] == g[c][r]
  {
    seq(w, r requires 0 <= r < w => seq(|g|, c requires 0 <= c < |g| => g[c][r]))
  }

  lemma SameGrid<T>(a: Grid<T>, b: Grid<T>, w: nat)
    requires |a| == |b| && Wide(a, w) && Wide(b, w)
    requires forall r, c :: 0 <= r < |a| && 0 <= c < w ==> a[r][c] == b[r][c]
    ensures a == b
  {
    forall r | 0 <= r < |a| ensures a[r] == b[r] {
      assert |a[r]| == |b[r]| == w;
    }
  }

  ghost function Total(g: Grid<real>): real {
    if g == [] then 0.0 else Total(g[..|g| - 1]) + Sum(g[|g| - 1])
  }

  /** Dropping the last column of every row lowers the total by that column. */
  lemma {:induction false} TotalDropColumn(g: Grid<real>, w: nat)
    requires Wide(g, w + 1)
    ensures Total(g)
         == Total(seq(|g|, r requires 0 <= r < |g| => g[r][..w])) + Sum(seq(|g|, r requires 0 <= r < |g| => g[r][w]))
  {
    var a := seq(|g|, r requires 0 <= r < |g| => g[r][..w]);
    var b := seq(|g|, r requires 0 <= r < |g| => g[r][w]);
    if g != [] {
      var n := |g| - 1;
      var g' := g[..n];
      TotalDropColumn(g', w);
      assert a[..n] == seq(|g'|, r requires 0 <= r < |g'| => g'[r][..w]);
      assert b[..n] == seq(|g'|, r requires 0 <= r < |g'| => g'[r][w]);
      assert g[n][..w] == g[n][..|g[n]| - 1];
    }
  }

  lemma {:induction false} TotalOfEmptyRows(g: Grid<real>)
    requires Wide(g, 0)
    ensures Total(g) == 0.0
  {
    if g != [] {
      TotalOfEmptyRows(g[..|g| - 1]);
    }
  }

  /** Summing by rows or by columns gives the same total. */
  lemma {:induction false} TotalTranspose(g: Grid<real>, w: nat)
    requires Wide(g, w)
    ensures Total(Transpose(g, w)) == Total(g)
    decreases w
  {
    var t := Transpose(g, w);
    if w == 0 {
      TotalOfEmptyRows(g);
    } else {
      TotalDropColumn(g, w - 1);
      var a := seq(|g|, r requires 0 <= r < |g| => g[r][..w - 1]);
      TotalTranspose(a, w - 1);
      SameGrid(t[..w - 1], Transpose(a, w - 1), |g|);
      assert t[w - 1] == seq(|g|, r requires 0 <= r < |g| => g[r][w - 1]);
    }
  }
}
