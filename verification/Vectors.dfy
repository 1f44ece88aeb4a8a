/** Vectors, matrices given by their columns, and squared distances by the expanded formula. */
module Vectors {

  type Vec = seq<real>

  /** A matrix of the given number of rows, column by column. */
  datatype Matrix = Matrix(rows: nat, cols: seq<Vec>)
  {
    ghost predicate Valid() {
      forall j :: 0 <= j < |cols| ==> |cols[j]| == rows
    }
  }

  function Dot(x: Vec, y: Vec): real
    requires |x| == |y|
  {
    if x == [] then 0.0
    else Dot(x[..|x| - 1], y[..|y| - 1]) + x[|x| - 1] * y[|y| - 1]
  }

  function Product(a: real, b: real): real {
    a * b
  }

  lemma ProductSign(a: real, b: real)
    ensures (a > 0.0 && b > 0.0) || (a < 0.0 && b < 0.0) ==> Product(a, b) > 0.0
    ensures a == 0.0 || b == 0.0 ==> Product(a, b) == 0.0
  {
  }

  function Square(d: real): (r: real)
    ensures r >= 0.0 && (d != 0.0 ==> r > 0.0)
  {
    ProductSign(d, d);
    Product(d, d)
  }

  /** The squared Euclidean distance, by definition. */
  function SqDist(x: Vec, y: Vec): (r: real)
    requires |x| == |y|
    ensures r >= 0.0
  {
    if x == [] then 0.0
    else
      SqDist(x[..|x| - 1], y[..|y| - 1]) + Square(x[|x| - 1] - y[|y| - 1])
  }

  /** The expanded formula is the squared distance. */
  lemma {:induction false} ExpandedSqDist(x: Vec, y: Vec)
    requires |x| == |y|
    ensures Dot(x, x) + Dot(y, y) - 2.0 * Dot(x, y) == SqDist(x, y)
  {
    if x != [] {
      ExpandedSqDist(x[..|x| - 1], y[..|y| - 1]);
    }
  }

  lemma {:induction false} DotCommutes(x: Vec, y: Vec)
    requires |x| == |y|
    ensures Dot(x, y) == Dot(y, x)
  {
    if x != [] {
      DotCommutes(x[..|x| - 1], y[..|y| - 1]);
    }
  }

  lemma {:induction false} SqDistZero(x: Vec, y: Vec)
    requires |x| == |y| && SqDist(x, y) == 0.0
    ensures x == y
  {
    if x == [] {
      assert y == [];
    } else {
      var n := |x| - 1;
      SqDistZero(x[..n], y[..n]);
      assert x[n] == y[n];
      assert x == x[..n] + [x[n]] && y == y[..n] + [y[n]];
    }
  }

  function Plus(x: Vec, y: Vec): (z: Vec)
    requires |x| == |y|
    ensures |z| == |x|
  {
    seq(|x|, i requires 0 <= i < |x| => x[i] + y[i])
  }

  function Scale(a: real, x: Vec): (z: Vec)
    ensures |z| == |x|
  {
    seq(|x|, i requires 0 <= i < |x| => a * x[i])
  }

  function Zeros(d: nat): (z: Vec)
    ensures |z| == d
  {
    seq(d, i => 0.0)
  }

  lemma {:induction false} DotPlus(x: Vec, y: Vec, m: Vec)
    requires |x| == |y| == |m|
    ensures Dot(Plus(x, y), m) == Dot(x, m) + Dot(y, m)
  {
    if x != [] {
      var n := |x| - 1;
      DotPlus(x[..n], y[..n], m[..n]);
      assert Plus(x, y)[..n] == Plus(x[..n], y[..n]);
      assert (x[n] + y[n]) * m[n] == x[n] * m[n] + y[n] * m[n];
    }
  }

  lemma ScaleTerm(a: real, s: real, x: real, y: real)
    ensures a * s + (a * x) * y == a * (s + x * y)
  {
    assert (a * x) * y == a * (x * y);
  }

  lemma {:induction false} DotScale(a: real, x: Vec, m: Vec)
    requires |x| == |m|
    ensures Dot(Scale(a, x), m) == Product(a, Dot(x, m))
  {
    if x != [] {
      var n := |x| - 1;
      DotScale(a, x[..n], m[..n]);
      forall i | 0 <= i < n ensures Scale(a, x)[..n][i] == Scale(a, x[..n])[i] {
        assert x[..n][i] == x[i];
      }
      assert Scale(a, x)[..n] == Scale(a, x[..n]);
      ScaleTerm(a, Dot(x[..n], m[..n]), x[n], m[n]);
    }
  }

  lemma {:induction false} DotZeros(d: nat, m: Vec)
    requires |m| == d
    ensures Dot(Zeros(d), m) == 0.0
  {
    if d != 0 {
      DotZeros(d - 1, m[..d - 1]);
      assert Zeros(d)[..d - 1] == Zeros(d - 1);
    }
  }

  /** All-pairs squared distances; fails exactly when the vectors differ in length. */
  method DistSqr(x: Matrix, y: Matrix) returns (ok: bool, z: array2<real>)
    requires x.Valid() && y.Valid()
    ensures ok <==> x.rows == y.rows
    ensures ok ==> z.Length0 == |x.cols| && z.Length1 == |y.cols|
    ensures ok ==> forall i, j :: 0 <= i < |x.cols| && 0 <= j < |y.cols| ==> z[i, j] == SqDist(x.cols[i], y.cols[j])
  {
    if x.rows != y.rows {
      ok, z := false, new real[0, 0];
      return;
    }
    ok := true;
    var n, m := |x.cols|, |y.cols|;
    z := new real[n, m]((i, j) requires 0 <= i < n && 0 <= j < m => Dot(x.cols[i], y.cols[j]));
    var x2 := seq(n, i requires 0 <= i < n => Dot(x.cols[i], x.cols[i]));
    var y2 := seq(m, j requires 0 <= j < m => Dot(y.cols[j], y.cols[j]));
    hide *;
    for j := 0 to m
      invariant forall i, l :: 0 <= i < n && 0 <= l < m ==>
        z[i, l] == if l < j then SqDist(x.cols[i], y.cols[l]) else Dot(x.cols[i], y.cols[l])
    {
      forall i | 0 <= i < n ensures x2[i] + y2[j] - 2.0 * Dot(x.cols[i], y.cols[j]) == SqDist(x.cols[i], y.cols[j]) {
        ExpandedSqDist(x.cols[i], y.cols[j]);
      }
      forall i | 0 <= i < n {
        z[i, j] := x2[i] + y2[j] - 2.0 * z[i, j];
      }
    }
  }
}
