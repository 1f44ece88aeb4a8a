/** Lloyd's iteration in exact arithmetic: the error never rises, and an early stop is a fixed point. */
module KMeans {
  import opened Builtins
  import opened Vectors

  type Points = seq<Vec>

  /** Every point has d coordinates. */
  ghost predicate InSpace(p: Points, d: nat) {
    forall i :: 0 <= i < |p| ==> |p[i]| == d
  }

  ghost function Distances(x: Vec, means: Points): (s: seq<real>)
    requires InSpace(means, |x|)
    ensures |s| == |means|
    ensures forall j :: 0 <= j < |means| ==> s[j] == SqDist(x, means[j])
  {
    seq(|means|, j requires 0 <= j < |means| => SqDist(x, means[j]))
  }

  /** The cluster of the nearest mean, the first one when there are ties. */
  ghost function Nearest(x: Vec, means: Points): (j: nat)
    requires InSpace(means, |x|) && means != []
    ensures j < |means|
    ensures forall l :: 0 <= l < |means| ==> SqDist(x, means[j]) <= SqDist(x, means[l])
  {
    var s := Distances(x, means);
    var j := FirstMin(s);
    assert forall l :: 0 <= l < |means| ==> s[j] <= s[l] && s[l] == SqDist(x, means[l]);
    j
  }

  ghost predicate Labels(mem: seq<nat>, k: nat) {
    forall i :: 0 <= i < |mem| ==> mem[i] < k
  }

  /** The clusters that the membership step assigns. */
  ghost function Assign(data: Points, d: nat, means: Points): (mem: seq<nat>)
    requires InSpace(data, d) && InSpace(means, d) && means != []
    ensures |mem| == |data| && Labels(mem, |means|)
    ensures forall i :: 0 <= i < |data| ==> mem[i] == Nearest(data[i], means)
  {
    seq(|data|, i requires 0 <= i < |data| => Nearest(data[i], means))
  }

  /** The sum of squared distances of the points to the means of their clusters. */
  ghost function Cost(data: Points, d: nat, mem: seq<nat>, means: Points): real
    requires InSpace(data, d) && InSpace(means, d) && |mem| == |data| && Labels(mem, |means|)
  {
    if data == [] then 0.0
    else
      var n := |data| - 1;
      Cost(data[..n], d, mem[..n], means) + SqDist(data[n], means[mem[n]])
  }

  /** The error of a set of means: what the points cost under the nearest-mean assignment. */
  ghost function Error(data: Points, d: nat, means: Points): real
    requires InSpace(data, d) && InSpace(means, d) && means != []
  {
    Cost(data, d, Assign(data, d, means), means)
  }

  /** No assignment is cheaper than the nearest-mean assignment. */
  lemma {:induction false} AssignIsBest(data: Points, d: nat, mem: seq<nat>, means: Points)
    requires InSpace(data, d) && InSpace(means, d) && |mem| == |data| && Labels(mem, |means|) && means != []
    ensures Error(data, d, means) <= Cost(data, d, mem, means)
  {
    if data != [] {
      var n := |data| - 1;
      hide FirstMin, SqDist;
      AssignIsBest(data[..n], d, mem[..n], means);
      assert Assign(data, d, means)[..n] == Assign(data[..n], d, means);
    }
  }

  /** The indices of the points in cluster j, in increasing order. */
  function Members(mem: seq<nat>, j: nat): (ind: seq<nat>)
    ensures forall l :: 0 <= l < |ind| ==> ind[l] < |mem| && mem[ind[l]] == j
    ensures forall i :: 0 <= i < |mem| && mem[i] == j ==> i in ind
  {
    if mem == [] then []
    else
      var n := |mem| - 1;
      var ind := Members(mem[..n], j);
      if mem[n] == j then ind + [n] else ind
  }

  ghost predicate Indices(ind: seq<nat>, n: nat) {
    forall l :: 0 <= l < |ind| ==> ind[l] < n
  }

  function VecSum(data: Points, d: nat, ind: seq<nat>): (s: Vec)
    requires InSpace(data, d) && Indices(ind, |data|)
    ensures |s| == d
  {
    if ind == [] then Zeros(d)
    else Plus(VecSum(data, d, ind[..|ind| - 1]), data[ind[|ind| - 1]])
  }

  function Inverse(n: nat): real
    requires n > 0
  {
    1.0 / n as real
  }

  /** The mean of the listed points, and the zero vector when there are none. */
  function Centroid(data: Points, d: nat, ind: seq<nat>): (c: Vec)
    requires InSpace(data, d) && Indices(ind, |data|)
    ensures |c| == d
  {
    Scale(Inverse(if |ind| > 1 then |ind| else 1), VecSum(data, d, ind))
  }

  ghost function Update(data: Points, d: nat, mem: seq<nat>, k: nat): (means: Points)
    requires InSpace(data, d) && |mem| == |data|
    ensures |means| == k && InSpace(means, d)
    ensures forall j :: 0 <= j < k ==> means[j] == Centroid(data, d, Members(mem, j))
  {
    seq(k, j requires 0 <= j < k => Centroid(data, d, Members(mem, j)))
  }

  // The centroid minimises the cost of its cluster

  ghost function ListCost(data: Points, d: nat, ind: seq<nat>, m: Vec): real
    requires InSpace(data, d) && Indices(ind, |data|) && |m| == d
  {
    if ind == [] then 0.0
    else ListCost(data, d, ind[..|ind| - 1], m) + SqDist(data[ind[|ind| - 1]], m)
  }

  ghost function ListNorms(data: Points, d: nat, ind: seq<nat>): real
    requires InSpace(data, d) && Indices(ind, |data|)
  {
    if ind == [] then 0.0
    else
      var x := data[ind[|ind| - 1]];
      ListNorms(data, d, ind[..|ind| - 1]) + Dot(x, x)
  }

  /** n copies of x, summed. */
  ghost function Times(n: nat, x: real): real {
    n as real * x
  }

  lemma {:induction false} ListCostExpanded(data: Points, d: nat, ind: seq<nat>, m: Vec)
    requires InSpace(data, d) && Indices(ind, |data|) && |m| == d
    ensures ListCost(data, d, ind, m)
         == ListNorms(data, d, ind) + Times(|ind|, Dot(m, m)) - 2.0 * Dot(VecSum(data, d, ind), m)
  {
    hide Dot, SqDist, Zeros, Plus;
    if ind == [] {
      DotZeros(d, m);
    } else {
      var init, x := ind[..|ind| - 1], data[ind[|ind| - 1]];
      ListCostExpanded(data, d, init, m);
      DotPlus(VecSum(data, d, init), x, m);
      ExpandedSqDist(x, m);
      assert Times(|ind|, Dot(m, m)) == Times(|init|, Dot(m, m)) + Dot(m, m);
    }
  }

  lemma DivideThenMultiply(n: nat, s: real, r: real)
    requires n != 0 && r == Product(Inverse(n), s)
    ensures s == Times(n, r)
  {
  }

  lemma NothingTimes(x: real)
    ensures Times(0, x) == 0.0
  {
  }

  lemma CentroidOfSome(data: Points, d: nat, ind: seq<nat>)
    requires InSpace(data, d) && Indices(ind, |data|) && ind != []
    ensures Centroid(data, d, ind) == Scale(Inverse(|ind|), VecSum(data, d, ind))
  {
  }

  /** Against any vector, the sum of the listed points weighs as much as that many copies of their centroid. */
  lemma {:induction false} CentroidSum(data: Points, d: nat, ind: seq<nat>, v: Vec)
    requires InSpace(data, d) && Indices(ind, |data|) && |v| == d
    ensures Dot(VecSum(data, d, ind), v) == Times(|ind|, Dot(Centroid(data, d, ind), v))
  {
    var s, c := VecSum(data, d, ind), Centroid(data, d, ind);
    assert ind == [] ==> s == Zeros(d);
    hide *;
    if ind == [] {
      DotZeros(d, v);
      NothingTimes(Dot(c, v));
    } else {
      CentroidOfSome(data, d, ind);
      DotScale(Inverse(|ind|), s, v);
      DivideThenMultiply(|ind|, Dot(s, v), Dot(c, v));
    }
  }

  lemma CompleteSquare(n: nat, mm: real, cc: real, cm: real, dist: real)
    requires mm + cc - 2.0 * cm == dist
    ensures Times(n, mm) - 2.0 * Times(n, cm) == Times(n, cc) - 2.0 * Times(n, cc) + Times(n, dist)
  {
  }

  /** Moving the mean of a cluster to m costs the cluster's size times the squared distance from the centroid. */
  lemma {:induction false} CentroidIsBest(data: Points, d: nat, ind: seq<nat>, m: Vec)
    requires InSpace(data, d) && Indices(ind, |data|) && |m| == d
    ensures var c := Centroid(data, d, ind);
      ListCost(data, d, ind, m) == ListCost(data, d, ind, c) + Times(|ind|, SqDist(m, c))
  {
    var c, s := Centroid(data, d, ind), VecSum(data, d, ind);
    hide *;
    ListCostExpanded(data, d, ind, m);
    ListCostExpanded(data, d, ind, c);
    CentroidSum(data, d, ind, m);
    CentroidSum(data, d, ind, c);
    ExpandedSqDist(m, c);
    DotCommutes(m, c);
    CompleteSquare(|ind|, Dot(m, m), Dot(c, c), Dot(c, m), SqDist(m, c));
    assert ListCost(data, d, ind, m) == ListCost(data, d, ind, c) + Times(|ind|, SqDist(m, c));
  }

  // Replacing the means by the centroids, one cluster at a time

  lemma {:induction false} ListCostOfPrefix(data: Points, d: nat, n: nat, ind: seq<nat>, m: Vec)
    requires InSpace(data, d) && n <= |data| && Indices(ind, n) && |m| == d
    ensures ListCost(data[..n], d, ind, m) == ListCost(data, d, ind, m)
  {
    if ind != [] {
      hide SqDist;
      ListCostOfPrefix(data, d, n, ind[..|ind| - 1], m);
    }
  }

  lemma {:induction false} ReplaceOne(data: Points, d: nat, mem: seq<nat>, means: Points, j: nat, c: Vec)
    requires InSpace(data, d) && InSpace(means, d) && |mem| == |data| && Labels(mem, |means|)
    requires j < |means| && |c| == d
    ensures Cost(data, d, mem, means) - Cost(data, d, mem, means[j := c])
         == ListCost(data, d, Members(mem, j), means[j]) - ListCost(data, d, Members(mem, j), c)
  {
    if data != [] {
      hide SqDist;
      var n := |data| - 1;
      var ind := Members(mem[..n], j);
      ReplaceOne(data[..n], d, mem[..n], means, j, c);
      ListCostOfPrefix(data, d, n, ind, means[j]);
      ListCostOfPrefix(data, d, n, ind, c);
      if mem[n] == j {
        assert (ind + [n])[..|ind|] == ind;
      }
    }
  }

  /** The means of which the first j have been replaced by centroids. */
  ghost function Hybrid(means: Points, centroids: Points, j: nat): (h: Points)
    requires |means| == |centroids| && j <= |means|
    ensures |h| == |means|
    ensures forall l :: 0 <= l < |means| ==> h[l] == if l < j then centroids[l] else means[l]
  {
    centroids[..j] + means[j..]
  }

  /** How far the first j means lie from the centroids of their clusters, weighted by cluster size. */
  ghost function Drift(data: Points, d: nat, mem: seq<nat>, means: Points, j: nat): (r: real)
    requires InSpace(data, d) && InSpace(means, d) && |mem| == |data| && j <= |means|
    ensures r >= 0.0
  {
    if j == 0 then 0.0
    else
      var ind := Members(mem, j - 1);
      TimesIsNonNegative(|ind|, SqDist(means[j - 1], Centroid(data, d, ind)));
      Drift(data, d, mem, means, j - 1) + Times(|ind|, SqDist(means[j - 1], Centroid(data, d, ind)))
  }

  lemma TimesIsNonNegative(n: nat, x: real)
    requires x >= 0.0
    ensures Times(n, x) >= 0.0
    ensures n > 0 && Times(n, x) == 0.0 ==> x == 0.0
  {
    if n > 0 && x > 0.0 {
      ProductSign(n as real, x);
      assert Times(n, x) == Product(n as real, x);
    } else {
      assert n as real == 0.0 || x == 0.0;
      ProductSign(n as real, x);
      assert Times(n, x) == Product(n as real, x);
    }
  }

  lemma {:induction false} ReplaceByCentroid(data: Points, d: nat, mem: seq<nat>, means: Points, j: nat)
    requires InSpace(data, d) && InSpace(means, d) && |mem| == |data| && Labels(mem, |means|) && j < |means|
    ensures var c := Centroid(data, d, Members(mem, j));
      Cost(data, d, mem, means)
        == Cost(data, d, mem, means[j := c]) + Times(|Members(mem, j)|, SqDist(means[j], c))
  {
    hide Cost, Members, Centroid, SqDist, Times, ListCost;
    ReplaceOne(data, d, mem, means, j, Centroid(data, d, Members(mem, j)));
    CentroidIsBest(data, d, Members(mem, j), means[j]);
  }

  lemma {:induction false} CostOfHybrid(data: Points, d: nat, mem: seq<nat>, means: Points, u: Points, j: nat)
    requires InSpace(data, d) && InSpace(means, d) && |mem| == |data| && Labels(mem, |means|) && j <= |means|
    requires u == Update(data, d, mem, |means|)
    ensures InSpace(Hybrid(means, u, j), d)
    ensures Cost(data, d, mem, means) == Cost(data, d, mem, Hybrid(means, u, j)) + Drift(data, d, mem, means, j)
  {
    hide Cost, Centroid, Members, SqDist, Times, Hybrid, Update;
    if j == 0 {
      assert Hybrid(means, u, 0) == means;
    } else {
      CostOfHybrid(data, d, mem, means, u, j - 1);
      var h := Hybrid(means, u, j - 1);
      assert Hybrid(means, u, j) == h[j - 1 := u[j - 1]];
      ReplaceByCentroid(data, d, mem, h, j - 1);
    }
  }

  /**
   * Replacing every mean by the centroid of its cluster lowers the cost by exactly the weighted squared
   * distances that the means move; an empty cluster contributes nothing wherever its mean goes.
   */
  lemma {:induction false} UpdateLowersCost(data: Points, d: nat, mem: seq<nat>, means: Points)
    requires InSpace(data, d) && InSpace(means, d) && |mem| == |data| && Labels(mem, |means|)
    ensures Cost(data, d, mem, means)
         == Cost(data, d, mem, Update(data, d, mem, |means|)) + Drift(data, d, mem, means, |means|)
  {
    hide Cost, Centroid, Members, Drift;
    var u := Update(data, d, mem, |means|);
    CostOfHybrid(data, d, mem, means, u, |means|);
    assert Hybrid(means, u, |means|) == u;
  }

  /** One iteration: assign every point to its nearest mean, then recompute the means. */
  ghost function Next(data: Points, d: nat, means: Points): (u: Points)
    requires InSpace(data, d) && InSpace(means, d) && means != []
    ensures |u| == |means| && InSpace(u, d)
  {
    Update(data, d, Assign(data, d, means), |means|)
  }

  /** The error falls at least by the drift of the means. */
  lemma ErrorFallsByDrift(data: Points, d: nat, means: Points)
    requires InSpace(data, d) && InSpace(means, d) && means != []
    ensures Error(data, d, Next(data, d, means))
         <= Error(data, d, means) - Drift(data, d, Assign(data, d, means), means, |means|)
  {
    var mem := Assign(data, d, means);
    hide Update, Assign, Cost, Drift;
    UpdateLowersCost(data, d, mem, means);
    AssignIsBest(data, d, mem, Next(data, d, means));
  }

  /** Every non-empty cluster of the nearest-mean assignment has its centroid as its mean. */
  ghost predicate IsFixedPoint(data: Points, d: nat, means: Points)
    requires InSpace(data, d) && InSpace(means, d) && means != []
  {
    forall j :: 0 <= j < |means| ==>
      var ind := Members(Assign(data, d, means), j);
      ind == [] || means[j] == Centroid(data, d, ind)
  }

  lemma {:induction false} NoDrift(data: Points, d: nat, mem: seq<nat>, means: Points, k: nat, j: nat)
    requires InSpace(data, d) && InSpace(means, d) && |mem| == |data| && j < k <= |means|
    requires Drift(data, d, mem, means, k) == 0.0
    ensures Members(mem, j) == [] || means[j] == Centroid(data, d, Members(mem, j))
  {
    hide Members, SqDist, Centroid, Times;
    var ind := Members(mem, k - 1);
    var dist := SqDist(means[k - 1], Centroid(data, d, ind));
    TimesIsNonNegative(|ind|, dist);
    if j < k - 1 {
      NoDrift(data, d, mem, means, k - 1, j);
    } else if ind != [] {
      SqDistZero(means[j], Centroid(data, d, ind));
    }
  }

  /** The error stays the same only at a fixed point; everywhere else it strictly falls. */
  lemma ErrorFallsUnlessFixed(data: Points, d: nat, means: Points)
    requires InSpace(data, d) && InSpace(means, d) && means != []
    ensures Error(data, d, Next(data, d, means)) <= Error(data, d, means)
    ensures Error(data, d, Next(data, d, means)) == Error(data, d, means) ==> IsFixedPoint(data, d, means)
  {
    var mem := Assign(data, d, means);
    hide Next, Error, Assign, Members, Centroid, Drift;
    ErrorFallsByDrift(data, d, means);
    if Error(data, d, Next(data, d, means)) == Error(data, d, means) {
      forall j | 0 <= j < |means|
        ensures Members(mem, j) == [] || means[j] == Centroid(data, d, Members(mem, j))
      {
        NoDrift(data, d, mem, means, |means|, j);
      }
    }
  }

  /** The means after t iterations. */
  ghost function Lloyd(data: Points, d: nat, means: Points, t: nat): (u: Points)
    requires InSpace(data, d) && InSpace(means, d) && means != []
    ensures |u| == |means| && InSpace(u, d)
  {
    if t == 0 then means else Next(data, d, Lloyd(data, d, means, t - 1))
  }

  /** Over a whole run from any starting means, the error never rises. */
  lemma {:induction false} ErrorNeverRises(data: Points, d: nat, means: Points, s: nat, t: nat)
    requires InSpace(data, d) && InSpace(means, d) && means != [] && s <= t
    ensures Error(data, d, Lloyd(data, d, means, t)) <= Error(data, d, Lloyd(data, d, means, s))
    decreases t
  {
    hide Error, Next;
    if s < t {
      ErrorNeverRises(data, d, means, s, t - 1);
      ErrorFallsUnlessFixed(data, d, Lloyd(data, d, means, t - 1));
    }
  }
}
