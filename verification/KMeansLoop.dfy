/** The iteration as the code runs it: membership, means, the error check and the convergence test. */
module KMeansLoop {
  import opened Builtins
  import opened Vectors
  import opened KMeans
  import opened Wrappers

  /** The square root is a parameter of the model: any function that is one in exact arithmetic. */
  ghost predicate IsSqrt(root: real -> real) {
    forall x :: x >= 0.0 ==> root(x) >= 0.0 && Square(root(x)) == x
  }

  function Ratio(x: real, n: nat): real
    requires n > 0
  {
    x / n as real
  }

  lemma RatioKeepsOrder(x: real, y: real, n: nat)
    requires n > 0
    ensures x <= y <==> Ratio(x, n) <= Ratio(y, n)
    ensures x >= 0.0 ==> Ratio(x, n) >= 0.0
  {
  }

  lemma SquareKeepsOrder(x: real, y: real)
    requires x >= 0.0 && y >= 0.0
    ensures x < y ==> Square(x) < Square(y)
  {
    ProductSign(y - x, y + x);
    assert Square(y) - Square(x) == Product(y - x, y + x);
  }

  lemma RootKeepsOrder(root: real -> real, x: real, y: real)
    requires IsSqrt(root) && 0.0 <= x && 0.0 <= y
    ensures x <= y <==> root(x) <= root(y)
  {
    SquareKeepsOrder(root(x), root(y));
    SquareKeepsOrder(root(y), root(x));
  }

  lemma {:induction false} SumIsCost(data: Points, d: nat, mem: seq<nat>, means: Points, d2: seq<real>)
    requires InSpace(data, d) && InSpace(means, d) && |mem| == |data| == |d2| && Labels(mem, |means|)
    requires forall i :: 0 <= i < |data| ==> d2[i] == SqDist(data[i], means[mem[i]])
    ensures Sum(d2) == Cost(data, d, mem, means) >= 0.0
  {
    hide SqDist;
    if data != [] {
      var n := |data| - 1;
      SumIsCost(data[..n], d, mem[..n], means, d2[..n]);
    }
  }

  /** The root mean square error of a set of means. */
  ghost function Rms(root: real -> real, data: Points, d: nat, means: Points): (r: real)
    requires IsSqrt(root) && InSpace(data, d) && InSpace(means, d) && means != [] && data != []
    ensures r >= 0.0
  {
    ErrorIsNonNegative(data, d, means);
    RatioKeepsOrder(Error(data, d, means), Error(data, d, means), |data|);
    root(Ratio(Error(data, d, means), |data|))
  }

  /** Row i of a table. */
  function RowOf(z: array2<real>, i: nat): (s: seq<real>)
    requires i < z.Length0
    reads z
    ensures |s| == z.Length1
    ensures forall j :: 0 <= j < z.Length1 ==> s[j] == z[i, j]
  {
    seq(z.Length1, j requires 0 <= j < z.Length1 reads z => z[i, j])
  }

  method ComputeMembership(root: real -> real, data: Matrix, means: Matrix) returns (membership: seq<nat>, rms: real)
    requires IsSqrt(root)
    requires data.Valid() && means.Valid() && data.rows == means.rows && data.cols != [] && means.cols != []
    ensures membership == Assign(data.cols, data.rows, means.cols)
    ensures rms == Rms(root, data.cols, data.rows, means.cols)
  {
    hide FirstMin, SqDist, Sum, Cost;
    var ok, z := DistSqr(data, means);
    var n := |data.cols|;
    membership := seq(n, i requires 0 <= i < n reads z => FirstMin(RowOf(z, i)));
    var d2 := seq(n, i requires 0 <= i < n reads z => z[i, FirstMin(RowOf(z, i))]);
    forall i | 0 <= i < n
      ensures membership[i] == Nearest(data.cols[i], means.cols)
      ensures d2[i] == SqDist(data.cols[i], means.cols[membership[i]])
    {
      assert RowOf(z, i) == Distances(data.cols[i], means.cols);
    }
    assert membership == Assign(data.cols, data.rows, means.cols);
    SumIsCost(data.cols, data.rows, membership, means.cols, d2);
    rms := root(Ratio(Sum(d2), n));
  }

  method ComputeMeans(k: nat, data: Matrix, membership: seq<nat>) returns (means: Matrix, counts: seq<nat>)
    requires data.Valid() && |membership| == |data.cols|
    ensures means == Matrix(data.rows, Update(data.cols, data.rows, membership, k))
    ensures counts == Counts(membership, k)
  {
    hide Members, Centroid;
    var cols: seq<Vec> := [];
    counts := [];
    for i := 0 to k
      invariant |cols| == |counts| == i
      invariant forall j :: 0 <= j < i ==> cols[j] == Centroid(data.cols, data.rows, Members(membership, j))
      invariant forall j :: 0 <= j < i ==> counts[j] == |Members(membership, j)|
    {
      var ind := Members(membership, i);
      counts := counts + [|ind|];
      cols := cols + [Centroid(data.cols, data.rows, ind)];
    }
    means := Matrix(data.rows, cols);
  }

  /** How far each mean has moved, squared. */
  function Moves(prev: Points, next: Points): (s: seq<real>)
    requires |prev| == |next| && forall j :: 0 <= j < |prev| ==> |prev[j]| == |next[j]|
    ensures |s| == |prev| && forall j :: 0 <= j < |s| ==> s[j] == SqDist(prev[j], next[j])
  {
    seq(|prev|, j requires 0 <= j < |prev| => SqDist(prev[j], next[j]))
  }

  /** The largest distance that a mean has moved. */
  function MaxMoved(root: real -> real, prev: Points, next: Points): real
    requires prev != [] && |prev| == |next| && forall j :: 0 <= j < |prev| ==> |prev[j]| == |next[j]|
  {
    root(MaxOf(Moves(prev, next)))
  }

  lemma NothingMoved(root: real -> real, prev: Matrix, next: Matrix)
    requires IsSqrt(root)
    requires prev.Valid() && next.Valid() && prev.rows == next.rows && prev.cols != [] && |prev.cols| == |next.cols|
    requires MaxMoved(root, prev.cols, next.cols) <= 0.0
    ensures prev == next
  {
    hide SqDist;
    var moves := Moves(prev.cols, next.cols);
    var m := MaxOf(moves);
    assert m >= 0.0;
    assert root(m) == 0.0;
    ProductSign(root(m), root(m));
    forall j | 0 <= j < |prev.cols| ensures prev.cols[j] == next.cols[j] {
      assert moves[j] <= m == 0.0;
      SqDistZero(prev.cols[j], next.cols[j]);
    }
  }

  /** The relative change of the error in one iteration; eps keeps the denominator positive. */
  function PercentChange(prev: real, rms: real, eps: real): real
    requires prev >= 0.0 && rms >= 0.0 && eps > 0.0
  {
    2.0 * (prev - rms) / (prev + rms + eps)
  }

  /** The options: the most iterations, the tolerances, and the machine's smallest step. */
  datatype Options = Options(maxIter: nat, dtol: real, etol: real, eps: real)
  {
    predicate Valid() {
      maxIter >= 1 && dtol >= 0.0 && etol >= 0.0 && eps > 0.0
    }
  }

  /** A root, points, and means to start from. */
  ghost predicate Posed(root: real -> real, data: Points, d: nat, start: Points) {
    IsSqrt(root) && InSpace(data, d) && data != [] && InSpace(start, d) && start != []
  }

  /** The test holds in round t: not in the first, in which no error has gone before. */
  ghost predicate Stops(root: real -> real, o: Options, data: Points, d: nat, start: Points, t: nat)
    requires Posed(root, data, d, start) && o.Valid()
  {
    && t >= 2
    && PercentChange(Rms(root, data, d, Lloyd(data, d, start, t - 2)),
                     Rms(root, data, d, Lloyd(data, d, start, t - 1)), o.eps) <= o.etol
    && MaxMoved(root, Lloyd(data, d, start, t - 1), Lloyd(data, d, start, t)) <= o.dtol
  }

  /** The round, from t on, after which the iteration ends. */
  ghost function Rounds(root: real -> real, o: Options, data: Points, d: nat, start: Points, t: nat): (r: nat)
    requires Posed(root, data, d, start) && o.Valid() && 1 <= t <= o.maxIter
    ensures t <= r <= o.maxIter
    decreases o.maxIter - t
  {
    if t == o.maxIter || Stops(root, o, data, d, start, t) then t else Rounds(root, o, data, d, start, t + 1)
  }

  /**
   * The convergence test. No error precedes the first iteration; the relative change from infinity is not
   * a number, so the test fails there.
   */
  method HasConverged(root: real -> real, o: Options, rmsPrev: Option<real>, rms: real, prev: Matrix, next: Matrix)
    returns (stop: bool)
    requires IsSqrt(root) && o.Valid()
    requires prev.Valid() && next.Valid() && prev.rows == next.rows && prev.cols != [] && |prev.cols| == |next.cols|
    requires rms >= 0.0 && (rmsPrev.Some? ==> rmsPrev.value >= 0.0)
    ensures stop <==>
      && rmsPrev.Some?
      && PercentChange(rmsPrev.value, rms, o.eps) <= o.etol && MaxMoved(root, prev.cols, next.cols) <= o.dtol
    ensures stop && o.dtol == 0.0 ==> prev == next
  {
    hide PercentChange, MaxMoved, IsSqrt;
    if rmsPrev == None {
      return false;
    }
    stop := PercentChange(rmsPrev.value, rms, o.eps) <= o.etol && MaxMoved(root, prev.cols, next.cols) <= o.dtol;
    if stop && o.dtol == 0.0 {
      NothingMoved(root, prev, next);
    }
  }

  ghost function Counts(mem: seq<nat>, k: nat): (counts: seq<nat>)
    ensures |counts| == k
  {
    seq(k, j requires 0 <= j < k => |Members(mem, j)|)
  }

  /**
   * One round of the iteration from the means after t rounds: membership and error, new means, the check that
   * the error has not risen, and the convergence test.
   */
  method KmeansRound(root: real -> real, o: Options, k: nat, data: Matrix, prevMeans: Matrix, rmsPrev: Option<real>,
                     ghost start: Points, ghost t: nat)
    returns (means: Matrix, rms: real, counts: seq<nat>, stop: bool)
    requires data.Valid() && Posed(root, data.cols, data.rows, start) && |start| == k && o.Valid()
    requires prevMeans.Valid() && prevMeans.rows == data.rows && |prevMeans.cols| == k
    requires prevMeans.cols == Lloyd(data.cols, data.rows, start, t)
    requires rmsPrev == if t == 0 then None else Some(Rms(root, data.cols, data.rows, Lloyd(data.cols, data.rows, start, t - 1)))
    ensures means.Valid() && means.rows == data.rows && |means.cols| == k
    ensures means.cols == Lloyd(data.cols, data.rows, start, t + 1)
    ensures rms == Rms(root, data.cols, data.rows, Lloyd(data.cols, data.rows, start, t))
    ensures counts == Counts(Assign(data.cols, data.rows, Lloyd(data.cols, data.rows, start, t)), k)
    ensures stop <==> Stops(root, o, data.cols, data.rows, start, t + 1)
    ensures stop && o.dtol == 0.0 ==> means == prevMeans
  {
    hide Lloyd, Next, Error, Assign, Update, Rms, IsSqrt, PercentChange, MaxMoved, Counts;
    LloydStep(data.cols, data.rows, start, t);
    RmsFacts(root, data.cols, data.rows, start, t);
    var membership;
    membership, rms := ComputeMembership(root, data, prevMeans);
    means, counts := ComputeMeans(k, data, membership);
    if rmsPrev.Some? && rms > rmsPrev.value {
      assert false;
    }
    stop := HasConverged(root, o, rmsPrev, rms, prevMeans, means);
  }

  /** The iteration from the given starting means. */
  method KmeansIterate(root: real -> real, o: Options, k: nat, data: Matrix, start: Matrix)
    returns (membership: seq<nat>, means: Matrix, rms: real, counts: seq<nat>, iter: nat)
    requires data.Valid() && Posed(root, data.cols, data.rows, start.cols) && o.Valid()
    requires start.Valid() && start.rows == data.rows && |start.cols| == k
    ensures iter == Rounds(root, o, data.cols, data.rows, start.cols, 1)
    ensures means == Matrix(data.rows, Lloyd(data.cols, data.rows, start.cols, iter))
    ensures counts == Counts(Assign(data.cols, data.rows, Lloyd(data.cols, data.rows, start.cols, iter - 1)), k)
    ensures membership == Assign(data.cols, data.rows, means.cols)
    ensures rms == Rms(root, data.cols, data.rows, means.cols)
    ensures rms <= Rms(root, data.cols, data.rows, start.cols)
    ensures o.dtol == 0.0 && Stops(root, o, data.cols, data.rows, start.cols, iter) ==>
      IsFixedPoint(data.cols, data.rows, means.cols)
  {
    hide *;
    ghost var x, d, s := data.cols, data.rows, start.cols;
    LloydStart(root, o, x, d, s);
    iter, means, counts := 0, start, [];
    var last, converged := None, false;
    while iter < o.maxIter
      invariant 0 <= iter <= o.maxIter && !converged
      invariant means.Valid() && means.rows == d && |means.cols| == k
      invariant means.cols == Lloyd(x, d, s, iter)
      invariant last == if iter == 0 then None else Some(Rms(root, x, d, Lloyd(x, d, s, iter - 1)))
      invariant iter > 0 ==> counts == Counts(Assign(x, d, Lloyd(x, d, s, iter - 1)), k)
      invariant Rounds(root, o, x, d, s, 1) == if iter == o.maxIter then iter else Rounds(root, o, x, d, s, iter + 1)
      invariant iter > 0 ==> !Stops(root, o, x, d, s, iter)
    {
      means, rms, counts, converged := KmeansRound(root, o, k, data, means, last, s, iter);
      iter := iter + 1;
      RoundsStep(root, o, x, d, s, iter);
      last := Some(rms);
      if converged {
        UnmovedIsFixed(root, o, x, d, s, iter);
        break;
      }
    }
    membership, rms := ComputeMembership(root, data, means);
    RmsNeverRises(root, x, d, s, 0, iter);
  }

  lemma LloydStart(root: real -> real, o: Options, data: Points, d: nat, start: Points)
    requires Posed(root, data, d, start) && o.Valid()
    ensures o.maxIter >= 1 && IsSqrt(root) && InSpace(data, d) && data != [] && InSpace(start, d) && start != []
    ensures Lloyd(data, d, start, 0) == start
  {
  }

  lemma RoundsStep(root: real -> real, o: Options, data: Points, d: nat, start: Points, t: nat)
    requires Posed(root, data, d, start) && o.Valid() && 1 <= t <= o.maxIter
    ensures Rounds(root, o, data, d, start, t)
         == if t == o.maxIter || Stops(root, o, data, d, start, t) then t else Rounds(root, o, data, d, start, t + 1)
  {
    hide Stops;
  }

  lemma LloydStep(data: Points, d: nat, start: Points, t: nat)
    requires InSpace(data, d) && InSpace(start, d) && start != []
    ensures Lloyd(data, d, start, t + 1) == Update(data, d, Assign(data, d, Lloyd(data, d, start, t)), |start|)
  {
    hide Update, Assign;
  }

  lemma UnmovedIsFixed(root: real -> real, o: Options, data: Points, d: nat, start: Points, t: nat)
    requires Posed(root, data, d, start) && o.Valid() && t > 0
    ensures Lloyd(data, d, start, t) == Lloyd(data, d, start, t - 1) ==> IsFixedPoint(data, d, Lloyd(data, d, start, t))
  {
    hide Next, IsFixedPoint;
    if Lloyd(data, d, start, t) == Lloyd(data, d, start, t - 1) {
      StillIsFixed(data, d, Lloyd(data, d, start, t - 1));
    }
  }

  lemma RmsFacts(root: real -> real, data: Points, d: nat, means: Points, t: nat)
    requires IsSqrt(root) && InSpace(data, d) && InSpace(means, d) && means != [] && data != []
    ensures Rms(root, data, d, Lloyd(data, d, means, t)) >= 0.0
    ensures t > 0 ==> 0.0 <= Rms(root, data, d, Lloyd(data, d, means, t)) <= Rms(root, data, d, Lloyd(data, d, means, t - 1))
  {
    hide Rms, Lloyd;
    if t > 0 {
      RmsNeverRises(root, data, d, means, t - 1, t);
    }
  }

  const MAX_RETRIES := 3

  predicate IsStart(start: Matrix, d: nat, k: nat) {
    start.rows == d && |start.cols| == k && forall j :: 0 <= j < k ==> |start.cols[j]| == d
  }

  /** Enough starting means for a first run and its retries. */
  predicate Starts(starts: seq<Matrix>, d: nat, k: nat, retry: nat) {
    && |starts| >= 1 && |starts| + retry >= 1 + MAX_RETRIES
    && forall r :: 0 <= r < |starts| ==> IsStart(starts[r], d, k)
  }

  ghost predicate Ready(root: real -> real, o: Options, k: nat, data: Matrix, starts: seq<Matrix>, retry: nat) {
    && IsSqrt(root) && o.Valid() && k > 0
    && data.Valid() && data.cols != [] && Starts(starts, data.rows, k, retry)
  }

  /** What the iteration from the first starting means arrives at. */
  ghost function FirstRun(root: real -> real, o: Options, k: nat, data: Matrix, starts: seq<Matrix>, retry: nat): (means: Points)
    requires Ready(root, o, k, data, starts, retry)
    ensures |means| == k && InSpace(means, data.rows)
  {
    Lloyd(data.cols, data.rows, starts[0].cols, Rounds(root, o, data.cols, data.rows, starts[0].cols, 1))
  }

  /** The last assignment of that iteration left a cluster empty, and a retry is left. */
  ghost predicate Retried(root: real -> real, o: Options, k: nat, data: Matrix, starts: seq<Matrix>, retry: nat)
    requires Ready(root, o, k, data, starts, retry)
  {
    var t := Rounds(root, o, data.cols, data.rows, starts[0].cols, 1);
    retry < MAX_RETRIES && 0 in Counts(Assign(data.cols, data.rows, Lloyd(data.cols, data.rows, starts[0].cols, t - 1)), k)
  }

  /** The means returned: those of the first run that is not retried. */
  ghost function FinalMeans(root: real -> real, o: Options, k: nat, data: Matrix, starts: seq<Matrix>, retry: nat): (means: Points)
    requires Ready(root, o, k, data, starts, retry)
    ensures |means| == k && InSpace(means, data.rows)
    decreases MAX_RETRIES - retry
  {
    if Retried(root, o, k, data, starts, retry) then FinalMeans(root, o, k, data, starts[1..], retry + 1)
    else FirstRun(root, o, k, data, starts, retry)
  }

  /**
   * Runs the iteration, and again from other starting means while a cluster is empty and retries are left.
   * A retry replaces the membership and the means; the error returned stays that of the first run.
   */
  method KmeansInternal(root: real -> real, o: Options, k: nat, data: Matrix, starts: seq<Matrix>, retry: nat)
    returns (membership: seq<nat>, means: Matrix, rms: real)
    requires Ready(root, o, k, data, starts, retry)
    ensures means == Matrix(data.rows, FinalMeans(root, o, k, data, starts, retry))
    ensures membership == Assign(data.cols, data.rows, means.cols)
    ensures rms == Rms(root, data.cols, data.rows, FirstRun(root, o, k, data, starts, retry))
    decreases MAX_RETRIES - retry
  {
    hide Assign, Rms, Lloyd, IsSqrt, Counts, Rounds, Stops;
    var counts, iter;
    membership, means, rms, counts, iter := KmeansIterate(root, o, k, data, starts[0]);
    if 0 in counts && retry < MAX_RETRIES {
      var unused;
      membership, means, unused := KmeansInternal(root, o, k, data, starts[1..], retry + 1);
    }
  }

  /** The error returned is that of the means returned if and only if there was no retry, or one that ended as well. */
  lemma {:induction false} ErrorIsStaleExactly(root: real -> real, o: Options, k: nat, data: Matrix, starts: seq<Matrix>, retry: nat)
    requires Ready(root, o, k, data, starts, retry)
    ensures
      var first, means := FirstRun(root, o, k, data, starts, retry), FinalMeans(root, o, k, data, starts, retry);
      Rms(root, data.cols, data.rows, first) == Rms(root, data.cols, data.rows, means)
      <==>
      !Retried(root, o, k, data, starts, retry) || Error(data.cols, data.rows, means) == Error(data.cols, data.rows, first)
  {
    var first, means := FirstRun(root, o, k, data, starts, retry), FinalMeans(root, o, k, data, starts, retry);
    hide Retried, FirstRun, Error, Rms;
    RmsKeepsOrder(root, data.cols, data.rows, first, means);
    RmsKeepsOrder(root, data.cols, data.rows, means, first);
  }

  /** Root mean square errors compare as the errors do. */
  lemma RmsKeepsOrder(root: real -> real, data: Points, d: nat, m1: Points, m2: Points)
    requires IsSqrt(root) && InSpace(data, d) && InSpace(m1, d) && InSpace(m2, d) && m1 != [] && m2 != [] && data != []
    ensures Rms(root, data, d, m1) <= Rms(root, data, d, m2) <==> Error(data, d, m1) <= Error(data, d, m2)
  {
    hide Error, Ratio, Square;
    var e1, e2, n := Error(data, d, m1), Error(data, d, m2), |data|;
    ErrorIsNonNegative(data, d, m1);
    ErrorIsNonNegative(data, d, m2);
    RatioKeepsOrder(e1, e2, n);
    RatioKeepsOrder(e2, e1, n);
    RootKeepsOrder(root, Ratio(e1, n), Ratio(e2, n));
  }

  lemma StillIsFixed(data: Points, d: nat, means: Points)
    requires InSpace(data, d) && InSpace(means, d) && means != []
    requires Next(data, d, means) == means
    ensures IsFixedPoint(data, d, means)
  {
    hide Centroid, Members, Assign;
  }

  lemma {:induction false} CostIsNonNegative(data: Points, d: nat, mem: seq<nat>, means: Points)
    requires InSpace(data, d) && InSpace(means, d) && |mem| == |data| && Labels(mem, |means|)
    ensures Cost(data, d, mem, means) >= 0.0
  {
    hide SqDist;
    if data != [] {
      CostIsNonNegative(data[..|data| - 1], d, mem[..|data| - 1], means);
    }
  }

  lemma ErrorIsNonNegative(data: Points, d: nat, means: Points)
    requires InSpace(data, d) && InSpace(means, d) && means != []
    ensures Error(data, d, means) >= 0.0
  {
    hide Assign;
    CostIsNonNegative(data, d, Assign(data, d, means), means);
  }

  /** The root mean square error never rises over a run, so the code's own check of it cannot fire. */
  lemma {:induction false} RmsNeverRises(root: real -> real, data: Points, d: nat, means: Points, s: nat, t: nat)
    requires IsSqrt(root) && InSpace(data, d) && InSpace(means, d) && means != [] && data != [] && s <= t
    ensures Rms(root, data, d, Lloyd(data, d, means, t)) <= Rms(root, data, d, Lloyd(data, d, means, s))
  {
    hide Lloyd, Error, Rms;
    ErrorNeverRises(data, d, means, s, t);
    RmsKeepsOrder(root, data, d, Lloyd(data, d, means, t), Lloyd(data, d, means, s));
  }
}
