/** Exactly when the iteration stops and when it is run again, in terms of the errors and the means themselves. */
module KMeansExact {
  import opened Builtins
  import opened Vectors
  import opened KMeans
  import opened KMeansLoop

  lemma QuotientBound(a: real, b: real, c: real)
    requires b > 0.0
    ensures a / b <= c <==> a <= c * b
  {
    var q := a / b;
    assert q * b == a;
    if q <= c {
      assert (c - q) * b >= 0.0;
    } else {
      assert (q - c) * b > 0.0;
    }
  }

  /** The test on the errors, multiplied out. */
  lemma SmallChange(prev: real, rms: real, eps: real, etol: real)
    requires prev >= 0.0 && rms >= 0.0 && eps > 0.0
    ensures PercentChange(prev, rms, eps) <= etol <==> 2.0 * (prev - rms) <= etol * (prev + rms + eps)
  {
    QuotientBound(2.0 * (prev - rms), prev + rms + eps, etol);
  }

  /** The largest move is within a distance if and only if every move is, whichever function takes the root. */
  lemma SmallMoves(root: real -> real, prev: Points, next: Points, dtol: real)
    requires IsSqrt(root) && dtol >= 0.0
    requires prev != [] && |prev| == |next| && forall j :: 0 <= j < |prev| ==> |prev[j]| == |next[j]|
    ensures MaxMoved(root, prev, next) <= dtol <==> forall j :: 0 <= j < |prev| ==> SqDist(prev[j], next[j]) <= Square(dtol)
  {
    hide SqDist, Square;
    var moves := Moves(prev, next);
    var m := MaxOf(moves);
    assert m >= moves[0] >= 0.0;
    assert root(m) >= 0.0 && Square(root(m)) == m;
    RootWithin(root(m), m, dtol);
    assert (m <= Square(dtol)) <==> forall j :: 0 <= j < |moves| ==> moves[j] <= Square(dtol);
  }

  lemma RootWithin(r: real, m: real, dtol: real)
    requires r >= 0.0 && Square(r) == m && dtol >= 0.0
    ensures r <= dtol <==> m <= Square(dtol)
  {
    hide Square;
    SquareKeepsOrder(dtol, r);
    SquareKeepsOrder(r, dtol);
  }

  /**
   * The test holds in round t if and only if an error has gone before, it has fallen by at most the tolerance relative
   * to the mean of both errors, and no mean has moved further than its tolerance.
   */
  lemma StopsExactly(root: real -> real, o: Options, data: Points, d: nat, start: Points, t: nat)
    requires Posed(root, data, d, start) && o.Valid()
    ensures Stops(root, o, data, d, start, t) <==>
      && t >= 2
      && (var prev, rms := Rms(root, data, d, Lloyd(data, d, start, t - 2)), Rms(root, data, d, Lloyd(data, d, start, t - 1));
          2.0 * (prev - rms) <= o.etol * (prev + rms + o.eps))
      && forall j :: 0 <= j < |start| ==>
          SqDist(Lloyd(data, d, start, t - 1)[j], Lloyd(data, d, start, t)[j]) <= Square(o.dtol)
  {
    hide Lloyd, Rms, PercentChange, MaxMoved, SqDist, Square, IsSqrt;
    if t >= 2 {
      SmallChange(Rms(root, data, d, Lloyd(data, d, start, t - 2)), Rms(root, data, d, Lloyd(data, d, start, t - 1)), o.eps, o.etol);
      var before, after := Lloyd(data, d, start, t - 1), Lloyd(data, d, start, t);
      SmallMoves(root, before, after, o.dtol);
      assert |start| == |before| == |after|;
    }
  }

  /** The iteration ends after the first round in which the test holds, or after the last one allowed. */
  lemma {:induction false} RoundsExactly(root: real -> real, o: Options, data: Points, d: nat, start: Points, t: nat)
    requires Posed(root, data, d, start) && o.Valid() && 1 <= t <= o.maxIter
    ensures var r := Rounds(root, o, data, d, start, t);
      && t <= r <= o.maxIter && (r < o.maxIter ==> Stops(root, o, data, d, start, r))
      && forall j :: t <= j < r ==> !Stops(root, o, data, d, start, j)
    decreases o.maxIter - t
  {
    hide Stops, Posed;
    if t < o.maxIter && !Stops(root, o, data, d, start, t) {
      RoundsExactly(root, o, data, d, start, t + 1);
    }
  }

  /** A point goes to the first of its nearest means: every mean before that is further away. */
  lemma NearestIsFirst(data: Points, d: nat, means: Points, i: nat, j: nat)
    requires InSpace(data, d) && InSpace(means, d) && means != [] && i < |data|
    ensures j < Assign(data, d, means)[i] ==> SqDist(data[i], means[Assign(data, d, means)[i]]) < SqDist(data[i], means[j])
  {
    hide FirstMin, SqDist;
    assert Nearest(data[i], means) == FirstMin(Distances(data[i], means));
  }

  lemma {:induction false} NoMembers(mem: seq<nat>, j: nat)
    requires j !in mem
    ensures Members(mem, j) == []
  {
    if mem != [] { NoMembers(mem[..|mem| - 1], j); }
  }

  /** An empty cluster has its mean at the origin. */
  lemma EmptyClusterMean(data: Points, d: nat, mem: seq<nat>, k: nat, j: nat)
    requires InSpace(data, d) && |mem| == |data| && j < k && j !in mem
    ensures Update(data, d, mem, k)[j] == Zeros(d)
  {
    NoMembers(mem, j);
    assert forall i :: 0 <= i < d ==> Centroid(data, d, [])[i] == 0.0;
  }

  /** No point has the label. */
  predicate Unused(mem: seq<nat>, j: nat) {
    j !in mem
  }

  ghost predicate SomeUnused(mem: seq<nat>, k: nat) {
    exists j: nat :: j < k && Unused(mem, j)
  }

  /** The assignment from which the last means of the iteration were computed leaves a cluster without points. */
  ghost predicate LeavesEmpty(root: real -> real, o: Options, k: nat, data: Matrix, start: Matrix)
    requires Posed(root, data.cols, data.rows, start.cols) && o.Valid()
  {
    var t := Rounds(root, o, data.cols, data.rows, start.cols, 1);
    SomeUnused(Assign(data.cols, data.rows, Lloyd(data.cols, data.rows, start.cols, t - 1)), k)
  }

  lemma EmptyIsCounted(mem: seq<nat>, k: nat)
    ensures 0 in Counts(mem, k) <==> SomeUnused(mem, k)
  {
    if j: nat :| j < k && Unused(mem, j) {
      NoMembers(mem, j);
      assert Counts(mem, k)[j] == 0;
    }
    if 0 in Counts(mem, k) {
      var j :| 0 <= j < k && Counts(mem, k)[j] == 0;
      assert Members(mem, j) == [];
      assert Unused(mem, j);
    }
  }

  lemma ReadyPosed(root: real -> real, o: Options, k: nat, data: Matrix, starts: seq<Matrix>, retry: nat, r: nat)
    requires Ready(root, o, k, data, starts, retry) && r < |starts|
    ensures Posed(root, data.cols, data.rows, starts[r].cols) && o.Valid() && o.maxIter >= 1
  {
    hide IsSqrt;
    assert IsStart(starts[r], data.rows, k);
  }

  /** The means returned are those of run r, all runs before it left a cluster empty, and it did not or was the last. */
  ghost predicate ReturnsRun(root: real -> real, o: Options, k: nat, data: Matrix, starts: seq<Matrix>, retry: nat, r: nat)
    requires Ready(root, o, k, data, starts, retry)
  {
    && r < |starts| && (r > 0 ==> retry + r <= MAX_RETRIES)
    && (forall j :: 0 <= j < r ==> (ReadyPosed(root, o, k, data, starts, retry, j); LeavesEmpty(root, o, k, data, starts[j])))
    && (ReadyPosed(root, o, k, data, starts, retry, r);
        && (LeavesEmpty(root, o, k, data, starts[r]) ==> retry + r >= MAX_RETRIES)
        && FinalMeans(root, o, k, data, starts, retry)
           == Lloyd(data.cols, data.rows, starts[r].cols, Rounds(root, o, data.cols, data.rows, starts[r].cols, 1)))
  }

  lemma RetriedExactly(root: real -> real, o: Options, k: nat, data: Matrix, starts: seq<Matrix>, retry: nat)
    requires Ready(root, o, k, data, starts, retry)
    ensures (ReadyPosed(root, o, k, data, starts, retry, 0);
      Retried(root, o, k, data, starts, retry) <==> retry < MAX_RETRIES && LeavesEmpty(root, o, k, data, starts[0]))
  {
    ReadyPosed(root, o, k, data, starts, retry, 0);
    hide Lloyd, Rounds, Assign, Counts, Posed, IsSqrt;
    var t := Rounds(root, o, data.cols, data.rows, starts[0].cols, 1);
    EmptyIsCounted(Assign(data.cols, data.rows, Lloyd(data.cols, data.rows, starts[0].cols, t - 1)), k);
  }

  /** The run that counts is the first one, of at most four, that leaves no cluster empty, or else the fourth. */
  lemma {:induction false} SomeRunReturned(root: real -> real, o: Options, k: nat, data: Matrix, starts: seq<Matrix>, retry: nat)
    requires Ready(root, o, k, data, starts, retry)
    ensures exists r: nat :: ReturnsRun(root, o, k, data, starts, retry, r)
    decreases MAX_RETRIES - retry
  {
    hide LeavesEmpty, Retried, Rounds, Lloyd, IsSqrt, Posed;
    RetriedExactly(root, o, k, data, starts, retry);
    if Retried(root, o, k, data, starts, retry) {
      RetryLeft(root, o, k, data, starts, retry);
      SomeRunReturned(root, o, k, data, starts[1..], retry + 1);
      var r: nat :| ReturnsRun(root, o, k, data, starts[1..], retry + 1, r);
      assert ReturnsRun(root, o, k, data, starts, retry, r + 1);
    } else {
      assert ReturnsRun(root, o, k, data, starts, retry, 0);
    }
  }

  lemma RetryLeft(root: real -> real, o: Options, k: nat, data: Matrix, starts: seq<Matrix>, retry: nat)
    requires Ready(root, o, k, data, starts, retry) && Retried(root, o, k, data, starts, retry)
    ensures retry < MAX_RETRIES && Ready(root, o, k, data, starts[1..], retry + 1)
  {
  }
}
