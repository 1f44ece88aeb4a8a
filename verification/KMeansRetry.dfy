/** A run whose retry leaves the returned error behind. */
module KMeansRetry {
  import opened Vectors
  import opened KMeans
  import opened KMeansLoop

  const DATA: Points := [[6.0], [6.0], [18.0]]
  const FIRST_START: Points := [[6.0], [6.0]]
  const SECOND_START: Points := [[6.0], [18.0]]

  lemma SqDistOnLine(x: real, y: real)
    ensures SqDist([x], [y]) == (x - y) * (x - y)
  {
    assert [x][..0] == [] && [y][..0] == [];
    assert SqDist([x][..0], [y][..0]) == 0.0;
  }

  lemma NearestOfTwo(x: real, a: real, b: real)
    ensures Nearest([x], [[a], [b]]) == if (x - b) * (x - b) < (x - a) * (x - a) then 1 else 0
  {
    SqDistOnLine(x, a);
    SqDistOnLine(x, b);
    var means: Points := [[a], [b]];
    assert means[0] == [a] && means[1] == [b];
    var s := Distances([x], means);
    assert s[0] == (x - a) * (x - a) && s[1] == (x - b) * (x - b);
  }

  lemma AssignOfData(a: real, b: real, m0: nat, m2: nat)
    requires m0 == if (6.0 - b) * (6.0 - b) < (6.0 - a) * (6.0 - a) then 1 else 0
    requires m2 == if (18.0 - b) * (18.0 - b) < (18.0 - a) * (18.0 - a) then 1 else 0
    ensures Assign(DATA, 1, [[a], [b]]) == [m0, m0, m2]
  {
    NearestOfTwo(6.0, a, b);
    NearestOfTwo(18.0, a, b);
    hide Nearest;
  }

  lemma CostOfData(a: real, b: real, m0: nat, m2: nat)
    requires m0 < 2 && m2 < 2
    ensures var x, y := (if m0 == 0 then 6.0 - a else 6.0 - b), (if m2 == 0 then 18.0 - a else 18.0 - b);
      Cost(DATA, 1, [m0, m0, m2], [[a], [b]]) == x * x + x * x + y * y
  {
    var means: Points := [[a], [b]];
    var mem := [m0, m0, m2];
    SqDistOnLine(6.0, if m0 == 0 then a else b);
    SqDistOnLine(18.0, if m2 == 0 then a else b);
    hide SqDist;
    assert DATA[..2] == [[6.0], [6.0]] && mem[..2] == [m0, m0];
    assert DATA[..2][..1] == [[6.0]] && mem[..2][..1] == [m0];
    assert DATA[..2][..1][..0] == [] && mem[..2][..1][..0] == [];
    assert Cost(DATA[..2][..1][..0], 1, mem[..2][..1][..0], means) == 0.0;
    assert Cost(DATA[..2][..1], 1, mem[..2][..1], means) == SqDist([6.0], means[m0]);
    assert Cost(DATA[..2], 1, mem[..2], means) == SqDist([6.0], means[m0]) + SqDist([6.0], means[m0]);
  }

  function UpTo(n: nat): seq<nat> {
    if n == 0 then [] else UpTo(n - 1) + [n - 1]
  }

  lemma MembersStep(mem: seq<nat>, j: nat)
    ensures Members(mem, j) ==
      if mem == [] then []
      else Members(mem[..|mem| - 1], j) + if mem[|mem| - 1] == j then [|mem| - 1] else []
  {
  }

  /** When every point is in cluster 0, that cluster lists all indices and the others are empty. */
  lemma {:induction false} AllInFirst(mem: seq<nat>, j: nat)
    requires forall i :: 0 <= i < |mem| ==> mem[i] == 0
    ensures Members(mem, j) == if j == 0 then UpTo(|mem|) else []
  {
    hide Members;
    MembersStep(mem, j);
    if mem != [] {
      AllInFirst(mem[..|mem| - 1], j);
    }
  }

  lemma MembersOfFirst(j: nat)
    ensures Members([0, 0, 0], j) == if j == 0 then [0, 1, 2] else []
  {
    AllInFirst([0, 0, 0], j);
    hide Members;
    assert UpTo(1) == [0] && UpTo(2) == [0, 1] && UpTo(3) == [0, 1, 2];
  }

  lemma SumOfFirst()
    ensures VecSum(DATA, 1, [0, 1, 2]) == [30.0]
  {
    assert [0, 1, 2][..2] == [0, 1] && [0, 1][..1] == [0] && [0][..0] == [];
    assert VecSum(DATA, 1, [0][..0]) == [0.0];
    assert VecSum(DATA, 1, [0]) == [6.0];
    assert VecSum(DATA, 1, [0, 1]) == [12.0];
  }

  lemma CentroidsOfFirst()
    ensures Centroid(DATA, 1, [0, 1, 2]) == [10.0] && Centroid(DATA, 1, []) == [0.0]
  {
    SumOfFirst();
  }

  lemma DataShape()
    ensures InSpace(DATA, 1) && |DATA| == 3
  {
  }

  lemma FirstUpdate()
    ensures Update(DATA, 1, [0, 0, 0], 2) == [[10.0], [0.0]]
  {
    DataShape();
    hide *;
    MembersOfFirst(0);
    MembersOfFirst(1);
    CentroidsOfFirst();
    var u := Update(DATA, 1, [0, 0, 0], 2);
    assert u[0] == [10.0] && u[1] == [0.0];
  }

  lemma FirstPosed(root: real -> real)
    requires IsSqrt(root)
    ensures Posed(root, DATA, 1, FIRST_START) && Posed(root, DATA, 1, SECOND_START) && ONCE.Valid()
  {
    hide IsSqrt;
  }

  lemma FirstAssign()
    ensures Assign(DATA, 1, FIRST_START) == [0, 0, 0] && |FIRST_START| == 2
  {
    hide Assign;
    AssignOfData(6.0, 6.0, 0, 0);
  }

  /** From two equal means the second cluster is empty, and its mean becomes the origin. */
  lemma FirstRunOfData(root: real -> real)
    requires IsSqrt(root)
    ensures Assign(DATA, 1, FIRST_START) == [0, 0, 0]
    ensures Lloyd(DATA, 1, FIRST_START, 1) == [[10.0], [0.0]]
  {
    FirstPosed(root);
    hide *;
    FirstAssign();
    FirstUpdate();
    LloydStart(root, ONCE, DATA, 1, FIRST_START);
    LloydStep(DATA, 1, FIRST_START, 0);
  }

  lemma FirstError()
    ensures Error(DATA, 1, [[10.0], [0.0]]) == 96.0
  {
    AssignOfData(10.0, 0.0, 0, 0);
    CostOfData(10.0, 0.0, 0, 0);
    hide Assign, Cost;
  }

  lemma SecondError()
    ensures Error(DATA, 1, SECOND_START) == 0.0
  {
    AssignOfData(6.0, 18.0, 0, 1);
    CostOfData(6.0, 18.0, 0, 1);
    hide Assign, Cost;
  }

  lemma EmptyCount()
    ensures 0 in Counts([0, 0, 0], 2)
  {
    MembersOfFirst(1);
    hide Members;
    assert Counts([0, 0, 0], 2)[1] == 0;
  }

  const STARTS := [Matrix(1, FIRST_START), Matrix(1, SECOND_START), Matrix(1, SECOND_START)]
  const ONCE := Options(1, 0.0, 0.0, 1.0)

  lemma OneRound(root: real -> real, starts: seq<Matrix>, retry: nat)
    requires Ready(root, ONCE, 2, Matrix(1, DATA), starts, retry)
    ensures FirstRun(root, ONCE, 2, Matrix(1, DATA), starts, retry) == Lloyd(DATA, 1, starts[0].cols, 1)
    ensures Retried(root, ONCE, 2, Matrix(1, DATA), starts, retry) <==>
      retry < MAX_RETRIES && 0 in Counts(Assign(DATA, 1, Lloyd(DATA, 1, starts[0].cols, 0)), 2)
  {
    hide Lloyd, Assign, Counts, Stops, IsSqrt;
  }

  /** Every retry starts from the second means, so whether or not it is retried itself, its means are one round from them. */
  lemma Retries(root: real -> real)
    requires Ready(root, ONCE, 2, Matrix(1, DATA), STARTS, 1)
    ensures Retried(root, ONCE, 2, Matrix(1, DATA), STARTS, 1) ==>
      FinalMeans(root, ONCE, 2, Matrix(1, DATA), STARTS, 1) == Lloyd(DATA, 1, SECOND_START, 1)
  {
    hide Retried, FirstRun, Lloyd;
    var rest := STARTS[1..];
    assert rest[0].cols == SECOND_START && rest[1..][0].cols == SECOND_START;
    OneRound(root, rest, 2);
    OneRound(root, rest[1..], 3);
    RetriesEnd(root, rest[1..]);
  }

  lemma RetriesEnd(root: real -> real, starts: seq<Matrix>)
    requires Ready(root, ONCE, 2, Matrix(1, DATA), starts, 3)
    ensures !Retried(root, ONCE, 2, Matrix(1, DATA), starts, 3)
  {
    OneRound(root, starts, 3);
  }

  lemma StartsReady(root: real -> real)
    requires IsSqrt(root)
    ensures Ready(root, ONCE, 2, Matrix(1, DATA), STARTS, 1)
  {
    hide IsSqrt;
  }

  /**
   * With one iteration from these starting means, the first run leaves a cluster empty and is retried, and the
   * error of the first run, which is the one returned, is not the error of the means returned.
   */
  lemma StaleError(root: real -> real)
    requires IsSqrt(root)
    ensures Ready(root, ONCE, 2, Matrix(1, DATA), STARTS, 1) && Retried(root, ONCE, 2, Matrix(1, DATA), STARTS, 1)
    ensures Rms(root, DATA, 1, FinalMeans(root, ONCE, 2, Matrix(1, DATA), STARTS, 1))
          < Rms(root, DATA, 1, FirstRun(root, ONCE, 2, Matrix(1, DATA), STARTS, 1))
  {
    StartsReady(root);
    hide Lloyd, Error, Assign, Cost, Counts, Rms, IsSqrt, Members, Ready, Retried, FirstRun, FinalMeans;
    OneRound(root, STARTS, 1);
    Retries(root);
    FirstRunOfData(root);
    EmptyCount();
    LloydStart(root, ONCE, DATA, 1, FIRST_START);
    LloydStart(root, ONCE, DATA, 1, SECOND_START);
    FirstError();
    SecondError();
    ErrorNeverRises(DATA, 1, SECOND_START, 0, 1);
    RmsKeepsOrder(root, DATA, 1, Lloyd(DATA, 1, FIRST_START, 1), Lloyd(DATA, 1, SECOND_START, 1));
  }

  /** The program on that input: the error that it answers is not the error of the means that it answers. */
  method StaleRun(root: real -> real) returns (means: Matrix, rms: real)
    requires IsSqrt(root)
    ensures means.Valid() && means.rows == 1 && |means.cols| == 2
    ensures rms > Rms(root, DATA, 1, means.cols)
  {
    StaleError(root);
    hide *;
    var membership;
    membership, means, rms := KmeansInternal(root, ONCE, 2, Matrix(1, DATA), STARTS, 1);
  }
}
