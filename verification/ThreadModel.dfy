/** The scheduler as a state machine over thread identifiers. Thread 0 is main. */
module ThreadModel {
  import opened Wrappers

  type Tid = nat

  /**
   * The five queues, the tid_child and retval fields of every thread record ever created (records are
   * never reused, and the record of thread t is at index t), and, for each thread that is inside a call
   * to join, the target of that call.
   */
  datatype Sys = Sys(
    ready: seq<Tid>, running: seq<Tid>, mainQueue: seq<Tid>, zombies: seq<Tid>, blocked: seq<Tid>,
    child: seq<Tid>, retval: seq<int>, joining: map<Tid, Tid>)

  function Initial(): Sys {
    Sys([], [], [0], [], [], [0], [0], map[])
  }

  /** The thread that executes: the one in running, or main when running is empty. */
  function Current(s: Sys): Tid {
    if s.running == [] then 0 else s.running[0]
  }

  /** The first thread in q whose tid_child is x. */
  function FirstJoiner(q: seq<Tid>, child: seq<Tid>, x: Tid): (r: Option<Tid>)
    ensures r.Some? ==> r.value in q && r.value < |child| && child[r.value] == x
    ensures r.None? ==> forall t :: t in q && t < |child| ==> child[t] != x
  {
    if q == [] then None
    else if q[0] < |child| && child[q[0]] == x then Some(q[0])
    else FirstJoiner(q[1..], child, x)
  }

  /** q without the first occurrence of x. */
  function RemoveFirst<T(==)>(q: seq<T>, x: T): seq<T> {
    if q == [] then []
    else if q[0] == x then q[1..]
    else [q[0]] + RemoveFirst(q[1..], x)
  }

  function Create(s: Sys): Sys {
    s.(ready := s.ready + [|s.child|], child := s.child + [0], retval := s.retval + [0])
  }

  /** Identifiers are 16 bits wide: tid_idx is the number of records modulo this. */
  const TID_LIMIT := 0x1_0000

  /** A call to create: whenever the counter is 0, the first time or again, it starts with new queues and a new main. */
  function CreateCall(s: Sys): Sys {
    Create(if |s.child| % TID_LIMIT == 0 then Initial() else s)
  }

  /** Gives way to the first ready thread; main, while running is empty, has no entry there to give way with. */
  function Yield(s: Sys): (r: Option<Sys>) {
    if s.ready == [] then Some(s)
    else if s.running == [] then None
    else
      var next, curr := s.ready[0], s.running[0];
      var s' := s.(ready := s.ready[1..], running := s.running[1..] + [next]);
      Some(if curr != 0 then s'.(ready := s'.ready + [curr]) else s'.(mainQueue := s'.mainQueue + [curr]))
  }

  /** The first half of join, up to the context switch, once the caller is blocked on t. */
  function Block(s: Sys, t: Tid): (s': Sys)
    requires s.running != [] || s.mainQueue != []
    requires Current(s) == if s.running != [] then s.running[0] else s.mainQueue[0]
    requires Current(s) < |s.child|
  {
    var p := Current(s);
    var s1 := if s.running != [] then s.(running := s.running[1..])
              else s.(mainQueue := s.mainQueue[1..] + [s.mainQueue[0]]);
    s1.(blocked := s.blocked + [p], child := s.child[p := t], joining := s.joining[p := t])
  }

  /** What check_thread_done answers after the caller has been blocked. */
  predicate Done(s: Sys, t: Tid) {
    t !in s.ready && t !in s.blocked
  }

  /** Switches to the first ready thread; there is none to switch to when the ready queue is empty. */
  function SwitchToReady(s: Sys): (r: Option<Sys>) {
    if s.ready == [] then None
    else Some(s.(ready := s.ready[1..], running := s.running + [s.ready[0]]))
  }

  /** The first half of join. */
  function JoinBegin(s: Sys, t: Tid): (r: Option<Sys>)
    requires s.running != [] || s.mainQueue != []
    requires Current(s) == if s.running != [] then s.running[0] else s.mainQueue[0]
    requires Current(s) < |s.child|
  {
    var s' := Block(s, t);
    if Done(s', t) then Some(s') else SwitchToReady(s')
  }

  /** The second half of join, when the caller runs again: the record of the target is collected. */
  function JoinEnd(s: Sys): Sys
    requires Current(s) in s.joining
  {
    var p := Current(s);
    s.(zombies := RemoveFirst(s.zombies, s.joining[p]), joining := s.joining - {p})
  }

  /** The first thread in blocked whose tid_child is x. */
  function Parent(s: Sys, x: Tid): Option<Tid>
  {
    FirstJoiner(s.blocked, s.child, x)
  }

  /** Exit of the running thread, up to the switch to the next one. */
  function Retire(s: Sys, value: int): (s': Sys)
    requires s.running != [] && s.running[0] < |s.retval|
  {
    var x := s.running[0];
    var s1 := s.(running := s.running[1..], retval := s.retval[x := value], zombies := s.zombies + [x]);
    match Parent(s, x)
    case Some(p) => s1.(ready := s1.ready + [p])
    case None => s1
  }

  /** Exit of the thread that executes; main, while running is empty, has no entry there to take out. */
  function Exit(s: Sys, value: int): (r: Option<Sys>)
    requires s.running != [] ==> s.running[0] < |s.retval|
  {
    if s.running == [] then None else SwitchToReady(Retire(s, value))
  }

  // The invariant

  predicate Runnable(s: Sys, t: Tid) {
    t in s.running || t in s.ready || (t == 0 && s.running == [])
  }

  /** t is inside a join whose target has not exited. */
  predicate Waiting(s: Sys, t: Tid) {
    t in s.joining && !Runnable(s, t)
  }

  predicate Live(s: Sys, t: Tid) {
    Runnable(s, t) || Waiting(s, t)
  }

  ghost predicate NoDuplicates<T>(q: seq<T>) {
    forall i, j :: 0 <= i < j < |q| ==> q[i] != q[j]
  }

  /** Every entry of q is the identifier of a created thread. */
  ghost predicate Created(s: Sys, q: seq<Tid>) {
    forall t :: t in q ==> t < |s.child|
  }

  ghost predicate QueuesOk(s: Sys) {
    && 1 <= |s.child| == |s.retval| && Current(s) < |s.child|
    && |s.running| <= 1 && s.mainQueue == [0]
    && Created(s, s.running) && Created(s, s.ready) && Created(s, s.zombies) && Created(s, s.blocked)
    && NoDuplicates(s.ready) && NoDuplicates(s.zombies)
    && (forall t :: t in s.running ==> t !in s.ready)
  }

  /** Main executes exactly when running is empty, and otherwise it is queued or waits. */
  ghost predicate MainOk(s: Sys) {
    && 0 !in s.zombies
    && (s.running == [] ==> 0 !in s.ready)
    && Live(s, 0)
  }

  ghost predicate JoinsOk(s: Sys)
    requires Created(s, s.blocked)
  {
    && (forall p :: p in s.joining ==> p in s.blocked && s.joining[p] == s.child[p] < |s.child|)
    && (forall p :: p in s.joining ==> if Runnable(s, p) then s.joining[p] in s.zombies else Live(s, s.joining[p]))
    && (forall p, q :: p in s.joining && q in s.joining && p != q ==> s.joining[p] != s.joining[q])
  }

  /** The zombies have left every queue that could run them, and a stale entry in blocked names a dead child. */
  ghost predicate DeadOk(s: Sys)
    requires Created(s, s.blocked)
  {
    && (forall t :: t in s.zombies ==> !Live(s, t))
    && (forall p :: p in s.blocked ==> s.child[p] < |s.child| && s.child[p] != 0)
    && (forall p :: p in s.blocked && Live(s, s.child[p]) ==> Waiting(s, p))
  }

  /** Following the joins from t for k steps leads to a thread that can run. */
  ghost predicate Leads(s: Sys, t: Tid, k: nat)
    decreases k
  {
    if k == 0 then Runnable(s, t) else Waiting(s, t) && Leads(s, s.joining[t], k - 1)
  }

  /** The thread where the joins that start at t end. */
  ghost function Last(s: Sys, t: Tid, k: nat): Tid
    requires Leads(s, t, k)
    decreases k
  {
    if k == 0 then t else Last(s, s.joining[t], k - 1)
  }

  ghost predicate LeadsTo(s: Sys, t: Tid, u: Tid) {
    exists k: nat :: Leads(s, t, k) && Last(s, t, k) == u
  }

  /** No joins form a cycle: from every live thread they lead to one that can run. */
  ghost predicate JoinsEnd(s: Sys) {
    forall t :: Live(s, t) ==> exists k: nat :: Leads(s, t, k)
  }

  ghost predicate Inv(s: Sys) {
    QueuesOk(s) && MainOk(s) && JoinsOk(s) && DeadOk(s) && JoinsEnd(s)
  }

  lemma InitialInv()
    ensures Inv(Initial())
  {
    hide Leads;
    assert QueuesOk(Initial()) && MainOk(Initial()) && JoinsOk(Initial()) && DeadOk(Initial());
    assert JoinsEnd(Initial()) by { RunnablesEnd(Initial()); }
  }

  lemma RunnablesEnd(s: Sys)
    requires forall t :: Live(s, t) ==> Runnable(s, t)
    ensures JoinsEnd(s)
  {
    forall t | Live(s, t) ensures exists k: nat :: Leads(s, t, k) {
      assert Leads(s, t, 0);
    }
  }

  /** While every waiting thread goes on waiting for the same target, its joins lead to the same thread. */
  lemma {:induction false} LeadsKept(s: Sys, s': Sys, t: Tid, k: nat)
    requires Leads(s, t, k) && forall x :: Runnable(s, x) ==> Runnable(s', x)
    requires forall x :: Waiting(s, x) ==> Waiting(s', x) && s'.joining[x] == s.joining[x]
    ensures Leads(s', t, k)
    decreases k
  {
    hide Runnable;
    if k > 0 {
      assert Waiting(s, t) && Waiting(s', t);
      LeadsKept(s, s', s.joining[t], k - 1);
    }
  }

  lemma JoinsEndKept(s: Sys, s': Sys)
    requires JoinsEnd(s) && forall x :: Runnable(s, x) ==> Runnable(s', x)
    requires forall x :: Waiting(s, x) ==> Waiting(s', x) && s'.joining[x] == s.joining[x]
    requires forall x :: Live(s', x) ==> Live(s, x) || Runnable(s', x)
    ensures JoinsEnd(s')
  {
    hide Runnable, Waiting, Live;
    forall t | Live(s', t) ensures exists k: nat :: Leads(s', t, k) {
      if Runnable(s', t) {
        assert Leads(s', t, 0);
      } else {
        var k: nat :| Leads(s, t, k);
        LeadsKept(s, s', t, k);
      }
    }
  }

  /** The same threads live, and the same threads have exited with the same values. */
  ghost predicate SameFates(s: Sys, s': Sys) {
    && s'.zombies == s.zombies && s'.retval == s.retval && |s'.child| == |s.child|
    && forall t :: Live(s', t) <==> Live(s, t)
  }

  lemma Tail(q: seq<Tid>)
    requires NoDuplicates(q) && q != []
    ensures NoDuplicates(q[1..])
    ensures forall t :: t in q[1..] <==> t in q && t != q[0]
  {
    forall t | t in q && t != q[0] ensures t in q[1..] {
      var i :| 0 <= i < |q| && q[i] == t;
      assert q[1..][i - 1] == t;
    }
  }

  lemma Append(q: seq<Tid>, x: Tid)
    ensures forall t :: t in q + [x] <==> t in q || t == x
    ensures NoDuplicates(q) && x !in q ==> NoDuplicates(q + [x])
  {
    assert (q + [x])[|q|] == x;
    forall t | t in q ensures t in q + [x] {
      var i :| 0 <= i < |q| && q[i] == t;
      assert (q + [x])[i] == t;
    }
  }

  lemma {:induction false} CreateInv(s: Sys)
    requires Inv(s)
    ensures Inv(Create(s))
    ensures forall t :: Live(Create(s), t) <==> Live(s, t) || t == |s.child|
  {
    var s', n := Create(s), |s.child|;
    Append(s.ready, n);
    forall t ensures Runnable(s', t) <==> Runnable(s, t) || t == n {}
    hide Runnable, NoDuplicates, Leads;
    forall t ensures Waiting(s', t) <==> Waiting(s, t) {}
    forall t ensures Live(s', t) <==> Live(s, t) || t == n {}
    JoinsEndKept(s, s');
  }

  /** A call to create adds a thread and keeps all others if and only if the identifiers have not run out. */
  lemma {:induction false} CreateExactly(s: Sys)
    requires Inv(s) && |s.child| <= TID_LIMIT
    ensures Inv(CreateCall(s))
    ensures (forall t :: Live(CreateCall(s), t) <==> Live(s, t) || t == |s.child|) <==> |s.child| < TID_LIMIT
  {
    if |s.child| < TID_LIMIT {
      CreateInv(s);
    } else {
      InitialInv();
      CreateInv(Initial());
      assert CreateCall(s) == Create(Initial()) && !Live(Create(Initial()), |s.child|);
    }
    hide Live, JoinsOk, DeadOk, JoinsEnd, Create;
  }

  /** Nothing the invariant says about joins and the dead changes while the same threads stay runnable. */
  lemma SameRunnable(s: Sys, s': Sys)
    requires Inv(s) && QueuesOk(s')
    requires s' == s.(ready := s'.ready, running := s'.running)
    requires forall t :: Runnable(s', t) <==> Runnable(s, t)
    requires s'.running == [] ==> 0 !in s'.ready
    ensures Inv(s')
    ensures forall t :: Live(s', t) <==> Live(s, t)
  {
    hide Runnable, NoDuplicates, Leads;
    forall t ensures Live(s', t) <==> Live(s, t) {}
    JoinsEndKept(s, s');
  }

  lemma YieldInv(s: Sys)
    requires Inv(s) && (s.ready == [] || (s.running != [] && s.running[0] != 0))
    ensures Yield(s).Some? && Inv(Yield(s).value)
    ensures forall t :: Live(Yield(s).value, t) <==> Live(s, t)
  {
    hide JoinsEnd;
    if s.ready != [] {
      var s', curr := Yield(s).value, s.running[0];
      assert s.running == [curr] && s'.running == [s.ready[0]];
      Tail(s.ready);
      Append(s.ready[1..], curr);
      assert s'.ready == s.ready[1..] + [curr];
      forall t ensures Runnable(s', t) <==> Runnable(s, t) {}
      assert curr in s.running && s.ready[0] in s.ready;
      SameRunnable(s, s');
    }
  }

  /** From a live thread that does not run, the chain of joins leads up to a ready thread or to the running one. */
  lemma {:induction false} ChainEnds(s: Sys, t: Tid, k: nat)
    requires Leads(s, t, k)
    ensures Runnable(s, Last(s, t, k))
    ensures Last(s, t, k) == t || exists p :: Waiting(s, p) && s.joining[p] == Last(s, t, k)
    decreases k
  {
    hide Runnable;
    if k > 0 {
      ChainEnds(s, s.joining[t], k - 1);
      assert Waiting(s, t) && Last(s, t, k) == Last(s, s.joining[t], k - 1);
    }
  }

  /** The targets that a call to join names: a live thread other than main that nobody is joining. */
  ghost predicate LiveTarget(s: Sys, t: Tid) {
    && t != 0 && Live(s, t)
    && forall p :: p in s.joining ==> s.joining[p] != t
  }

  lemma LiveIsCreated(s: Sys, t: Tid)
    requires Inv(s) && Live(s, t)
    ensures t < |s.child|
  {
    hide NoDuplicates, JoinsEnd;
  }

  /** No deadlock in join: unless the joins of the target lead back to the caller, some thread is ready to run. */
  lemma JoinFindsReady(s: Sys, t: Tid)
    requires Inv(s) && LiveTarget(s, t) && !LeadsTo(s, t, Current(s))
    ensures s.ready != []
  {
    var k: nat :| Leads(s, t, k);
    hide Leads, Last, Waiting, NoDuplicates, JoinsOk, DeadOk;
    ChainEnds(s, t, k);
    assert Last(s, t, k) != Current(s);
    assert s.running == [] || s.running == [Current(s)];
  }

  /** A live target is in the ready or the blocked queue, so the caller never takes it for finished. */
  lemma LiveIsNotDone(s: Sys, t: Tid)
    requires Inv(s) && LiveTarget(s, t)
    ensures !Done(Block(s, t), t)
  {
    hide NoDuplicates, JoinsEnd;
    Append(s.blocked, Current(s));
    assert s.running == [] || s.running == [Current(s)];
  }

  lemma RunningIsCurrent(s: Sys)
    requires QueuesOk(s)
    ensures s.running == [] || s.running == [Current(s)]
    ensures Runnable(s, Current(s))
    ensures s.running != [] || s.mainQueue[1..] + [s.mainQueue[0]] == s.mainQueue
  {
    hide NoDuplicates, Created;
  }

  lemma SwitchQueues(s: Sys)
    requires QueuesOk(s) && s.running == [] && s.ready != []
    ensures SwitchToReady(s).Some?
    ensures var s' := SwitchToReady(s).value;
      && QueuesOk(s') && s'.running != [] && s' == s.(ready := s'.ready, running := s'.running)
      && (forall y :: Runnable(s', y) <==> y in s.ready)
  {
    var s' := SwitchToReady(s).value;
    Tail(s.ready);
    assert s.ready[0] in s.ready;
    assert s'.running == [s.ready[0]];
  }

  lemma BlockQueues(s: Sys, t: Tid)
    requires QueuesOk(s) && t < |s.child|
    ensures var s', c := Block(s, t), Current(s);
      && QueuesOk(s') && s'.running == [] && s'.ready == s.ready && s'.zombies == s.zombies && s'.retval == s.retval
      && s'.child == s.child[c := t] && s'.joining == s.joining[c := t]
      && (forall x :: x in s'.blocked <==> x in s.blocked || x == c)
  {
    hide NoDuplicates;
    RunningIsCurrent(s);
    Append(s.blocked, Current(s));
    assert Block(s, t).running == [];
  }

  lemma JoinBeginQueues(s: Sys, t: Tid)
    requires Inv(s) && s.ready != [] && t < |s.child|
    ensures SwitchToReady(Block(s, t)).Some?
    ensures var s', c := SwitchToReady(Block(s, t)).value, Current(s);
      && QueuesOk(s') && s'.running != [] && s'.zombies == s.zombies
      && s'.child == s.child[c := t] && s'.joining == s.joining[c := t]
      && (forall x :: x in s'.blocked <==> x in s.blocked || x == c)
      && (forall x :: Runnable(s', x) <==> Runnable(s, x) && x != c)
      && s'.retval == s.retval
  {
    RunningIsCurrent(s);
    BlockQueues(s, t);
    SwitchQueues(Block(s, t));
    hide Block, NoDuplicates, Created;
  }

  /** The joins of x after c has come to wait for t: those that led to c go on to where those of t lead. */
  lemma {:induction false} LeadsPast(s: Sys, s': Sys, c: Tid, t: Tid, x: Tid, k: nat, j: nat)
    requires Leads(s, x, k) && c !in s.joining && s'.joining == s.joining[c := t]
    requires forall y :: Runnable(s', y) <==> Runnable(s, y) && y != c
    ensures Last(s, x, k) != c ==> Leads(s', x, k)
    ensures Last(s, x, k) == c && Leads(s', t, j) ==> Leads(s', x, k + 1 + j)
    decreases k
  {
    hide Runnable;
    if k > 0 {
      LeadsPast(s, s', c, t, s.joining[x], k - 1, j);
    }
  }

  lemma JoinBeginEnds(s: Sys, s': Sys, c: Tid, t: Tid)
    requires JoinsEnd(s) && c !in s.joining && s'.joining == s.joining[c := t] && Live(s, t) && !LeadsTo(s, t, c)
    requires forall y :: Runnable(s', y) <==> Runnable(s, y) && y != c
    requires forall x :: Live(s', x) ==> Live(s, x)
    ensures JoinsEnd(s')
  {
    hide Live, Runnable;
    var j: nat :| Leads(s, t, j);
    LeadsPast(s, s', c, t, t, j, 0);
    forall x | Live(s', x) ensures exists k: nat :: Leads(s', x, k) {
      var k: nat :| Leads(s, x, k);
      LeadsPast(s, s', c, t, x, k, j);
    }
  }

  lemma {:induction false} JoinBeginRest(s: Sys, s': Sys, c: Tid, t: Tid)
    requires Inv(s) && LiveTarget(s, t) && !LeadsTo(s, t, c) && c == Current(s) && Runnable(s, c) && c !in s.joining
    requires QueuesOk(s') && s'.running != [] && s'.zombies == s.zombies && c < |s.child| && t < |s.child|
    requires s'.child == s.child[c := t] && s'.joining == s.joining[c := t]
    requires forall x :: x in s'.blocked <==> x in s.blocked || x == c
    requires forall x :: Runnable(s', x) <==> Runnable(s, x) && x != c
    ensures Inv(s')
    ensures forall x :: Live(s', x) <==> Live(s, x)
  {
    assert Created(s', s'.blocked) && Created(s, s.blocked) && |s.child| == |s'.child|;
    hide Runnable, NoDuplicates, QueuesOk, Created, Current, Leads, LeadsTo, JoinsEnd;
    forall x ensures Live(s', x) <==> Live(s, x) {}
    JoinBeginEnds(s, s', c, t);
    assert Waiting(s', c);
    forall x | x != c ensures Waiting(s', x) == Waiting(s, x) {}
    assert MainOk(s');
    hide Waiting, Live;
    assert JoinsOk(s');
    assert DeadOk(s');
  }

  /** Joining a live target whose joins do not lead back blocks the caller and runs a ready thread. */
  lemma {:induction false} JoinBeginInv(s: Sys, t: Tid)
    requires Inv(s) && LiveTarget(s, t) && !LeadsTo(s, t, Current(s)) && Current(s) !in s.joining
    ensures JoinBegin(s, t).Some? && Inv(JoinBegin(s, t).value)
    ensures SameFates(s, JoinBegin(s, t).value)
  {
    hide Leads, LeadsTo, JoinsEnd;
    LiveIsCreated(s, t);
    RunningIsCurrent(s);
    LiveIsNotDone(s, t);
    JoinFindsReady(s, t);
    JoinBeginQueues(s, t);
    var s' := SwitchToReady(Block(s, t)).value;
    JoinBeginRest(s, s', Current(s), t);
    assert JoinBegin(s, t) == Some(s');
    hide Inv, Block, SwitchToReady, Done, JoinBegin, Live;
  }

  /** When the joins of t lead to c and c comes to wait for t, following them from t leads to c, not to an end. */
  lemma {:induction false} LeadsBack(s: Sys, s': Sys, c: Tid, x: Tid, k: nat, n: nat)
    requires Leads(s, x, k) && Last(s, x, k) == c && c !in s.joining && Leads(s', x, n)
    requires forall y :: Runnable(s', y) <==> Runnable(s, y) && y != c
    requires forall y :: y in s.joining ==> y in s'.joining && s'.joining[y] == s.joining[y]
    ensures k <= n && Leads(s', c, n - k)
    decreases k
  {
    hide Runnable;
    if k > 0 {
      LeadsBack(s, s', c, s.joining[x], k - 1, n - 1);
    }
  }

  /** A cycle of joins: nobody on it can ever run. */
  lemma {:induction false} CycleNeverEnds(s: Sys, s': Sys, c: Tid, t: Tid, k: nat, n: nat)
    requires Leads(s, t, k) && Last(s, t, k) == c && c !in s.joining && s'.joining == s.joining[c := t]
    requires forall y :: Runnable(s', y) <==> Runnable(s, y) && y != c
    ensures !Leads(s', c, n)
    decreases n
  {
    hide Runnable;
    if Leads(s', c, n) {
      LeadsBack(s, s', c, t, k, n - 1);
      CycleNeverEnds(s, s', c, t, k, n - 1 - k);
    }
  }

  /** Joining a live target whose joins lead back to the caller: nothing is ready, or the caller waits for itself. */
  lemma {:induction false} CyclicJoin(s: Sys, t: Tid, n: nat)
    requires Inv(s) && LiveTarget(s, t) && LeadsTo(s, t, Current(s)) && Current(s) !in s.joining
    ensures JoinBegin(s, t).Some? ==>
      && Waiting(JoinBegin(s, t).value, Current(s)) && !Leads(JoinBegin(s, t).value, Current(s), n)
  {
    hide JoinsEnd, Leads, Last;
    var k: nat :| Leads(s, t, k) && Last(s, t, k) == Current(s);
    LiveIsCreated(s, t);
    RunningIsCurrent(s);
    LiveIsNotDone(s, t);
    if s.ready != [] {
      JoinBeginQueues(s, t);
      CycleNeverEnds(s, SwitchToReady(Block(s, t)).value, Current(s), t, k, n);
      hide Inv, Block, SwitchToReady, Done, Live;
    }
  }

  lemma NeverEnding(s: Sys, c: Tid)
    requires Waiting(s, c) && forall n: nat :: !Leads(s, c, n)
    ensures !JoinsEnd(s)
  {
    hide Leads;
    assert Live(s, c);
  }

  /** Joining a live thread keeps the library working if and only if the joins of the target do not lead to the caller. */
  lemma JoinExactly(s: Sys, t: Tid)
    requires Inv(s) && LiveTarget(s, t) && Current(s) !in s.joining
    ensures (JoinBegin(s, t).Some? && Inv(JoinBegin(s, t).value)) <==> !LeadsTo(s, t, Current(s))
  {
    assert s.mainQueue == [0] && Current(s) < |s.child|;
    hide Leads, LeadsTo, JoinBegin, QueuesOk, MainOk, JoinsOk, DeadOk, JoinsEnd, Runnable, LiveTarget;
    if !LeadsTo(s, t, Current(s)) {
      JoinBeginInv(s, t);
    } else if JoinBegin(s, t).Some? {
      forall n: nat { CyclicJoin(s, t, n); }
      CyclicJoin(s, t, 0);
      NeverEnding(JoinBegin(s, t).value, Current(s));
    }
  }

  lemma {:induction false} RemoveFirstMembers(q: seq<Tid>, x: Tid)
    requires NoDuplicates(q)
    ensures NoDuplicates(RemoveFirst(q, x))
    ensures forall t :: t in RemoveFirst(q, x) <==> t in q && t != x
  {
    if q != [] {
      Tail(q);
      RemoveFirstMembers(q[1..], x);
      var r := RemoveFirst(q[1..], x);
      forall j | 0 <= j < |r| ensures r[j] != q[0] {
        assert r[j] in r;
      }
    }
  }

  /** Main may also join a thread that has exited, provided that thread never waited in a join of its own. */
  ghost predicate ExitedTarget(s: Sys, t: Tid) {
    && t in s.zombies && t !in s.blocked
    && forall p :: p in s.joining ==> s.joining[p] != t
  }

  lemma JoinExitedRest(s: Sys, s': Sys, t: Tid)
    requires Inv(s) && Current(s) == 0 && 0 !in s.joining && ExitedTarget(s, t)
    requires QueuesOk(s') && s'.running == [] && s'.zombies == s.zombies && s'.ready == s.ready
    requires s'.child == s.child[0 := t] && s'.joining == s.joining[0 := t]
    requires forall x :: x in s'.blocked <==> x in s.blocked || x == 0
    requires forall x :: Runnable(s', x) <==> Runnable(s, x)
    ensures Inv(s')
    ensures forall x :: Live(s', x) <==> Live(s, x)
  {
    RunningIsCurrent(s);
    assert 0 !in s.ready;
    assert t != 0 && t < |s.child|;
    assert Created(s', s'.blocked) && Created(s, s.blocked);
    hide Runnable, NoDuplicates, QueuesOk, Created, Current, Leads;
    forall x ensures Waiting(s', x) <==> Waiting(s, x) {}
    forall x ensures Live(s', x) <==> Live(s, x) {}
    JoinsEndKept(s, s');
    hide JoinsEnd;
    hide Live, Waiting;
    assert MainOk(s');
    assert JoinsOk(s');
    assert DeadOk(s');
  }

  lemma {:induction false} JoinExitedInv(s: Sys, t: Tid)
    requires Inv(s) && Current(s) == 0 && 0 !in s.joining && ExitedTarget(s, t)
    ensures JoinBegin(s, t).Some? && Inv(JoinBegin(s, t).value)
    ensures SameFates(s, JoinBegin(s, t).value)
  {
    var s' := Block(s, t);
    RunningIsCurrent(s);
    BlockQueues(s, t);
    assert !Live(s, t);
    assert Done(s', t);
    hide NoDuplicates, Block, JoinsOk, DeadOk, Created;
    JoinExitedRest(s, s', t);
  }

  lemma {:induction false} JoinEndRest(s: Sys, s': Sys, c: Tid)
    requires Inv(s) && c in s.joining && Runnable(s, c) && QueuesOk(s')
    requires s' == s.(zombies := s'.zombies, joining := s.joining - {c})
    requires forall x :: x in s'.zombies <==> x in s.zombies && x != s.joining[c]
    ensures Inv(s')
    ensures forall x :: Live(s', x) <==> Live(s, x)
  {
    hide NoDuplicates, Leads;
    forall x ensures Runnable(s', x) <==> Runnable(s, x) {}
    hide Runnable, QueuesOk;
    forall x ensures Waiting(s', x) <==> Waiting(s, x) {}
    forall x ensures Live(s', x) <==> Live(s, x) {}
    JoinsEndKept(s, s');
    hide Live, Waiting, JoinsEnd;
    assert MainOk(s') && JoinsOk(s') && DeadOk(s');
  }

  /** Collecting the target ends the join: it was a zombie, and it alone leaves the zombies. */
  lemma {:induction false} JoinEndInv(s: Sys)
    requires Inv(s) && Current(s) in s.joining
    ensures s.joining[Current(s)] in s.zombies
    ensures Inv(JoinEnd(s))
    ensures forall t :: Live(JoinEnd(s), t) <==> Live(s, t)
    ensures forall t :: t in JoinEnd(s).zombies <==> t in s.zombies && t != s.joining[Current(s)]
  {
    var c, s' := Current(s), JoinEnd(s);
    RunningIsCurrent(s);
    RemoveFirstMembers(s.zombies, s.joining[c]);
    hide RemoveFirst, NoDuplicates, MainOk, DeadOk, JoinsEnd, Live, Waiting;
    JoinEndRest(s, s', c);
  }

  /** The thread that the search in blocked finds is the one that waits for x, stale entries notwithstanding. */
  lemma ParentIsJoiner(s: Sys, x: Tid)
    requires Inv(s) && Live(s, x)
    ensures Parent(s, x).Some? ==> Waiting(s, Parent(s, x).value) && s.joining[Parent(s, x).value] == x
    ensures Parent(s, x).None? ==> forall p :: p in s.joining ==> s.joining[p] != x
  {
    hide NoDuplicates, Runnable, MainOk;
  }

  /** No deadlock in exit: while main has not exited, a thread other than the exiting one is there to run. */
  lemma {:induction false} ExitFindsReady(s: Sys, value: int)
    requires Inv(s) && s.running != [] && s.running[0] != 0
    ensures Retire(s, value).ready != []
  {
    var x := s.running[0];
    RunningIsCurrent(s);
    var k: nat :| Leads(s, 0, k);
    var u := Last(s, 0, k);
    ChainEnds(s, 0, k);
    hide Leads, Last;
    if u !in s.ready {
      assert u == x;
      ParentIsJoiner(s, x);
      hide NoDuplicates, MainOk, DeadOk, Runnable, Parent;
    }
  }

  lemma RetireQueues(s: Sys, value: int)
    requires Inv(s) && s.running != [] && s.running[0] != 0
    ensures var s', x := Retire(s, value), s.running[0];
      && QueuesOk(s') && s'.running == [] && s'.child == s.child && s'.joining == s.joining && s'.blocked == s.blocked
      && s'.retval == s.retval[x := value]
      && (forall y :: y in s'.zombies <==> y in s.zombies || y == x)
      && (forall y: Tid :: y in s'.ready <==> (Runnable(s, y) && y != x) || Parent(s, x) == Some(y))
  {
    var x := s.running[0];
    RunningIsCurrent(s);
    assert x in s.running && Live(s, x);
    ParentIsJoiner(s, x);
    Append(s.zombies, x);
    hide Parent, JoinsOk, DeadOk, MainOk;
    if Parent(s, x).Some? {
      Append(s.ready, Parent(s, x).value);
    }
  }

  lemma {:induction false} ExitQueues(s: Sys, value: int)
    requires Inv(s) && s.running != [] && s.running[0] != 0
    ensures Exit(s, value).Some?
    ensures var s', x := Exit(s, value).value, s.running[0];
      && QueuesOk(s') && s'.running != [] && s'.child == s.child && s'.joining == s.joining && s'.blocked == s.blocked
      && s'.retval == s.retval[x := value]
      && (forall y :: y in s'.zombies <==> y in s.zombies || y == x)
      && (forall y: Tid :: Runnable(s', y) <==> (Runnable(s, y) && y != x) || Parent(s, x) == Some(y))
  {
    var x, s1 := s.running[0], Retire(s, value);
    RunningIsCurrent(s);
    assert x in s.running && Live(s, x);
    ExitFindsReady(s, value);
    RetireQueues(s, value);
    SwitchQueues(s1);
    hide Parent, Retire, NoDuplicates, Created;
  }

  /** The joins of y after x has exited: they lead where they did, or to the thread that x has woken. */
  lemma {:induction false} LeadsAfterExit(s: Sys, s': Sys, x: Tid, parent: Option<Tid>, y: Tid, k: nat)
    requires Leads(s, y, k) && y != x && s'.joining == s.joining
    requires parent.Some? ==> parent.value in s.joining && s.joining[parent.value] == x
    requires parent.None? ==> forall p :: p in s.joining ==> s.joining[p] != x
    requires forall p, q :: p in s.joining && q in s.joining && p != q ==> s.joining[p] != s.joining[q]
    requires forall z: Tid :: Runnable(s', z) <==> (Runnable(s, z) && z != x) || parent == Some(z)
    ensures exists j: nat :: Leads(s', y, j)
    decreases k
  {
    hide Runnable;
    if k == 0 || parent == Some(y) {
      assert Leads(s', y, 0);
    } else {
      LeadsAfterExit(s, s', x, parent, s.joining[y], k - 1);
      var j: nat :| Leads(s', s.joining[y], j);
      assert Leads(s', y, j + 1);
    }
  }

  lemma ExitRest(s: Sys, s': Sys, x: Tid, parent: Option<Tid>)
    requires Inv(s) && Runnable(s, x) && x != 0 && x !in s.joining
    requires parent.Some? ==> Waiting(s, parent.value) && s.joining[parent.value] == x
    requires parent.None? ==> forall p :: p in s.joining ==> s.joining[p] != x
    requires QueuesOk(s') && s'.running != [] && s'.child == s.child && s'.joining == s.joining && s'.blocked == s.blocked
    requires forall y :: y in s'.zombies <==> y in s.zombies || y == x
    requires forall y: Tid :: Runnable(s', y) <==> (Runnable(s, y) && y != x) || parent == Some(y)
    ensures Inv(s')
    ensures forall y :: Live(s', y) <==> Live(s, y) && y != x
  {
    assert Created(s', s'.blocked) && Created(s, s.blocked);
    assert s'.running != [] ==> (0 in s'.running ==> 0 !in s'.ready);
    hide Runnable, NoDuplicates, QueuesOk, Created, Leads;
    forall y ensures Live(s', y) <==> Live(s, y) && y != x {}
    assert JoinsEnd(s') by {
      hide DeadOk, MainOk, Live, Waiting;
      forall y | Live(s', y) ensures exists j: nat :: Leads(s', y, j) {
        var k: nat :| Leads(s, y, k);
        LeadsAfterExit(s, s', x, parent, y, k);
      }
    }
    hide JoinsEnd;
    assert MainOk(s');
    assert JoinsOk(s') by { hide Live; }
    assert DeadOk(s') by { hide Live; }
  }

  lemma {:induction false} ExitInv(s: Sys, value: int)
    requires Inv(s) && s.running != [] && s.running[0] != 0 && s.running[0] !in s.joining
    ensures Exit(s, value).Some? && Inv(Exit(s, value).value)
    ensures var s', x := Exit(s, value).value, s.running[0];
      && s'.retval == s.retval[x := value] && s'.child == s.child
      && (forall y :: y in s'.zombies <==> y in s.zombies || y == x)
      && (forall y :: Live(s', y) <==> Live(s, y) && y != x)
  {
    var x := s.running[0];
    assert x in s.running && Live(s, x);
    ExitQueues(s, value);
    ParentIsJoiner(s, x);
    hide Exit, Waiting, Live, NoDuplicates, QueuesOk, MainOk, JoinsOk, DeadOk, Parent;
    ExitRest(s, Exit(s, value).value, x, Parent(s, x));
  }

  /** An exit keeps the library working if and only if it is not main that exits. */
  lemma ExitExactly(s: Sys, value: int)
    requires Inv(s) && Current(s) !in s.joining
    ensures s.running != [] ==> s.running[0] < |s.retval|
    ensures (Exit(s, value).Some? && Inv(Exit(s, value).value)) <==> Current(s) != 0
  {
    RunningIsCurrent(s);
    if Current(s) != 0 {
      ExitInv(s, value);
    } else if s.running != [] {
      Append(s.zombies, 0);
      hide NoDuplicates, JoinsOk, DeadOk, JoinsEnd, Parent;
    }
  }
}
