/** The order in which threads run: first come, first served, through every operation and every run. */
module ThreadOrder {
  import opened ThreadModel
  import opened ThreadRuns
  import opened Wrappers

  /** The thread that waits for x, if there is one. */
  ghost function Waiter(s: Sys, x: Tid): (r: Option<Tid>)
    ensures r.Some? ==> r.value in s.joining && s.joining[r.value] == x
    ensures r.None? ==> forall p :: p in s.joining ==> s.joining[p] != x
  {
    if p: Tid :| p in s.joining && s.joining[p] == x then Some(p) else None
  }

  /** The threads that an operation of the current thread makes ready, in order. */
  ghost function Newcomers(s: Sys, op: Op): seq<Tid> {
    match op
    case DoCreate => [|s.child|]
    case DoYield => if s.ready == [] then [] else [Current(s)]
    case DoExit(_) => if Waiter(s, Current(s)).Some? then [Waiter(s, Current(s)).value] else []
    case DoJoin(_) => []
    case DoCollect => []
  }

  /** The operation gives the processor to another thread. */
  ghost predicate Switches(s: Sys, op: Op) {
    match op
    case DoCreate => false
    case DoYield => s.ready != []
    case DoExit(_) => true
    case DoJoin(t) => t != 0 && LiveTarget(s, t)
    case DoCollect => false
  }

  // One operation

  lemma JoinerIsWaiter(s: Sys, x: Tid)
    requires Inv(s) && Live(s, x)
    ensures Parent(s, x) == Waiter(s, x)
  {
    ParentIsJoiner(s, x);
    hide Live, Waiting, Parent, NoDuplicates, QueuesOk, MainOk, DeadOk, JoinsEnd;
  }

  /**
   * After an exit the thread that waited for it, if there is one, is behind all ready threads, and the first thread
   * of that line runs. The value is stored, and the exiting thread is the last of the zombies.
   */
  lemma ExitOrder(s: Sys, value: int)
    requires Inv(s) && s.running != [] && s.running[0] != 0 && s.running[0] !in s.joining
    ensures var x := s.running[0]; var line := s.ready + Newcomers(s, DoExit(value));
      && line != [] && x < |s.retval|
      && Exit(s, value) == Some(s.(running := [line[0]], ready := line[1..], zombies := s.zombies + [x],
                                   retval := s.retval[x := value]))
  {
    var x := s.running[0];
    assert x in s.running && Live(s, x);
    RunningIsCurrent(s);
    JoinerIsWaiter(s, x);
    ExitFindsReady(s, value);
    hide Live, Parent, NoDuplicates, MainOk, JoinsOk, DeadOk, JoinsEnd, Waiter;
    assert s.running[1..] == [];
    assert s.ready + [] == s.ready;
    var s1 := Retire(s, value);
    assert s1 == s.(running := [], ready := s.ready + Newcomers(s, DoExit(value)), zombies := s.zombies + [x],
                    retval := s.retval[x := value]);
    hide Retire, Newcomers, Inv, Created;
    assert [] + [s1.ready[0]] == [s1.ready[0]];
  }

  /** A join of a live thread blocks the caller behind all blocked threads, and the first ready thread runs. */
  lemma JoinOrder(s: Sys, t: Tid)
    requires Inv(s) && LiveTarget(s, t) && !LeadsTo(s, t, Current(s)) && Current(s) !in s.joining
    ensures var c := Current(s);
      && s.ready != [] && c < |s.child|
      && JoinBegin(s, t) == Some(s.(running := [s.ready[0]], ready := s.ready[1..], blocked := s.blocked + [c],
                                    child := s.child[c := t], joining := s.joining[c := t]))
  {
    RunningIsCurrent(s);
    LiveIsNotDone(s, t);
    JoinFindsReady(s, t);
    hide Live, LiveTarget, LeadsTo, NoDuplicates, MainOk, JoinsOk, DeadOk, JoinsEnd, Done;
    assert s.running != [] ==> s.running[1..] == [];
    var s1, c := Block(s, t), Current(s);
    assert s1 == s.(running := [], blocked := s.blocked + [c], child := s.child[c := t], joining := s.joining[c := t]);
    hide Block, Inv, Created, Current;
    assert [] + [s.ready[0]] == [s.ready[0]];
  }

  /** A join of an exited thread by main takes main out of running and blocks it, and main goes on. */
  lemma JoinExitedOrder(s: Sys, t: Tid)
    requires Inv(s) && Current(s) == 0 && 0 !in s.joining && ExitedTarget(s, t)
    ensures 0 < |s.child|
    ensures JoinBegin(s, t) == Some(s.(running := [], blocked := s.blocked + [0], child := s.child[0 := t],
                                       joining := s.joining[0 := t]))
  {
    RunningIsCurrent(s);
    var s' := Block(s, t);
    Append(s.blocked, 0);
    assert !Live(s, t);
    assert s.running != [] ==> s.running[1..] == [];
    assert Done(s', t);
    hide Live, ExitedTarget, NoDuplicates, MainOk, JoinsOk, DeadOk, JoinsEnd, Done;
  }

  /** A new thread is behind all ready threads, or alone with main when the identifiers have run out. */
  lemma CreateOrder(s: Sys)
    requires Inv(s) && |s.child| <= TID_LIMIT
    ensures CreateCall(s) ==
      if |s.child| < TID_LIMIT then s.(ready := s.ready + [|s.child|], child := s.child + [0], retval := s.retval + [0])
      else Sys([1], [], [0], [], [], [0, 0], [0, 0], map[])
  {
    hide Inv, JoinsEnd;
    assert |s.child| > 0 by { HasMain(s); }
  }

  lemma HasMain(s: Sys)
    requires Inv(s)
    ensures |s.child| > 0
  {
    hide NoDuplicates, MainOk, JoinsOk, DeadOk, JoinsEnd;
  }

  /** A yield puts the caller behind all ready threads, or into the main queue if it is main, and the first of them runs. */
  lemma YieldOrder(s: Sys)
    requires Inv(s) && s.ready != [] && s.running != []
    ensures Yield(s) == Some(
      if Current(s) != 0 then s.(running := [s.ready[0]], ready := s.ready[1..] + [Current(s)])
      else s.(running := [s.ready[0]], ready := s.ready[1..], mainQueue := [0, 0]))
  {
    RunningIsCurrent(s);
    hide NoDuplicates, MainOk, JoinsOk, DeadOk, JoinsEnd;
    hide Inv, Created;
    assert s.running[1..] + [s.ready[0]] == [s.ready[0]];
    assert s.mainQueue + [0] == [0, 0];
  }

  lemma NoYield(s: Sys)
    requires s.ready == []
    ensures Yield(s) == Some(s)
  {
  }

  lemma DeadIsNotTarget(s: Sys, t: Tid)
    requires Inv(s) && ExitedTarget(s, t)
    ensures !LiveTarget(s, t)
  {
    hide Live, NoDuplicates, MainOk, JoinsOk, JoinsEnd;
  }

  /** Every operation appends to the line of the ready threads, and a switch takes the first one off it. */
  lemma StepOrder(s: Sys, op: Op)
    requires Inv(s) && Enabled(s, op)
    ensures var line, s' := s.ready + Newcomers(s, op), Step(s, op);
      if Switches(s, op) then line != [] && Current(s') == line[0] && s'.ready == line[1..]
      else Current(s') == Current(s) && s'.ready == line
  {
    hide Inv, LiveTarget, LeadsTo, ExitedTarget, JoinBegin, Exit, Yield, CreateCall, Waiter;
    match op
    case DoCreate => CreateOrder(s);
    case DoYield =>
      if s.ready != [] {
        YieldOrder(s);
        assert s.ready + [Current(s)] == [s.ready[0]] + (s.ready[1..] + [Current(s)]);
      } else {
        NoYield(s);
        assert s.ready + [] == s.ready;
      }
    case DoJoin(t) =>
      assert s.ready + [] == s.ready;
      if t != 0 && LiveTarget(s, t) {
        if ExitedTarget(s, t) { DeadIsNotTarget(s, t); }
        JoinOrder(s, t);
      } else if t != 0 {
        JoinExitedOrder(s, t);
      }
    case DoCollect => assert s.ready + [] == s.ready;
    case DoExit(v) => ExitOrder(s, v);
  }

  // Whole runs

  /** All threads that have become ready, in the order in which they did. */
  ghost function Arrivals(ops: seq<Op>): seq<Tid>
    requires Legal(ops)
    decreases |ops|
  {
    if ops == [] then []
    else
      var init := ops[..|ops| - 1];
      Arrivals(init) + Newcomers(After(init), ops[|ops| - 1])
  }

  /** How often the processor has been given to another thread. */
  ghost function Switched(ops: seq<Op>): nat
    requires Legal(ops)
    decreases |ops|
  {
    if ops == [] then 0
    else
      var init := ops[..|ops| - 1];
      Switched(init) + if Switches(After(init), ops[|ops| - 1]) then 1 else 0
  }

  /** The thread that was given the processor last; at first, main has it. */
  ghost predicate ServedTo(s: Sys, arrivals: seq<Tid>, k: nat) {
    && k <= |arrivals| && s.ready == arrivals[k..]
    && Current(s) == if k == 0 then 0 else arrivals[k - 1]
  }

  lemma NextServed(s: Sys, s': Sys, arrivals: seq<Tid>, k: nat, more: seq<Tid>, switch: bool)
    requires ServedTo(s, arrivals, k)
    requires var line := s.ready + more;
      if switch then line != [] && Current(s') == line[0] && s'.ready == line[1..]
      else Current(s') == Current(s) && s'.ready == line
    ensures ServedTo(s', arrivals + more, if switch then k + 1 else k)
  {
    var all := arrivals + more;
    assert all[k..] == s.ready + more;
    if switch {
      assert all[k + 1..] == all[k..][1..];
    } else if k > 0 {
      assert all[k - 1] == arrivals[k - 1];
    }
  }

  /**
   * First come, first served, over every run: the threads get the processor in exactly the order in which they became
   * ready, and those that have not had it yet are the ready queue.
   */
  lemma {:induction false} ServedInOrder(ops: seq<Op>)
    requires Legal(ops)
    ensures var s, k := After(ops), Switched(ops);
      && k <= |Arrivals(ops)| && s.ready == Arrivals(ops)[k..]
      && Current(s) == if k == 0 then 0 else Arrivals(ops)[k - 1]
  {
    hide Inv, Enabled, Step, Newcomers, Switches;
    if ops != [] {
      var init, op := ops[..|ops| - 1], ops[|ops| - 1];
      AfterInv(init);
      ServedInOrder(init);
      StepOrder(After(init), op);
      NextServed(After(init), After(ops), Arrivals(init), Switched(init), Newcomers(After(init), op), Switches(After(init), op));
    }
  }

  lemma LegalPrefix(ops: seq<Op>, more: seq<Op>)
    requires Legal(ops + more) && more != []
    ensures Legal(ops + more[..|more| - 1])
    ensures (ops + more)[..|ops + more| - 1] == ops + more[..|more| - 1]
  {
    assert (ops + more)[..|ops + more| - 1] == ops + more[..|more| - 1];
  }

  /** What has happened stays: later operations only add arrivals and switches. */
  lemma {:induction false} ArrivalsGrow(ops: seq<Op>, more: seq<Op>)
    requires Legal(ops + more)
    ensures Legal(ops) && Arrivals(ops) <= Arrivals(ops + more) && Switched(ops) <= Switched(ops + more)
    decreases |more|
  {
    hide Newcomers, Switches;
    if more == [] {
      assert ops + more == ops;
    } else {
      LegalPrefix(ops, more);
      ArrivalsGrow(ops, more[..|more| - 1]);
    }
  }

  lemma InLine(a: seq<Tid>, b: seq<Tid>, k: nat, l: nat, i: nat)
    requires a <= b && k <= l <= |b| && k + i < |a|
    ensures l == k + i + 1 ==> b[l - 1] == a[k..][i]
    ensures l <= k + i ==> i - (l - k) < |b[l..]| && b[l..][i - (l - k)] == a[k..][i]
  {
    assert b[k + i] == a[k + i];
  }

  /** A ready thread runs after exactly as many switches as its position says, whatever the threads do in between. */
  lemma ReadyThreadRuns(ops: seq<Op>, more: seq<Op>, i: nat)
    requires Legal(ops + more) && Legal(ops) && i < |After(ops).ready|
    ensures Switched(ops + more) == Switched(ops) + i + 1 ==> Current(After(ops + more)) == After(ops).ready[i]
    ensures Switched(ops + more) <= Switched(ops) + i ==>
      var k := Switched(ops + more) - Switched(ops);
      0 <= k && i - k < |After(ops + more).ready| && After(ops + more).ready[i - k] == After(ops).ready[i]
  {
    hide *;
    ArrivalsGrow(ops, more);
    ServedInOrder(ops);
    ServedInOrder(ops + more);
    InLine(Arrivals(ops), Arrivals(ops + more), Switched(ops), Switched(ops + more), i);
  }
}
