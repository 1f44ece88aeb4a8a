/** Whole runs of the thread library: no deadlock, return values delivered, round-robin order. */
module ThreadRuns {
  import opened ThreadModel

  /** What the executing thread can do; a join is two steps, before and after the caller is suspended. */
  datatype Op = DoCreate | DoYield | DoJoin(target: Tid) | DoCollect | DoExit(value: int)

  /** The calls that keep within the states the library handles. */
  ghost predicate Enabled(s: Sys, op: Op)
    requires Inv(s)
  {
    if Current(s) in s.joining then op == DoCollect
    else match op
      case DoCreate => |s.child| < TID_LIMIT
      case DoYield => s.ready == [] || (s.running != [] && s.running[0] != 0)
      case DoJoin(t) => t == 0 || (LiveTarget(s, t) && !LeadsTo(s, t, Current(s))) || (Current(s) == 0 && ExitedTarget(s, t))
      case DoCollect => false
      case DoExit(_) => s.running != [] && s.running[0] != 0
  }

  ghost function Step(s: Sys, op: Op): (s': Sys)
    requires Inv(s) && Enabled(s, op)
    ensures Inv(s')
  {
    match op
    case DoCreate => CreateExactly(s); CreateCall(s)
    case DoYield => YieldInv(s); Yield(s).value
    case DoJoin(t) =>
      if t == 0 then s
      else if LiveTarget(s, t) then JoinBeginInv(s, t); JoinBegin(s, t).value
      else JoinExitedInv(s, t); JoinBegin(s, t).value
    case DoCollect => JoinEndInv(s); JoinEnd(s)
    case DoExit(v) => ExitInv(s, v); Exit(s, v).value
  }

  /** Runs from the initial state in which every call is enabled, and the state that each one reaches. */
  ghost predicate Legal(ops: seq<Op>)
    decreases |ops|, 0
  {
    if ops == [] then true
    else
      var before := ops[..|ops| - 1];
      Legal(before) && (AfterInv(before); Enabled(After(before), ops[|ops| - 1]))
  }

  ghost function After(ops: seq<Op>): Sys
    requires Legal(ops)
    decreases |ops|, 1
  {
    if ops == [] then Initial()
    else
      var before := ops[..|ops| - 1];
      AfterInv(before);
      Step(After(before), ops[|ops| - 1])
  }

  /** Every state of a legal run satisfies the invariant. */
  lemma {:induction false} AfterInv(ops: seq<Op>)
    requires Legal(ops)
    ensures Inv(After(ops))
    decreases |ops|, 2
  {
    hide Inv, Enabled;
    if ops == [] {
      InitialInv();
    } else {
      AfterInv(ops[..|ops| - 1]);
    }
  }

  /** In every reachable state a thread is queued to run at most once, and whoever must switch finds a thread. */
  lemma {:induction false} NoDeadlock(ops: seq<Op>, t: Tid, value: int)
    requires Legal(ops)
    ensures var s := After(ops);
      && |s.running| <= 1 && NoDuplicates(s.running + s.ready)
      && (LiveTarget(s, t) && Current(s) !in s.joining && !LeadsTo(s, t, Current(s)) ==> s.ready != [])
      && (s.running != [] && s.running[0] != 0 ==> Retire(s, value).ready != [])
      && (Waiting(s, 0) ==> s.running != [])
  {
    var s := After(ops);
    AfterInv(ops);
    hide After, JoinsOk, DeadOk, Retire;
    assert NoDuplicates(s.running + s.ready) by {
      forall i, j | 0 <= i < j < |s.running + s.ready| ensures (s.running + s.ready)[i] != (s.running + s.ready)[j] {
        if i < |s.running| <= j {
          assert s.running[i] in s.running && s.ready[j - |s.running|] in s.ready;
        }
      }
    }
    hide NoDuplicates, Live;
    if LiveTarget(s, t) && !LeadsTo(s, t, Current(s)) { JoinFindsReady(s, t); }
    if s.running != [] && s.running[0] != 0 { ExitFindsReady(s, value); }
  }

  /** The value that each thread passed to exit, read off the calls alone. */
  ghost function ExitLog(ops: seq<Op>): map<Tid, int>
    requires Legal(ops)
    decreases |ops|
  {
    if ops == [] then map[]
    else
      var init, op := ops[..|ops| - 1], ops[|ops| - 1];
      Extend(After(init), op, ExitLog(init))
  }

  ghost function Extend(s: Sys, op: Op, log: map<Tid, int>): map<Tid, int> {
    if op.DoExit? then log[Current(s) := op.value] else log
  }

  ghost predicate LogOk(s: Sys, log: map<Tid, int>)
    requires Inv(s)
  {
    && (forall t :: t in s.zombies ==> t in log && t < |s.retval| && s.retval[t] == log[t])
    && (forall t :: t in log ==> t < |s.child| && !Live(s, t))
  }

  lemma {:induction false} JoinKeepsLog(s: Sys, t: Tid, log: map<Tid, int>)
    requires Inv(s) && Enabled(s, DoJoin(t)) && LogOk(s, log)
    ensures LogOk(Step(s, DoJoin(t)), log)
  {
    if t == 0 {
    } else if LiveTarget(s, t) {
      JoinBeginInv(s, t);
    } else {
      JoinExitedInv(s, t);
    }
    hide Inv, JoinBegin, Live;
  }

  lemma ExitExtendsLog(s: Sys, v: int, log: map<Tid, int>)
    requires Inv(s) && Enabled(s, DoExit(v)) && LogOk(s, log)
    ensures Current(s) !in log
    ensures LogOk(Step(s, DoExit(v)), log[Current(s) := v])
  {
    RunningIsCurrent(s);
    assert Live(s, Current(s));
    hide Exit, Runnable, Waiting, Live;
    ExitInv(s, v);
    hide Inv;
  }

  lemma {:induction false} StepKeepsLog(s: Sys, op: Op, log: map<Tid, int>)
    requires Inv(s) && Enabled(s, op) && LogOk(s, log)
    ensures LogOk(Step(s, op), Extend(s, op, log))
  {
    hide Inv, Live, Runnable, Waiting;
    match op
    case DoCreate => CreateInv(s);
    case DoYield => YieldInv(s);
    case DoJoin(t) => JoinKeepsLog(s, t, log);
    case DoCollect => JoinEndInv(s);
    case DoExit(v) => ExitExtendsLog(s, v, log);
  }

  lemma {:induction false} LogIsKept(ops: seq<Op>)
    requires Legal(ops)
    ensures (AfterInv(ops); LogOk(After(ops), ExitLog(ops)))
  {
    if ops != [] {
      var init := ops[..|ops| - 1];
      LogIsKept(init);
      AfterInv(init);
      StepKeepsLog(After(init), ops[|ops| - 1], ExitLog(init));
    }
  }

  /**
   * A join that completes hands over the value that its target passed to exit, and removes that record and
   * no other from the zombies.
   */
  lemma {:induction false} JoinDelivers(ops: seq<Op>)
    requires Legal(ops) && Current(After(ops)) in After(ops).joining
    ensures var s := After(ops); var t := s.joining[Current(s)];
      && t in ExitLog(ops) && t < |s.retval| && s.retval[t] == ExitLog(ops)[t]
      && t in s.zombies && forall u :: u in JoinEnd(s).zombies <==> u in s.zombies && u != t
  {
    AfterInv(ops);
    LogIsKept(ops);
    hide After, ExitLog;
    JoinEndInv(After(ops));
  }

  /** No thread exits twice, so the log records the one value that each thread exited with. */
  lemma {:induction false} ExitIsFinal(ops: seq<Op>, value: int)
    requires Legal(ops) && (AfterInv(ops); Enabled(After(ops), DoExit(value)))
    ensures Current(After(ops)) !in ExitLog(ops)
  {
    AfterInv(ops);
    LogIsKept(ops);
    ExitExtendsLog(After(ops), value, ExitLog(ops));
  }

  /**
   * Joining a thread that has exited keeps the library working exactly when main is the caller and the
   * target never waited: otherwise a stale entry in blocked suspends the caller for good, or the caller is
   * taken out of running while it goes on executing.
   */
  lemma JoinExitedExactly(s: Sys, t: Tid)
    requires Inv(s) && t in s.zombies && Current(s) !in s.joining
    requires forall p :: p in s.joining ==> s.joining[p] != t
    ensures (JoinBegin(s, t).Some? && Inv(JoinBegin(s, t).value)) <==> (Current(s) == 0 && t !in s.blocked)
  {
    var c := Current(s);
    if c == 0 && t !in s.blocked {
      JoinExitedInv(s, t);
    } else {
      RunningIsCurrent(s);
      Append(s.blocked, c);
      var s1 := Block(s, t);
      assert s1.running == [];
      assert t != c;
      if Done(s1, t) {
        ExitedLeavesMain(s, s1, t);
      } else if s1.ready != [] {
        CallerIsLost(s, SwitchToReady(s1).value, t);
      }
    }
  }

  lemma ExitedLeavesMain(s: Sys, s': Sys, t: Tid)
    requires Inv(s) && Current(s) != 0 && s' == Block(s, t) && s'.running == [] && t in s.zombies
    ensures !Inv(s')
  {
    hide NoDuplicates;
    RunningIsCurrent(s);
    assert !Runnable(s, 0) || 0 in s.ready;
    if 0 !in s.ready {
      assert Waiting(s, 0) && s'.joining[0] == s.joining[0];
      assert Runnable(s', 0) && Live(s, s.joining[0]);
    }
  }

  /** The caller waits for a thread that will not exit again. */
  lemma CallerIsLost(s: Sys, s': Sys, t: Tid)
    requires Inv(s) && t in s.zombies && s.ready != [] && s' == SwitchToReady(Block(s, t)).value
    ensures Waiting(s', Current(s)) && s'.joining[Current(s)] == t && t in s'.zombies
    ensures !Inv(s')
  {
    RunningIsCurrent(s);
    Tail(s.ready);
    var c := Current(s);
    assert s'.running == [s.ready[0]] && c !in s.ready && c !in s'.ready;
    assert s.ready[0] in s.ready;
    hide NoDuplicates, Block;
  }

  /**
   * A yield keeps the library working exactly when it is not main that gives way: main while running is empty has
   * no entry there to take out, and main out of running would never run again.
   */
  lemma YieldExactly(s: Sys)
    requires Inv(s) && Current(s) !in s.joining
    ensures (Yield(s).Some? && Inv(Yield(s).value)) <==> (s.ready == [] || Current(s) != 0)
    ensures Yield(s).None? <==> s.ready != [] && s.running == []
    ensures s.ready != [] && s.running != [] && Current(s) == 0 ==> !Live(Yield(s).value, 0)
  {
    hide JoinsEnd;
    if s.ready == [] || Current(s) != 0 {
      YieldInv(s);
    } else if s.running != [] {
      RunningIsCurrent(s);
      Tail(s.ready);
      assert 0 in s.running && s.ready[0] in s.ready;
      var s' := Yield(s).value;
      assert s'.running == [s.ready[0]] && s'.ready == s.ready[1..];
      hide NoDuplicates, JoinsOk, DeadOk;
    }
  }

  // Round robin

  ghost function Yields(s: Sys, k: nat): (s': Sys)
    requires |s.running| == 1
    ensures |s'.running| == 1
  {
    if k == 0 then s else Yield(Yields(s, k - 1)).value
  }

  /** The running thread followed by the ready ones. */
  ghost function Line(s: Sys): seq<Tid> {
    s.running + s.ready
  }

  /** While only threads other than main yield, k yields rotate the line by k. */
  lemma {:induction false} YieldsRotate(s: Sys, k: nat)
    requires |s.running| == 1 && 0 !in Line(s) && k <= |Line(s)|
    ensures Line(Yields(s, k)) == Line(s)[k..] + Line(s)[..k]
    ensures Yields(s, k) == s.(running := Yields(s, k).running, ready := Yields(s, k).ready)
  {
    hide Line, Yield;
    var line := Line(s);
    if k == 0 {
      assert line[0..] + line[..0] == line;
    } else {
      YieldsRotate(s, k - 1);
      var s1 := Yields(s, k - 1);
      assert line[k - 1] in line;
      LineHead(s1);
      YieldRotatesOnce(s1);
      RotateOnce(line, k);
    }
  }

  lemma LineHead(s: Sys)
    requires s.running != []
    ensures Line(s) != [] && Line(s)[0] == s.running[0]
  {
  }

  lemma RotateOnce(line: seq<Tid>, k: nat)
    requires 0 < k <= |line|
    ensures var q := line[k - 1..] + line[..k - 1];
      q[0] == line[k - 1] && q[1..] + [q[0]] == line[k..] + line[..k]
  {
  }

  lemma YieldRotatesOnce(s: Sys)
    requires |s.running| == 1 && s.running[0] != 0
    ensures Yield(s).Some? && Line(Yield(s).value) == Line(s)[1..] + [Line(s)[0]]
    ensures Yield(s).value == s.(running := Yield(s).value.running, ready := Yield(s).value.ready)
  {
    var line := Line(s);
    if s.ready == [] {
      assert line == [s.running[0]];
    } else {
      assert Yield(s).value.running == [s.ready[0]];
      assert line[1..] == s.ready;
    }
  }

  /** The thread at position i of the ready queue runs after exactly i + 1 yields, and a full cycle restores the state. */
  lemma {:induction false} RoundRobin(s: Sys, i: nat)
    requires |s.running| == 1 && 0 !in Line(s)
    ensures i < |s.ready| ==> Yields(s, i + 1).running == [s.ready[i]]
    ensures Yields(s, |s.ready| + 1) == s
  {
    var line, n := Line(s), |s.ready| + 1;
    YieldsRotate(s, n);
    assert line[n..] + line[..n] == line;
    var whole := Yields(s, n);
    assert whole.running == Line(whole)[..1] && whole.ready == Line(whole)[1..];
    assert s.running == line[..1] && s.ready == line[1..];
    if i < |s.ready| {
      YieldsRotate(s, i + 1);
      var s' := Yields(s, i + 1);
      assert s'.running[0] == Line(s')[0] == line[i + 1] == s.ready[i];
    }
  }
}
