/** Legal runs of the thread library that lead to where a call goes wrong. */
module ThreadFailures {
  import opened ThreadModel
  import opened ThreadRuns
  import opened Wrappers

  lemma AfterNext(ops: seq<Op>, op: Op)
    requires Legal(ops) && (AfterInv(ops); Enabled(After(ops), op))
    ensures Legal(ops + [op]) && (AfterInv(ops); After(ops + [op]) == Step(After(ops), op))
  {
    assert (ops + [op])[..|ops|] == ops;
    hide Inv, Enabled, Step;
  }

  /** A thread that can run is where its own joins end. */
  lemma RunnableLeads(s: Sys, t: Tid, u: Tid)
    requires Runnable(s, t) && u != t
    ensures !LeadsTo(s, t, u)
  {
    hide Runnable;
  }

  const CREATED := Sys([1, 2, 3], [], [0], [], [], [0, 0, 0, 0], [0, 0, 0, 0], map[])
  const ONE_WAITS := Sys([2, 3], [1], [0], [], [0], [3, 0, 0, 0], [0, 0, 0, 0], map[0 := 3])
  const TWO_WAIT := Sys([3], [2], [0], [], [0, 1], [3, 2, 0, 0], [0, 0, 0, 0], map[0 := 3, 1 := 2])

  const ONE := Sys([1], [], [0], [], [], [0, 0], [0, 0], map[])
  const TWO := Sys([1, 2], [], [0], [], [], [0, 0, 0], [0, 0, 0], map[])

  lemma CreatesAtWork()
    ensures CreateCall(Initial()) == ONE && CreateCall(ONE) == TWO && CreateCall(TWO) == CREATED
    ensures Current(ONE) == Current(TWO) == 0 && |ONE.child| == 2 && |TWO.child| == 3
  {
  }

  /** Creating a thread from a reached state in which main runs. */
  lemma CreateNext(ops: seq<Op>, s: Sys)
    requires Legal(ops) && After(ops) == s && s.joining == map[] && |s.child| < TID_LIMIT
    ensures Legal(ops + [DoCreate]) && After(ops + [DoCreate]) == CreateCall(s)
  {
    hide Inv, Legal, After;
    AfterInv(ops);
    AfterNext(ops, DoCreate);
  }

  /** Joining a live target from a reached state. */
  lemma JoinNext(ops: seq<Op>, s: Sys, t: Tid, s': Sys)
    requires Legal(ops) && After(ops) == s && Current(s) !in s.joining && LiveTarget(s, t) && !LeadsTo(s, t, Current(s))
    requires (AfterInv(ops); JoinBegin(s, t) == Some(s'))
    ensures Legal(ops + [DoJoin(t)]) && After(ops + [DoJoin(t)]) == s'
  {
    hide Inv, Legal, After, Live, LeadsTo, JoinBegin;
    AfterInv(ops);
    AfterNext(ops, DoJoin(t));
  }

  lemma TwoReached()
    ensures Legal([DoCreate, DoCreate]) && After([DoCreate, DoCreate]) == TWO
  {
    assert Legal([]) && After([]) == Initial() && Initial().joining == ONE.joining == TWO.joining == map[];
    CreatesAtWork();
    hide Legal, After, CreateCall;
    CreateNext([], Initial());
    assert [] + [DoCreate] == [DoCreate];
    CreateNext([DoCreate], ONE);
    assert [DoCreate] + [DoCreate] == [DoCreate, DoCreate];
  }

  lemma CreatedReached()
    ensures Legal([DoCreate, DoCreate, DoCreate]) && After([DoCreate, DoCreate, DoCreate]) == CREATED
  {
    TwoReached();
    CreatesAtWork();
    hide Legal, After, CreateCall;
    CreateNext([DoCreate, DoCreate], TWO);
    assert [DoCreate, DoCreate] + [DoCreate] == [DoCreate, DoCreate, DoCreate];
  }

  lemma BlocksAtWork()
    ensures JoinBegin(CREATED, 3) == Some(ONE_WAITS) && JoinBegin(ONE_WAITS, 2) == Some(TWO_WAIT)
  {
    var b, c := Block(CREATED, 3), Block(ONE_WAITS, 2);
    assert b == Sys([1, 2, 3], [], [0], [], [0], [3, 0, 0, 0], [0, 0, 0, 0], map[0 := 3]);
    assert c == Sys([2, 3], [], [0], [], [0, 1], [3, 2, 0, 0], [0, 0, 0, 0], map[0 := 3, 1 := 2]);
    assert 3 in b.ready && 2 in c.ready;
    hide Block;
    assert b.ready[1..] == [2, 3] && c.ready[1..] == [3] && b.running + [1] == [1] && c.running + [2] == [2];
    assert SwitchToReady(b) == Some(ONE_WAITS) && SwitchToReady(c) == Some(TWO_WAIT);
  }

  lemma TargetsAtWork()
    ensures LiveTarget(CREATED, 3) && !LeadsTo(CREATED, 3, 0)
    ensures LiveTarget(ONE_WAITS, 2) && !LeadsTo(ONE_WAITS, 2, 1)
    ensures LiveTarget(TWO_WAIT, 1) && LeadsTo(TWO_WAIT, 1, 2)
  {
    assert 3 in CREATED.ready && 2 in ONE_WAITS.ready;
    RunnableLeads(CREATED, 3, 0);
    RunnableLeads(ONE_WAITS, 2, 1);
    assert Leads(TWO_WAIT, 2, 0) && Last(TWO_WAIT, 2, 0) == 2;
    assert Leads(TWO_WAIT, 1, 1) && Last(TWO_WAIT, 1, 1) == 2;
  }

  /**
   * Main creates three threads and joins the third, the first joins the second, and the second is about to join the
   * first: a legal run, to a state in which that join leads back to its caller.
   */
  lemma CycleReached()
    ensures var ops := [DoCreate, DoCreate, DoCreate, DoJoin(3), DoJoin(2)];
      && Legal(ops) && After(ops) == TWO_WAIT && Current(TWO_WAIT) == 2
      && LiveTarget(TWO_WAIT, 1) && LeadsTo(TWO_WAIT, 1, 2)
  {
    var ops := [DoCreate, DoCreate, DoCreate];
    CreatedReached();
    BlocksAtWork();
    TargetsAtWork();
    hide Inv, Legal, After, LiveTarget, LeadsTo, ExitedTarget, JoinBegin;
    JoinNext(ops, CREATED, 3, ONE_WAITS);
    JoinNext(ops + [DoJoin(3)], ONE_WAITS, 2, TWO_WAIT);
    assert ops + [DoJoin(3)] + [DoJoin(2)] == [DoCreate, DoCreate, DoCreate, DoJoin(3), DoJoin(2)];
  }

  // Main

  /** Collecting the target of a join that is over. */
  lemma CollectNext(ops: seq<Op>, s: Sys)
    requires Legal(ops) && After(ops) == s && Current(s) in s.joining
    ensures Legal(ops + [DoCollect]) && After(ops + [DoCollect]) == JoinEnd(s)
  {
    hide Inv, Legal, After, JoinEnd;
    AfterInv(ops);
    AfterNext(ops, DoCollect);
  }

  /** An exit by another thread than main. */
  lemma ExitNext(ops: seq<Op>, s: Sys, value: int, s': Sys)
    requires Legal(ops) && After(ops) == s && Current(s) !in s.joining && s.running != [] && s.running[0] != 0
    requires s.running[0] < |s.retval| && Exit(s, value) == Some(s')
    ensures Legal(ops + [DoExit(value)]) && After(ops + [DoExit(value)]) == s'
  {
    hide Inv, Legal, After, Exit;
    AfterInv(ops);
    AfterNext(ops, DoExit(value));
  }

  /** Main yields while its first thread is ready: there is nothing in running to take out. */
  lemma MainCannotYield()
    ensures Legal([DoCreate]) && After([DoCreate]) == ONE && Current(ONE) == 0 && Yield(ONE).None?
  {
    assert Legal([]) && After([]) == Initial();
    CreatesAtWork();
    hide Legal, After, CreateCall;
    CreateNext([], Initial());
    assert [] + [DoCreate] == [DoCreate];
  }

  const MAIN_WAITS := Sys([], [1], [0], [], [0], [1, 0], [0, 0], map[0 := 1])
  const ONE_EXITED := Sys([], [0], [0], [1], [0], [1, 0], [0, 7], map[0 := 1])
  const ONE_COLLECTED := Sys([], [0], [0], [], [0], [1, 0], [0, 7], map[])
  const MAIN_RUNS := Sys([2], [0], [0], [], [0], [1, 0, 0], [0, 7, 0], map[])

  lemma MainJoinsOne()
    ensures LiveTarget(ONE, 1) && !LeadsTo(ONE, 1, 0) && JoinBegin(ONE, 1) == Some(MAIN_WAITS)
  {
    assert 1 in ONE.ready;
    RunnableLeads(ONE, 1, 0);
    var b := Block(ONE, 1);
    assert b == Sys([1], [], [0], [], [0], [1, 0], [0, 0], map[0 := 1]);
    assert 1 in b.ready;
    hide Block, LeadsTo;
    assert b.ready[1..] == [] && b.running + [1] == [1];
  }

  lemma OneExits()
    ensures Exit(MAIN_WAITS, 7) == Some(ONE_EXITED) && JoinEnd(ONE_EXITED) == ONE_COLLECTED
    ensures CreateCall(ONE_COLLECTED) == MAIN_RUNS
  {
    var r := Retire(MAIN_WAITS, 7);
    assert r == Sys([0], [], [0], [1], [0], [1, 0], [0, 7], map[0 := 1]);
    hide Retire;
    assert r.ready[1..] == [] && r.running + [0] == [0];
    assert RemoveFirst([1], 1) == [];
    assert ONE_EXITED.joining - {0} == map[];
  }

  /** Main in running, after a join, yields to a second thread: it is not live any more. */
  lemma MainIsLost()
    ensures var ops := [DoCreate, DoJoin(1), DoExit(7), DoCollect, DoCreate];
      Legal(ops) && After(ops) == MAIN_RUNS && Current(MAIN_RUNS) == 0
      && Yield(MAIN_RUNS).Some? && !Live(Yield(MAIN_RUNS).value, 0)
  {
    MainCannotYield();
    MainJoinsOne();
    OneExits();
    hide Legal, After, LiveTarget, LeadsTo, JoinBegin, JoinEnd, Exit, CreateCall;
    JoinNext([DoCreate], ONE, 1, MAIN_WAITS);
    ExitNext([DoCreate] + [DoJoin(1)], MAIN_WAITS, 7, ONE_EXITED);
    CollectNext([DoCreate] + [DoJoin(1)] + [DoExit(7)], ONE_EXITED);
    CreateNext([DoCreate] + [DoJoin(1)] + [DoExit(7)] + [DoCollect], ONE_COLLECTED);
    assert [DoCreate] + [DoJoin(1)] + [DoExit(7)] + [DoCollect] + [DoCreate]
        == [DoCreate, DoJoin(1), DoExit(7), DoCollect, DoCreate];
  }

  // Joining a thread that has exited

  const MAIN_WAITS_TWO := Sys([2], [1], [0], [], [0], [2, 0, 0], [0, 0, 0], map[0 := 2])
  const TWO_RUNS := Sys([], [2], [0], [1], [0], [2, 0, 0], [0, 7, 0], map[0 := 2])

  lemma MainJoinsTwo()
    ensures LiveTarget(TWO, 2) && !LeadsTo(TWO, 2, 0) && JoinBegin(TWO, 2) == Some(MAIN_WAITS_TWO)
    ensures Exit(MAIN_WAITS_TWO, 7) == Some(TWO_RUNS)
  {
    assert 2 in TWO.ready;
    RunnableLeads(TWO, 2, 0);
    var b, r := Block(TWO, 2), Retire(MAIN_WAITS_TWO, 7);
    assert b == Sys([1, 2], [], [0], [], [0], [2, 0, 0], [0, 0, 0], map[0 := 2]);
    assert r == Sys([2], [], [0], [1], [0], [2, 0, 0], [0, 7, 0], map[0 := 2]);
    assert 2 in b.ready;
    hide Block, Retire, LeadsTo;
    assert b.ready[1..] == [2] && b.running + [1] == [1] && r.ready[1..] == [] && r.running + [2] == [2];
  }

  /** The second thread joins the first, which has exited: the invariant does not survive. */
  lemma ExitedTargetFails()
    ensures var ops := [DoCreate, DoCreate, DoJoin(2), DoExit(7)];
      Legal(ops) && After(ops) == TWO_RUNS && Current(TWO_RUNS) == 2 && 1 in TWO_RUNS.zombies
      && !(JoinBegin(TWO_RUNS, 1).Some? && Inv(JoinBegin(TWO_RUNS, 1).value))
  {
    TwoReached();
    MainJoinsTwo();
    hide Inv, Legal, After, LiveTarget, LeadsTo, JoinBegin, Exit;
    JoinNext([DoCreate, DoCreate], TWO, 2, MAIN_WAITS_TWO);
    ExitNext([DoCreate, DoCreate] + [DoJoin(2)], MAIN_WAITS_TWO, 7, TWO_RUNS);
    assert [DoCreate, DoCreate] + [DoJoin(2)] + [DoExit(7)] == [DoCreate, DoCreate, DoJoin(2), DoExit(7)];
    AfterInv([DoCreate, DoCreate, DoJoin(2), DoExit(7)]);
    JoinExitedExactly(TWO_RUNS, 1);
  }
}
