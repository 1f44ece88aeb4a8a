/** The thread library over its five queues, refined to the state machine on thread identifiers. */
module UThread {
  import opened Queue
  import opened Wrappers
  import M = ThreadModel

  class Thread {
    const tid: nat
    var tidChild: nat
    var retval: int

    constructor (tid: nat)
      ensures this.tid == tid && tidChild == 0 && retval == 0
    {
      this.tid := tid;
      tidChild := 0;
      retval := 0;
    }
  }

  ghost function Tids(q: seq<Thread>): (s: seq<nat>)
    ensures |s| == |q|
    ensures forall i :: 0 <= i < |q| ==> s[i] == q[i].tid
  {
    seq(|q|, i requires 0 <= i < |q| => q[i].tid)
  }

  /** The records of q are those that have their identifiers. */
  ghost predicate Recorded(threads: seq<Thread>, q: seq<Thread>) {
    forall t :: t in q ==> t.tid < |threads| && threads[t.tid] == t
  }

  lemma StillRecorded(threads: seq<Thread>, q: seq<Thread>, t: Thread)
    requires Recorded(threads, q)
    ensures Recorded(threads + [t], q)
  {
  }

  /** No two of the sets share an object. */
  ghost predicate Separate(a: set<object>, b: set<object>, c: set<object>, d: set<object>, e: set<object>) {
    && a !! b && a !! c && a !! d && a !! e
    && b !! c && b !! d && b !! e
    && c !! d && c !! e && d !! e
  }

  /** The five queues by name, and the same queues of the abstract state. */
  datatype Which = Ready | Running | Main | Zombies | Blocked

  ghost function Get(s: M.Sys, w: Which): seq<nat> {
    match w
    case Ready => s.ready
    case Running => s.running
    case Main => s.mainQueue
    case Zombies => s.zombies
    case Blocked => s.blocked
  }

  ghost function Put(s: M.Sys, w: Which, ids: seq<nat>): M.Sys {
    match w
    case Ready => s.(ready := ids)
    case Running => s.(running := ids)
    case Main => s.(mainQueue := ids)
    case Zombies => s.(zombies := ids)
    case Blocked => s.(blocked := ids)
  }

  class Library {
    var queue: Queue<Thread>
    var running: Queue<Thread>
    var mainQueue: Queue<Thread>
    var zombies: Queue<Thread>
    var blocked: Queue<Thread>
    var tidIdx: nat
    /** Every record created since the library last started, at the index of its identifier. */
    ghost var threads: seq<Thread>
    /** The threads inside join, with their targets: the locals of the suspended calls. */
    ghost var joining: map<nat, nat>

    ghost function Records(): set<object>
      reads this
    {
      set t | t in threads
    }

    ghost function Footprint(): set<object>
      reads this, queue, running, mainQueue, zombies, blocked
    {
      {this} + queue.Repr + running.Repr + mainQueue.Repr + zombies.Repr + blocked.Repr + Records()
    }

    /** The library consists of the objects of f and of new ones. */
    twostate predicate Grown(f: set<object>)
      reads this, queue, running, mainQueue, zombies, blocked
    {
      forall o {:trigger o in Footprint()} :: o in Footprint() ==> o in f || !old(allocated(o))
    }

    ghost predicate Valid()
      reads this, queue, running, mainQueue, zombies, blocked
      reads queue.Repr, running.Repr, mainQueue.Repr, zombies.Repr, blocked.Repr
    {
      && queue.Valid() && running.Valid() && mainQueue.Valid() && zombies.Valid() && blocked.Valid()
      && this !in queue.Repr && this !in running.Repr && this !in mainQueue.Repr && this !in zombies.Repr && this !in blocked.Repr
      && Separate(queue.Repr, running.Repr, mainQueue.Repr, zombies.Repr, blocked.Repr)
      && (forall t :: t in threads ==> t !in queue.Repr && t !in running.Repr && t !in mainQueue.Repr && t !in zombies.Repr && t !in blocked.Repr)
      && (forall i :: 0 <= i < |threads| ==> threads[i].tid == i)
      && Recorded(threads, queue.Contents) && Recorded(threads, running.Contents) && Recorded(threads, mainQueue.Contents)
      && Recorded(threads, zombies.Contents) && Recorded(threads, blocked.Contents)
      && |threads| <= M.TID_LIMIT && tidIdx == |threads| % M.TID_LIMIT
    }

    ghost function Children(): (s: seq<nat>)
      reads this, threads
    {
      seq(|threads|, i requires 0 <= i < |threads| reads this, threads => threads[i].tidChild)
    }

    ghost function Values(): (s: seq<int>)
      reads this, threads
    {
      seq(|threads|, i requires 0 <= i < |threads| reads this, threads => threads[i].retval)
    }

    ghost function Abs(): M.Sys
      reads this, queue, running, mainQueue, zombies, blocked, threads
    {
      M.Sys(Tids(queue.Contents), Tids(running.Contents), Tids(mainQueue.Contents), Tids(zombies.Contents),
            Tids(blocked.Contents), Children(), Values(), joining)
    }

    function At(w: Which): Queue<Thread>
      reads this
    {
      match w
      case Ready => queue
      case Running => running
      case Main => mainQueue
      case Zombies => zombies
      case Blocked => blocked
    }

    method Count(w: Which) returns (n: int)
      requires Valid()
      ensures n == |Get(Abs(), w)|
    {
      n := At(w).Length();
    }

    lemma HoldsOfEnds(q: seq<Thread>, t: Thread)
      requires Valid() && Recorded(threads, q) && t in threads
      ensures Recorded(threads, q + [t])
    {
      hide Queue.Valid;
    }

    lemma HoldsOfTail(q: seq<Thread>)
      requires Recorded(threads, q) && q != []
      ensures Recorded(threads, q[1..]) && q[0] in threads
    {
      assert q[0] in q;
    }

    method Push(w: Which, t: Thread)
      requires Valid() && t in threads
      modifies Footprint()
      ensures Valid() && Grown(old(Footprint())) && threads == old(threads)
      ensures Abs() == Put(old(Abs()), w, Get(old(Abs()), w) + [t.tid])
    {
      hide Queue.Valid, Recorded;
      ghost var ids, children, values := Get(Abs(), w), Children(), Values();
      var q := At(w);
      HoldsOfEnds(q.Contents, t);
      var _ := q.Enqueue(Some(t));
      assert Tids(q.Contents) == ids + [t.tid];
      assert Children() == children && Values() == values;
    }

    method Pop(w: Which) returns (t: Thread)
      requires Valid() && Get(Abs(), w) != []
      modifies Footprint()
      ensures Valid() && Footprint() == old(Footprint()) && threads == old(threads)
      ensures t in threads && t.tid == Get(old(Abs()), w)[0]
      ensures Abs() == Put(old(Abs()), w, Get(old(Abs()), w)[1..])
    {
      hide Queue.Valid, Recorded;
      ghost var ids, children, values := Get(Abs(), w), Children(), Values();
      var q := At(w);
      HoldsOfTail(q.Contents);
      var _, d := q.Dequeue();
      t := d.value;
      assert Tids(q.Contents) == ids[1..];
      assert Children() == children && Values() == values;
    }

    ghost predicate IsEmpty()
      reads this, queue, running, mainQueue, zombies, blocked
    {
      && queue.Contents == running.Contents == mainQueue.Contents == zombies.Contents == blocked.Contents == []
      && threads == [] && joining == map[]
    }

    static method FreshQueue(ghost taken: set<object>) returns (q: Queue<Thread>)
      ensures q.Valid() && q.Contents == [] && fresh(q.Repr) && q.Repr !! taken
    {
      q := new Queue<Thread>();
    }

    static method FreshQueues()
      returns (a: Queue<Thread>, b: Queue<Thread>, c: Queue<Thread>, d: Queue<Thread>, e: Queue<Thread>, ghost all: set<object>)
      ensures a.Valid() && b.Valid() && c.Valid() && d.Valid() && e.Valid()
      ensures a.Contents == b.Contents == c.Contents == d.Contents == e.Contents == []
      ensures fresh(all) && all == a.Repr + b.Repr + c.Repr + d.Repr + e.Repr
      ensures Separate(a.Repr, b.Repr, c.Repr, d.Repr, e.Repr)
    {
      hide Queue.Valid;
      a := FreshQueue({});
      b := FreshQueue(a.Repr);
      c := FreshQueue(a.Repr + b.Repr);
      d := FreshQueue(a.Repr + b.Repr + c.Repr);
      e := FreshQueue(a.Repr + b.Repr + c.Repr + d.Repr);
      all := a.Repr + b.Repr + c.Repr + d.Repr + e.Repr;
    }

    /** The library before its first call: tid_idx is 0 and there is no thread. */
    constructor ()
      ensures Valid() && fresh(Footprint()) && IsEmpty()
    {
      hide Queue.Valid, Separate;
      var a, b, c, d, e, all := FreshQueues();
      queue, running, mainQueue, zombies, blocked := a, b, c, d, e;
      tidIdx := 0;
      threads := [];
      joining := map[];
      new;
      hide Valid, Footprint, Abs, IsEmpty;
      StartsEmpty(all);
    }

    /** Makes a record with the next identifier. */
    method AddRecord() returns (thread: Thread)
      requires Valid() && |threads| < M.TID_LIMIT
      modifies this
      ensures Valid() && Grown(old(Footprint()))
      ensures threads == old(threads) + [thread] && thread.tid == |old(threads)| && thread in threads
      ensures Abs() == old(Abs()).(child := old(Abs()).child + [0], retval := old(Abs()).retval + [0])
    {
      hide Queue.Valid, Recorded, Separate, Tids;
      thread := new Thread(tidIdx);
      StillRecorded(threads, queue.Contents, thread);
      StillRecorded(threads, running.Contents, thread);
      StillRecorded(threads, mainQueue.Contents, thread);
      StillRecorded(threads, zombies.Contents, thread);
      StillRecorded(threads, blocked.Contents, thread);
      threads := threads + [thread];
      tidIdx := (tidIdx + 1) % M.TID_LIMIT;
      assert Children() == old(Children()) + [0] && Values() == old(Values()) + [0];
    }

    lemma StartsEmpty(all: set<object>)
      requires queue.Valid() && running.Valid() && mainQueue.Valid() && zombies.Valid() && blocked.Valid()
      requires Separate(queue.Repr, running.Repr, mainQueue.Repr, zombies.Repr, blocked.Repr) && this !in all
      requires all == queue.Repr + running.Repr + mainQueue.Repr + zombies.Repr + blocked.Repr
      requires queue.Contents == running.Contents == mainQueue.Contents == zombies.Contents == blocked.Contents == []
      requires threads == [] && joining == map[] && tidIdx == 0
      ensures Valid() && Footprint() == {this} + all && IsEmpty()
      ensures Abs() == M.Sys([], [], [], [], [], [], [], map[])
    {
      hide Queue.Valid, Separate;
      assert Records() == {};
    }

    /** New queues, and no record: what the old ones held is forgotten. */
    method Restart()
      requires Valid() && tidIdx == 0
      modifies this
      ensures Valid() && Grown(old(Footprint()))
      ensures threads == [] && Abs() == M.Sys([], [], [], [], [], [], [], map[])
    {
      InFootprint();
      hide Valid, Footprint, Abs, IsEmpty, Queue.Valid, Separate;
      threads, joining := [], map[];
      ghost var all;
      queue, running, mainQueue, zombies, blocked, all := FreshQueues();
      StartsEmpty(all);
    }

    /** Makes new queues and the record of main, which goes to the main queue. */
    method CreateMain()
      requires Valid() && tidIdx == 0
      modifies Footprint()
      ensures Valid() && Grown(old(Footprint()))
      ensures |threads| == 1 && Abs() == M.Initial()
    {
      hide Valid, Footprint, Queue.Valid, Abs;
      InFootprint();
      Restart();
      var thread := AddRecord();
      Push(Main, thread);
    }

    lemma InFootprint()
      ensures this in Footprint()
    {
    }

    lemma Counter()
      requires Valid()
      ensures |Abs().child| == |threads| <= M.TID_LIMIT && tidIdx == |threads| % M.TID_LIMIT
    {
    }

    /**
     * Creates a thread and makes it ready. The first call creates main before it, and so does every call that
     * finds the 16-bit counter back at 0.
     */
    method Create() returns (tid: nat)
      requires Valid()
      modifies Footprint()
      ensures Valid() && Grown(old(Footprint()))
      ensures tid == if |old(Abs()).child| % M.TID_LIMIT == 0 then 1 else |old(Abs()).child|
      ensures Abs() == M.CreateCall(old(Abs()))
    {
      hide Valid, Footprint, Queue.Valid, Abs;
      Counter();
      InFootprint();
      if tidIdx == 0 {
        CreateMain();
        InFootprint();
      }
      var thread := AddRecord();
      Push(Ready, thread);
      tid := thread.tid;
    }

    /**
     * Gives way to the first ready thread. With nothing in running the program goes on with a pointer that it has
     * not set: ok is then false, and the ready thread that it has already taken out is lost.
     */
    method Yield() returns (ok: bool)
      requires Valid()
      modifies Footprint()
      ensures Valid() && Grown(old(Footprint()))
      ensures ok <==> M.Yield(old(Abs())).Some?
      ensures ok ==> Abs() == M.Yield(old(Abs())).value
      ensures !ok ==> Abs() == old(Abs()).(ready := old(Abs()).ready[1..])
    {
      hide Valid, Footprint, Queue.Valid, Abs;
      var n := Count(Ready);
      if n == 0 {
        return true;
      }
      var next := Pop(Ready);
      var others := Count(Running);
      if others == 0 {
        return false;
      }
      var curr := Pop(Running);
      Push(Running, next);
      if curr.tid != 0 {
        Push(Ready, curr);
      } else {
        Push(Main, curr);
      }
      ok := true;
    }

    /** The identifier of the executing thread, read by taking it out of running and putting it back. */
    method Self() returns (tid: nat)
      requires Valid() && |Abs().running| <= 1
      modifies Footprint()
      ensures Valid() && Grown(old(Footprint())) && threads == old(threads) && Abs() == old(Abs())
      ensures tid == M.Current(Abs())
    {
      hide Valid, Footprint, Queue.Valid, Abs;
      var n := Count(Running);
      if n == 0 {
        return 0;
      }
      var curr := Pop(Running);
      Push(Running, curr);
      tid := curr.tid;
    }

    /** Passes the item at the front of a queue to its back. */
    method Pass(w: Which) returns (tid: nat)
      requires Valid() && Get(Abs(), w) != []
      modifies Footprint()
      ensures Valid() && Grown(old(Footprint())) && threads == old(threads)
      ensures tid == Get(old(Abs()), w)[0]
      ensures Abs() == Put(old(Abs()), w, Get(old(Abs()), w)[1..] + [tid])
    {
      hide Valid, Footprint, Queue.Valid, Abs;
      var t := Pop(w);
      Push(w, t);
      tid := t.tid;
    }

    /** Passes every item of a queue from its front to its back, looking for the identifier. */
    method Scan(w: Which, tid: nat) returns (found: bool)
      requires Valid()
      modifies Footprint()
      ensures Valid() && Grown(old(Footprint())) && threads == old(threads) && Abs() == old(Abs())
      ensures found <==> tid in Get(Abs(), w)
    {
      hide Valid, Footprint, Queue.Valid, Abs;
      ghost var s, ids := Abs(), Get(Abs(), w);
      found := false;
      var n := Count(w);
      assert ids[0..] + ids[..0] == ids;
      for i := 0 to n
        invariant Valid() && Grown(old(Footprint())) && threads == old(threads)
        invariant Abs() == Put(s, w, ids[i..] + ids[..i])
        invariant found <==> tid in ids[..i]
      {
        RotateOnce(ids, i);
        var t := Pass(w);
        if t == tid {
          found := true;
        }
      }
      assert ids[n..] + ids[..n] == ids == ids[..n];
    }

    static lemma RotateOnce(ids: seq<nat>, i: nat)
      requires i < |ids|
      ensures var q := ids[i..] + ids[..i];
        q[0] == ids[i] && q[1..] + [q[0]] == ids[i + 1..] + ids[..i + 1]
      ensures ids[..i + 1] == ids[..i] + [ids[i]]
    {
    }

    /** Whether the thread is neither ready nor blocked. */
    method CheckThreadDone(tid: nat) returns (done: bool)
      requires Valid()
      modifies Footprint()
      ensures Valid() && Grown(old(Footprint())) && threads == old(threads) && Abs() == old(Abs())
      ensures done <==> M.Done(Abs(), tid)
    {
      hide Valid, Footprint, Queue.Valid, Abs;
      done := true;
      var inReady := Scan(Ready, tid);
      if inReady { done := false; }
      var inBlocked := Scan(Blocked, tid);
      if inBlocked { done := false; }
    }

    method SetChild(parent: Thread, tid: nat)
      requires Valid() && parent in threads
      modifies Footprint()
      ensures Valid() && Footprint() == old(Footprint()) && threads == old(threads)
      ensures parent.tid < |old(Abs()).child|
      ensures Abs() == old(Abs()).(child := old(Abs()).child[parent.tid := tid],
                                   joining := old(Abs()).joining[parent.tid := tid])
    {
      hide Queue.Valid;
      ghost var children, values := Children(), Values();
      parent.tidChild := tid;
      joining := joining[parent.tid := tid];
      assert Children() == children[parent.tid := tid] && Values() == values;
    }

    method SetRetval(thread: Thread, value: int)
      requires Valid() && thread in threads
      modifies Footprint()
      ensures Valid() && Footprint() == old(Footprint()) && threads == old(threads)
      ensures thread.tid < |old(Abs()).retval|
      ensures Abs() == old(Abs()).(retval := old(Abs()).retval[thread.tid := value])
    {
      hide Queue.Valid;
      ghost var children, values := Children(), Values();
      thread.retval := value;
      assert Children() == children && Values() == values[thread.tid := value];
    }

    /** The states in which a call to join finds a caller. */
    ghost predicate HasCaller()
      reads this, queue, running, mainQueue, zombies, blocked, threads
    {
      var s := Abs();
      && (s.running != [] || s.mainQueue != [])
      && M.Current(s) == (if s.running != [] then s.running[0] else s.mainQueue[0])
      && M.Current(s) < |s.child|
    }

    /** Takes the caller out of running, or passes main to the back of its queue, and blocks it on the thread. */
    method BlockCaller(tid: nat)
      requires Valid() && HasCaller()
      modifies Footprint()
      ensures Valid() && Grown(old(Footprint())) && threads == old(threads)
      ensures Abs() == M.Block(old(Abs()), tid)
    {
      hide Valid, Footprint, Queue.Valid, Abs;
      var parent;
      var n := Count(Running);
      if n != 0 {
        parent := Pop(Running);
      } else {
        parent := Pop(Main);
        Push(Main, parent);
      }
      Push(Blocked, parent);
      SetChild(parent, tid);
    }

    /**
     * Join up to the context switch. When no thread is ready to switch to, the program uses a pointer that it has
     * not set; the answer is then None, and the caller is blocked.
     */
    method JoinBegin(tid: nat) returns (r: Option<int>)
      requires Valid() && HasCaller()
      modifies Footprint()
      ensures Valid() && Grown(old(Footprint())) && threads == old(threads)
      ensures tid == 0 ==> r == Some(-1) && Abs() == old(Abs())
      ensures tid != 0 ==> match M.JoinBegin(old(Abs()), tid)
        case Some(s) => r == Some(0) && Abs() == s
        case None => r == None && Abs() == M.Block(old(Abs()), tid)
    {
      hide Valid, Footprint, Queue.Valid, Abs;
      if tid == 0 {
        return Some(-1);
      }
      BlockCaller(tid);
      var done := CheckThreadDone(tid);
      if !done {
        var others := Count(Ready);
        if others == 0 {
          return None;
        }
        var next := Pop(Ready);
        Push(Running, next);
      }
      r := Some(0);
    }

    /** Calls back on the items of a queue in order, and answers the first record on which the callback stops. */
    method FindByTid(w: Which, tid: nat) returns (t: Option<Thread>)
      requires Valid()
      ensures t.Some? <==> tid in Get(Abs(), w)
      ensures t.Some? ==> t.value in threads && t.value.tid == tid
    {
      hide Queue.Valid;
      var q := At(w);
      var _, data := q.Iterate((x: Thread) => if x.tid == tid then 1 else 0);
      if data.Some? {
        t := Some(data.value);
      } else {
        t := None;
        assert forall i :: 0 <= i < |q.Contents| ==> Tids(q.Contents)[i] != tid;
      }
    }

    method FindByChild(tid: nat) returns (t: Option<Thread>)
      requires Valid()
      ensures t.Some? ==> t.value in threads
      ensures M.Parent(Abs(), tid) == if t.Some? then Some(t.value.tid) else None
    {
      hide Queue.Valid;
      var _, data := blocked.Iterate((x: Thread) reads x => if x.tidChild == tid then 1 else 0);
      ghost var ids, children := Abs().blocked, Abs().child;
      assert forall i :: 0 <= i < |ids| ==> blocked.Contents[i] in blocked.Contents;
      assert forall i :: 0 <= i < |ids| ==> ids[i] < |children| && children[ids[i]] == blocked.Contents[i].tidChild;
      if data.Some? {
        t := Some(data.value);
        ghost var k :| 0 <= k < |ids| && data.value == blocked.Contents[k] && children[ids[k]] == tid
          && forall j :: 0 <= j < k ==> children[ids[j]] != tid;
        FirstAt(ids, children, tid, k);
      } else {
        t := None;
        FirstAt(ids, children, tid, |ids|);
      }
    }

    static lemma {:induction false} FirstAt(ids: seq<nat>, children: seq<nat>, x: nat, k: nat)
      requires k <= |ids| && forall j :: 0 <= j < |ids| ==> ids[j] < |children|
      requires forall j :: 0 <= j < k ==> children[ids[j]] != x
      requires k < |ids| ==> children[ids[k]] == x
      ensures M.FirstJoiner(ids, children, x) == if k < |ids| then Some(ids[k]) else None
    {
      if k > 0 {
        FirstAt(ids[1..], children, x, k - 1);
      }
    }

    /**
     * Exit up to the switch to the next thread, which run_next_thread makes if there is one. With nothing in running
     * the program goes on with a pointer that it has not set, and ok is false.
     */
    method Exit(value: int) returns (ok: bool)
      requires Valid()
      modifies Footprint()
      ensures Valid() && Grown(old(Footprint())) && threads == old(threads)
      ensures ok <==> old(Abs()).running != []
      ensures !ok ==> Abs() == old(Abs())
      ensures ok ==>
        && old(Abs()).running[0] < |old(Abs()).retval|
        && Abs() == if M.Exit(old(Abs()), value).Some? then M.Exit(old(Abs()), value).value else M.Retire(old(Abs()), value)
    {
      hide Valid, Footprint, Queue.Valid, Abs;
      ghost var s := Abs();
      var others := Count(Running);
      if others == 0 {
        return false;
      }
      var curr := Pop(Running);
      SetRetval(curr, value);
      Push(Zombies, curr);
      var parent := FindByChild(curr.tid);
      if parent.Some? {
        Push(Ready, parent.value);
      }
      assert Abs() == M.Retire(s, value);
      hide M.Retire, M.FirstJoiner;
      RunNextThread();
      ok := true;
    }

    /** Takes the first ready thread into running, if there is one. */
    method RunNextThread()
      requires Valid()
      modifies Footprint()
      ensures Valid() && Grown(old(Footprint())) && threads == old(threads)
      ensures Abs() == if M.SwitchToReady(old(Abs())).Some? then M.SwitchToReady(old(Abs())).value else old(Abs())
    {
      hide Valid, Footprint, Queue.Valid, Abs;
      var n := Count(Ready);
      if n == 0 {
        return;
      }
      var next := Pop(Ready);
      Push(Running, next);
    }

    static lemma {:induction false} RemoveFirstAt(ids: seq<nat>, x: nat, k: nat)
      requires k < |ids| && ids[k] == x && forall j :: 0 <= j < k ==> ids[j] != x
      ensures M.RemoveFirst(ids, x) == ids[..k] + ids[k + 1..]
    {
      if k > 0 {
        RemoveFirstAt(ids[1..], x, k - 1);
        assert ids[..k] == [ids[0]] + ids[1..][..k - 1];
      }
    }

    static lemma TidsWithout(q: seq<Thread>, k: nat)
      requires k < |q|
      ensures Tids(q[..k] + q[k + 1..]) == Tids(q)[..k] + Tids(q)[k + 1..]
    {
    }

    /** In a queue of records, the first entry with an identifier is the first occurrence of its record. */
    lemma RecordIndex(q: seq<Thread>, t: Thread)
      requires Recorded(threads, q) && t.tid < |threads| && threads[t.tid] == t && t.tid in Tids(q)
      ensures t in q
      ensures forall j :: 0 <= j < IndexOf(q, t) ==> Tids(q)[j] != t.tid
    {
      var i :| 0 <= i < |q| && Tids(q)[i] == t.tid;
      assert q[i] in q && q[i] == t;
      var k := IndexOf(q, t);
      forall j | 0 <= j < k ensures q[j].tid != t.tid {
        assert q[j] in q && q[j] == q[..k][j];
      }
    }

    lemma RemoveRecord(q: seq<Thread>, t: Thread)
      requires Recorded(threads, q) && t.tid < |threads| && threads[t.tid] == t && t.tid in Tids(q)
      ensures t in q
      ensures var k := IndexOf(q, t); Tids(q[..k] + q[k + 1..]) == M.RemoveFirst(Tids(q), t.tid)
    {
      hide Recorded;
      RecordIndex(q, t);
      var k := IndexOf(q, t);
      hide IndexOf, M.RemoveFirst;
      TidsWithout(q, k);
      RemoveFirstAt(Tids(q), t.tid, k);
    }

    /** Takes the record of an exited thread out of the zombies. */
    method Discard(t: Thread)
      requires Valid() && t in threads && t.tid in Abs().zombies
      modifies Footprint()
      ensures Valid() && Footprint() == old(Footprint()) && threads == old(threads)
      ensures Abs() == old(Abs()).(zombies := M.RemoveFirst(old(Abs()).zombies, t.tid))
    {
      hide Queue.Valid, Tids, IndexOf, M.RemoveFirst;
      ghost var q, children, values := zombies.Contents, Children(), Values();
      RemoveRecord(q, t);
      var _ := zombies.Delete(Some(t));
      assert Tids(zombies.Contents) == M.RemoveFirst(Tids(q), t.tid);
      assert Children() == children && Values() == values;
    }

    /** The value that a thread exited with. */
    method ValueOf(child: Thread) returns (retval: int)
      requires Valid() && child in threads
      ensures child.tid < |Abs().retval| && retval == Abs().retval[child.tid]
    {
      retval := child.retval;
    }

    /**
     * Join from the point where the caller runs again: hands over the value and drops the child. Without a record of
     * the child the program goes on with a null pointer, and the answer is None.
     */
    method JoinEnd(tid: nat) returns (retval: Option<int>)
      requires Valid()
      requires M.Current(Abs()) in Abs().joining && Abs().joining[M.Current(Abs())] == tid
      modifies Footprint()
      ensures Valid() && Grown(old(Footprint())) && threads == old(threads)
      ensures retval.Some? <==> tid in old(Abs()).zombies
      ensures retval.None? ==> Abs() == old(Abs())
      ensures retval.Some? ==>
        && tid < |old(Abs()).retval| && retval.value == old(Abs()).retval[tid]
        && M.Current(old(Abs())) in old(Abs()).joining && Abs() == M.JoinEnd(old(Abs()))
    {
      hide Valid, Footprint, Queue.Valid, Abs, M.RemoveFirst;
      ghost var p := M.Current(Abs());
      var child := FindByTid(Zombies, tid);
      if child == None {
        return None;
      }
      var value := ValueOf(child.value);
      Discard(child.value);
      EndJoin(p);
      retval := Some(value);
    }

    /** The call to join of thread p is over; only ghost state records it. */
    ghost method EndJoin(p: nat)
      requires Valid()
      modifies Footprint()
      ensures Valid() && Footprint() == old(Footprint()) && threads == old(threads)
      ensures Abs() == old(Abs()).(joining := old(Abs()).joining - {p})
    {
      hide Queue.Valid;
      joining := joining - {p};
    }
  }
}
