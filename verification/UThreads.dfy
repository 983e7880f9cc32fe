/** The library itself: thread objects, the table, the two lists and the counters, changed in place.
    Every method is proved against the step function of the scheduler model that it carries out. */
module UThreads {
  import opened Scheduler
  import opened SchedulerSafety
  import opened SchedulerRuns
  import opened SchedulerExact

  class UThread {
    ghost const id: nat
    const tid: nat
    var status: Status
    var quanta: nat
    ghost var parked: bool

    constructor (tid: nat, ghost id: nat)
      ensures this.tid == tid && this.id == id && status == READY && quanta == 0 && !parked
    {
      this.tid := tid;
      this.id := id;
      status := READY;
      quanta := 0;
      parked := false;
    }

    ghost function Value(): Thread
      reads this
    {
      Thread(tid, status, quanta, parked)
    }
  }

  ghost function Ids(q: seq<UThread>): (r: seq<nat>)
    ensures |r| == |q|
  {
    seq(|q|, i requires 0 <= i < |q| => q[i].id)
  }

  ghost function Values(q: seq<UThread>): (r: seq<Thread>)
    reads q
    ensures |r| == |q|
  {
    seq(|q|, o reads q requires 0 <= o < |q| => q[o].Value())
  }

  ghost function Ref(x: UThread?): Option<nat> {
    if x == null then None else Some(x.id)
  }

  lemma IdsAppend(q: seq<UThread>, x: UThread)
    ensures Ids(q + [x]) == Ids(q) + [x.id]
  {
  }

  lemma FirstSchedule(s: State)
    requires s == Boot()
    ensures Schedule(s, false) == Some(Init())
  {
    InitIsFirstSchedule();
  }

  lemma IdsSplice(kept: seq<UThread>, q: seq<UThread>, i: nat)
    requires i < |q|
    ensures Ids(kept + q[i + 1..]) == Ids(kept) + Ids(q)[i + 1..]
  {
  }

  /** What is left of a decision once the dead entries are gone. */
  function Taken(s: State): Option<State> {
    var i := FirstReady(s, s.fifo, 0);
    if i == |s.fifo| then None
    else
      var tid := s.threads[s.fifo[i]].tid;
      if !HasObject(s, tid) then None
      else Some(Scheduler.Dispatch(s.(fifo := DropBlocked(s, s.fifo[..i]) + s.fifo[i + 1..]), tid))
  }

  lemma ScheduleTakes(s: State, tick: bool)
    requires Live(Demoted(s, tick), 0)
    ensures var d := Demoted(s, tick); Schedule(s, tick) == Taken(d.(fifo := KeepLive(d, d.fifo)))
  {
    var d := Demoted(s, tick);
    var q := KeepLive(d, d.fifo);
    var e := d.(fifo := q);
    SameScan(d, e, q, 0);
    SameDrop(d, e, q[..FirstReady(d, q, 0)]);
  }

  lemma {:induction false} SameScan(s: State, e: State, q: seq<nat>, i: nat)
    requires i <= |q| && s.threads == e.threads
    ensures FirstReady(s, q, i) == FirstReady(e, q, i)
    decreases |q| - i
  {
    if i < |q| { SameScan(s, e, q, i + 1); }
  }

  lemma {:induction false} SameDrop(s: State, e: State, q: seq<nat>)
    requires s.threads == e.threads
    ensures DropBlocked(s, q) == DropBlocked(e, q)
    decreases |q|
  {
    if q != [] { SameDrop(s, e, q[..|q| - 1]); }
  }

  lemma WokenMore(s: State, i: nat)
    requires i < |s.waiters| && s.waiters[i] < |s.threads|
    ensures var o, w := s.waiters[i], Woken(s.threads, s.waiters[..i]);
      Woken(s.threads, s.waiters[..i + 1]) == w[o := w[o].(status := READY, parked := false)]
      && s.fifo + s.waiters[..i + 1] == s.fifo + s.waiters[..i] + [o]
  {
    assert s.waiters[..i + 1] == s.waiters[..i] + [s.waiters[i]];
  }

  class Library {
    const table: array<UThread?>
    var fifo: seq<UThread>
    var waiters: seq<UThread>
    var owner: int
    var cur: nat
    var total: nat
    var exited: bool
    /** every thread ever created, in order */
    ghost var all: seq<UThread>

    ghost predicate Owns(x: UThread)
      reads this`all
    {
      x.id < |all| && all[x.id] == x
    }

    ghost predicate Valid()
      reads this, table
    {
      && table.Length == MAX_THREAD_NUM
      && cur < MAX_THREAD_NUM
      && (forall o | 0 <= o < |all| :: all[o].id == o)
      && (forall t | 0 <= t < table.Length :: table[t] != null ==> Owns(table[t]))
      && (forall x | x in fifo :: Owns(x))
      && (forall x | x in waiters :: Owns(x))
    }

    ghost function Table(): seq<Option<nat>>
      reads table
    {
      seq(table.Length, t reads table requires 0 <= t < table.Length => Ref(table[t]))
    }

    ghost function Abs(): State
      reads this, table, all
    {
      State(Table(), Values(all), Ids(fifo), Ids(waiters), owner, cur, total)
    }

    constructor ()
      ensures Valid() && Untouched() && fresh(table) && !exited
    {
      table := new UThread?[MAX_THREAD_NUM](_ => null);
      fifo, waiters, owner, cur, total, exited, all := [], [], NO_OWNER, 0, 0, false, [];
    }

    // ---------- One field at a time ----------

    method SetStatus(x: UThread, status: Status, ghost parked: bool)
      requires Valid() && Owns(x)
      modifies x
      ensures Valid()
      ensures Abs() == WithThread(old(Abs()), x.id, old(x.Value()).(status := status, parked := parked))
    {
      x.status := status;
      x.parked := parked;
      assert Values(all) == old(Values(all))[x.id := x.Value()];
    }

    method Enqueue(x: UThread)
      requires Valid() && Owns(x)
      modifies this`fifo
      ensures Valid() && Abs() == old(Abs()).(fifo := old(Abs()).fifo + [x.id])
    {
      IdsAppend(fifo, x);
      fifo := fifo + [x];
    }

    /** contain */
    method Contain(tid: nat) returns (r: bool)
      requires Valid()
      ensures r == Live(Abs(), tid)
    {
      r := tid < MAX_THREAD_NUM && table[tid] != null;
    }

    // ---------- The scheduler ----------

    method DeleteDeadThreads()
      requires Valid()
      modifies this`fifo
      ensures Valid()
      ensures Abs() == old(Abs()).(fifo := KeepLive(old(Abs()), old(Abs()).fifo))
      ensures forall x | x in fifo :: x.tid < MAX_THREAD_NUM && table[x.tid] != null
    {
      ghost var s := Abs();
      var kept: seq<UThread> := [];
      for i := 0 to |fifo|
        invariant Valid() && Abs() == s
        invariant forall x | x in kept :: Owns(x) && x.tid < MAX_THREAD_NUM && table[x.tid] != null
        invariant Ids(kept) == KeepLive(s, s.fifo[..i])
      {
        var x := fifo[i];
        assert s.fifo[..i + 1][..i] == s.fifo[..i];
        assert x in fifo && Owns(x);
        assert s.threads[x.id] == x.Value();
        if x.tid < MAX_THREAD_NUM && table[x.tid] != null {
          IdsAppend(kept, x);
          kept := kept + [x];
        }
      }
      assert s.fifo[..|s.fifo|] == s.fifo;
      fifo := kept;
    }

    method Demote(tick: bool)
      requires Valid()
      modifies this`fifo, table[cur]
      ensures Valid() && Abs() == Demoted(old(Abs()), tick)
    {
      var x := table[cur];
      if x != null {
        if tick { Enqueue(x); }
        if x.status == RUNNING {
          ghost var parked := x.parked;
          SetStatus(x, READY, parked);
        }
      }
    }

    /** The thread of an entry starts a quantum. */
    method Dispatch(x: UThread)
      requires Valid() && Owns(x) && Live(Abs(), x.tid)
      modifies this`cur, this`total, table[x.tid]
      ensures Valid() && Abs() == Scheduler.Dispatch(old(Abs()), x.tid)
    {
      cur := x.tid;
      var y := table[x.tid];
      total := total + 1;
      ghost var s := Abs();
      y.quanta := y.quanta + 1;
      y.status := RUNNING;
      y.parked := false;
      assert Values(all) == s.threads[y.id := y.Value()];
    }

    /** The scan for the first READY entry, with the BLOCKED entries before it taken out. */
    method Scan() returns (i: nat, kept: seq<UThread>)
      requires Valid()
      ensures i == FirstReady(Abs(), Abs().fifo, 0) && i <= |fifo|
      ensures Ids(kept) == DropBlocked(Abs(), Abs().fifo[..i])
      ensures forall x | x in kept :: Owns(x)
    {
      ghost var s := Abs();
      i, kept := 0, [];
      while i < |fifo| && fifo[i].status != READY
        invariant i <= |fifo| && FirstReady(s, s.fifo, 0) == FirstReady(s, s.fifo, i)
        invariant Ids(kept) == DropBlocked(s, s.fifo[..i])
        invariant forall x | x in kept :: Owns(x)
      {
        var x := fifo[i];
        assert x in fifo && Owns(x);
        assert s.threads[x.id] == x.Value() && s.fifo[i] == x.id;
        assert s.fifo[..i + 1][..i] == s.fifo[..i];
        if x.status != BLOCKED {
          IdsAppend(kept, x);
          kept := kept + [x];
        }
        i := i + 1;
      }
      if i < |fifo| {
        assert fifo[i] in fifo && Owns(fifo[i]);
        assert s.threads[fifo[i].id] == fifo[i].Value() && s.fifo[i] == fifo[i].id;
      }
    }

    /** The queue becomes the kept entries and those after i, and entry i runs. */
    method TakeAt(i: nat, kept: seq<UThread>)
      requires Valid() && i < |fifo| && Owns(fifo[i]) && Live(Abs(), fifo[i].tid)
      requires forall x | x in kept :: Owns(x)
      modifies this`fifo, this`cur, this`total, table[fifo[i].tid]
      ensures Valid()
      ensures Abs() == Scheduler.Dispatch(old(Abs()).(fifo := Ids(kept) + old(Abs()).fifo[i + 1..]), old(fifo[i].tid))
    {
      ghost var s := Abs();
      var x := fifo[i];
      IdsSplice(kept, fifo, i);
      fifo := kept + fifo[i + 1..];
      assert forall y | y in fifo :: y in kept || y in old(fifo);
      assert Abs() == s.(fifo := Ids(kept) + s.fifo[i + 1..]);
      Dispatch(x);
    }

    /** Take the first READY entry of a queue without dead entries. */
    method TakeFirst() returns (ok: bool)
      requires Valid() && forall x | x in fifo :: Live(Abs(), x.tid)
      modifies this`fifo, this`cur, this`total, all
      ensures Valid()
      ensures ok == Taken(old(Abs())).Some?
      ensures ok ==> Abs() == Taken(old(Abs())).value
    {
      ghost var s := Abs();
      var i, kept := Scan();
      ok := i < |fifo|;
      if ok {
        var x := fifo[i];
        assert x in fifo && Owns(x);
        assert s.fifo[i] == x.id && s.threads[x.id].tid == x.tid;
        assert HasObject(s, x.tid);
        TakeAt(i, kept);
      }
    }

    /** False when the scan runs off the end of the queue. */
    method SchedulerMain(tick: bool) returns (ok: bool)
      requires Valid()
      modifies this`fifo, this`cur, this`total, all
      ensures Valid()
      ensures ok == Schedule(old(Abs()), tick).Some?
      ensures ok ==> Abs() == Schedule(old(Abs()), tick).value
    {
      ghost var s := Abs();
      Demote(tick);
      if table[0] == null { return true; }
      DeleteDeadThreads();
      ScheduleTakes(s, tick);
      ok := TakeFirst();
    }

    // ---------- The library calls ----------

    ghost predicate Untouched()
      reads this, table
    {
      && all == [] && fifo == [] && waiters == [] && cur == 0 && total == 0
      && forall t | 0 <= t < table.Length :: table[t] == null
    }

    /** The part of uthread_init before it calls the scheduler. */
    method SetUp()
      requires Valid() && Untouched()
      modifies this`owner, this`fifo, this`cur, this`all, table
      ensures Valid() && Abs() == Boot() && fresh(all)
    {
      owner := NO_OWNER;
      for i := 0 to MAX_THREAD_NUM
        invariant Valid() && Untouched() && owner == NO_OWNER
      {
        table[i] := null;
      }
      var main := new UThread(0, 0);
      table[0] := main;
      all := [main];
      fifo := fifo + [main];
      cur := 0;
      assert Abs().table == Boot().table;
      assert Abs().threads == [Thread(0, READY, 0, false)];
      assert fifo == [main] && Ids(fifo) == [0];
    }

    method BootUp()
      requires Valid() && Untouched()
      modifies this`owner, this`fifo, this`cur, this`all, table
      ensures Valid() && fresh(all) && Schedule(Abs(), false) == Some(Init())
    {
      SetUp();
      FirstSchedule(Abs());
    }

    /** uthread_init, called once and before every other call */
    method UthreadInit(quantumUsecs: int) returns (r: int)
      requires Valid() && Untouched()
      modifies this, table
      ensures Valid() && exited == old(exited)
      ensures r == if quantumUsecs <= 0 then -1 else 0
      ensures quantumUsecs <= 0 ==> Abs() == old(Abs())
      ensures quantumUsecs > 0 ==> Abs() == Init()
    {
      if quantumUsecs <= 0 { return -1; }
      BootUp();
      FirstRun(Init());
      return 0;
    }

    /** A decision that is known to succeed. */
    method FirstRun(ghost e: State)
      requires Valid() && Schedule(Abs(), false) == Some(e)
      modifies this`fifo, this`cur, this`total, all
      ensures Valid() && Abs() == e
    {
      var _ := SchedulerMain(false);
    }

    method UthreadSpawn() returns (r: int)
      requires Valid()
      modifies this`fifo, this`all, table
      ensures Valid() && Abs() == DoSpawn(old(Abs()))
      ensures var tid := FreeTid(old(Abs()).table, 1); r == if tid == MAX_THREAD_NUM then -1 else tid
      ensures Inv(old(Abs())) ==> (r == -1 <==> |LiveIds(old(Abs()))| == 100)
    {
      ghost var s := Abs();
      if Inv(s) { LiveIdsSize(s); }
      var tid := 1;
      while tid < MAX_THREAD_NUM && table[tid] != null
        invariant 1 <= tid <= MAX_THREAD_NUM && FreeTid(s.table, 1) == FreeTid(s.table, tid)
      {
        tid := tid + 1;
      }
      if tid == MAX_THREAD_NUM { return -1; }
      var x := new UThread(tid, |all|);
      table[tid] := x;
      all := all + [x];
      fifo := fifo + [x];
      assert Abs().table == DoSpawn(s).table;
      assert Abs().threads == DoSpawn(s).threads;
      return tid;
    }

    method UthreadMutexUnlock() returns (r: int)
      requires Valid()
      modifies this`owner, this`fifo, this`waiters, all
      ensures Valid() && Abs() == DoUnlock(old(Abs()))
      ensures r == if old(owner) == NO_OWNER || old(owner) != cur then -1 else 0
    {
      if owner == NO_OWNER || owner != cur { return -1; }
      ghost var s := Abs();
      owner := NO_OWNER;
      for i := 0 to |waiters|
        invariant Valid()
        invariant Abs() == s.(owner := NO_OWNER, threads := Woken(s.threads, s.waiters[..i]),
                              fifo := s.fifo + s.waiters[..i])
      {
        var x := waiters[i];
        assert x in waiters && Owns(x);
        ghost var e := Abs();
        SetStatus(x, READY, false);
        Enqueue(x);
        WokenMore(s, i);
      }
      assert s.waiters[..|s.waiters|] == s.waiters;
      waiters := [];
      return 0;
    }

    /** Terminating main ends the process; a thread that terminates itself does not return. */
    method UthreadTerminate(tid: nat) returns (r: int)
      requires Valid()
      modifies this`owner, this`fifo, this`waiters, this`exited, all, table
      ensures Valid() && Abs() == DoTerminate(old(Abs()), tid)
      ensures r == if Live(old(Abs()), tid) then 0 else -1
      ensures exited == (old(exited) || (tid == 0 && Live(old(Abs()), 0)))
    {
      var live := Contain(tid);
      if !live { return -1; }
      if tid == 0 {
        exited := true;
      } else {
        ghost var s := Abs();
        if owner == tid { var _ := UthreadMutexUnlock(); }
        ghost var e := Abs();
        table[tid] := null;
        assert Abs() == e.(table := e.table[tid := None]);
      }
      return 0;
    }

    /** ok is false when a decision was due and the scan ran off the queue. */
    method UthreadBlock(tid: nat) returns (r: int, ok: bool)
      requires Valid()
      modifies this`fifo, this`cur, this`total, all
      ensures Valid()
      ensures r == if tid == 0 || !Live(old(Abs()), tid) then -1 else 0
      ensures ok == DoBlock(old(Abs()), tid).Some?
      ensures ok ==> Abs() == DoBlock(old(Abs()), tid).value
    {
      var live := Contain(tid);
      if !live || tid == 0 { return -1, true; }
      ghost var parked := table[tid].parked;
      SetStatus(table[tid], BLOCKED, parked);
      ok := true;
      if tid == cur { ok := SchedulerMain(false); }
      return 0, ok;
    }

    method UthreadResume(tid: nat) returns (r: int)
      requires Valid()
      modifies this`fifo, all
      ensures Valid() && Abs() == DoResume(old(Abs()), tid)
      ensures r == if Live(old(Abs()), tid) then 0 else -1
    {
      var live := Contain(tid);
      if !live { return -1; }
      SetStatus(table[tid], READY, false);
      Enqueue(table[tid]);
      return 0;
    }

    /** One round of uthread_mutex_lock; without a return code the caller is still inside the call. */
    method UthreadMutexLock() returns (r: Option<int>, ok: bool)
      requires Valid() && Live(Abs(), cur)
      modifies this`owner, this`waiters, this`fifo, this`cur, this`total, all
      ensures Valid()
      ensures r == if old(owner) == old(cur) then Some(-1) else if old(owner) == NO_OWNER then Some(0) else None
      ensures ok == DoLock(old(Abs())).Some?
      ensures ok ==> Abs() == DoLock(old(Abs())).value
    {
      if owner == cur { return Some(-1), true; }
      if owner == NO_OWNER {
        owner := cur;
        return Some(0), true;
      }
      ok := true;
      if table[cur].status != BLOCKED { ok := Park(); }
      return None, ok;
    }

    method Park() returns (ok: bool)
      requires Valid() && Live(Abs(), cur)
      modifies this`waiters, this`fifo, this`cur, this`total, all
      ensures Valid()
      ensures ok == Schedule(Parked(old(Abs())), false).Some?
      ensures ok ==> Abs() == Schedule(Parked(old(Abs())), false).value
    {
      ghost var s := Abs();
      var x := table[cur];
      IdsAppend(waiters, x);
      IdsAppend(waiters + [x], x);
      waiters := waiters + [x];
      SetStatus(x, BLOCKED, true);
      waiters := waiters + [x];
      assert Abs().waiters == s.waiters + [x.id, x.id];
      assert Abs() == Parked(s);
      ok := SchedulerMain(false);
    }

    method UthreadGetQuantums(tid: nat) returns (r: int)
      requires Valid()
      ensures r == if HasObject(Abs(), tid) then Abs().threads[Obj(Abs(), tid)].quanta else -1
    {
      var live := Contain(tid);
      if !live { return -1; }
      r := table[tid].quanta;
    }

    // ---------- Any one step ----------

    method Carry(a: Action) returns (ok: bool)
      requires Valid() && Allowed(Abs(), a)
      modifies this, table, all
      ensures Valid()
      ensures ok == Do(old(Abs()), a).Some?
      ensures ok ==> Abs() == Do(old(Abs()), a).value
    {
      ok := true;
      match a
      case Spawn => var _ := UthreadSpawn();
      case Terminate(tid) => var _ := UthreadTerminate(tid);
      case Block(tid) => var _, done := UthreadBlock(tid); ok := done;
      case Resume(tid) => var _ := UthreadResume(tid);
      case Lock => var _, done := UthreadMutexLock(); ok := done;
      case Unlock => var _ := UthreadMutexUnlock();
      case Tick => ok := SchedulerMain(true);
    }

    /** Any library call or tick keeps the invariant, and a polite one never runs off the queue. */
    method Perform(a: Action) returns (ok: bool)
      requires Valid() && Inv(Abs()) && Allowed(Abs(), a)
      modifies this, table, all
      ensures Valid()
      ensures ok ==> Inv(Abs()) && IsStep(old(Abs()), a, Abs())
      ensures ok <==> !(Decides(old(Abs()), a) && !(a == Tick && Live(old(Abs()), old(cur)))
                        && NothingElseReady(old(Abs())))
      ensures OwnerRuns(old(Abs())) && Polite(old(Abs()), a) ==> ok && OwnerRuns(Abs())
    {
      ghost var s := Abs();
      StepInv(s, a);
      ScanFailsIff(s, a);
      PoliteStep(s, a);
      ok := Carry(a);
    }
  }
}
