/** The mutex: who may change its owner, what becomes of its waiters, and the protocol that keeps the
    ready scan from running off the queue. */
module SchedulerMutex {
  import opened Scheduler
  import opened SchedulerSafety
  import opened SchedulerRuns

  /** The owner changes only when the current thread takes a free mutex or gives up its own. */
  lemma OwnerChanges(s: State, a: Action, e: State)
    requires Inv(s) && IsStep(s, a, e) && e.owner != s.owner
    ensures (s.owner == NO_OWNER && a == Lock && e.owner == s.cur && e == s.(owner := s.cur))
            || (s.owner == s.cur && e.owner == NO_OWNER && (a == Unlock || a == Terminate(s.cur)))
  {
    if Decides(s, a) {
      DecisionPends(s, a);
      DecisionEffect(Before(s, a), a == Tick);
    }
  }

  /** Every waiter that is still alive is READY and queued once the mutex is released. */
  lemma ReleaseWakesAll(s: State, a: Action, e: State, t: nat)
    requires Inv(s) && IsStep(s, a, e) && s.owner != NO_OWNER && e.owner == NO_OWNER
    requires Live(s, t) && s.threads[Obj(s, t)].parked && Live(e, t)
    ensures Obj(e, t) == Obj(s, t) && StatusOf(e, t) == READY && Obj(e, t) in e.fifo && e.waiters == []
  {
    OwnerChanges(s, a, e);
    assert Placed(s, t);
  }

  /** uthread_resume is meant to leave a RUNNING or READY thread as it is; it queues it once more. */
  lemma ResumeChangesNothingIff(s: State, tid: nat)
    requires Inv(s)
    ensures DoResume(s, tid) == s <==> !Live(s, tid)
  {
    if Live(s, tid) {
      assert |DoResume(s, tid).fifo| == |s.fifo| + 1;
    }
  }

  /** Once the owner has been terminated by another thread, the mutex stays taken until its thread
      id is used again. */
  lemma OrphanedMutex(s: State, a: Action, e: State)
    requires Inv(s) && IsStep(s, a, e) && s.owner != NO_OWNER && !Live(s, s.owner)
    ensures e.owner == s.owner
    ensures Live(e, e.owner) ==> a == Spawn
  {
    if e.owner != s.owner { OwnerChanges(s, a, e); }
    if Decides(s, a) {
      DecisionPends(s, a);
      DecisionEffect(Before(s, a), a == Tick);
    }
  }

  // ---------- A run whose scan fails ----------

  function Two(main: Thread, other: Thread, fifo: seq<nat>, waiters: seq<nat>, owner: int, cur: nat,
    total: nat): State {
    State(Boot().table[1 := Some(1)], [main, other], fifo, waiters, owner, cur, total)
  }

  /** The states of that run; object 0 is main, object 1 the other thread. */
  function Stage(i: nat): State {
    match i
    case 0 => Init()
    case 1 => Two(Thread(0, RUNNING, 1, false), Thread(1, READY, 0, false), [1], [], NO_OWNER, 0, 1)
    case 2 => Two(Thread(0, READY, 1, false), Thread(1, RUNNING, 1, false), [0], [], NO_OWNER, 1, 2)
    case 3 => Two(Thread(0, READY, 1, false), Thread(1, RUNNING, 1, false), [0], [], 1, 1, 2)
    case 4 => Two(Thread(0, RUNNING, 2, false), Thread(1, READY, 1, false), [1], [], 1, 0, 3)
    case _ => Two(Thread(0, BLOCKED, 2, true), Thread(1, RUNNING, 2, false), [], [0, 0], 1, 1, 4)
  }

  predicate Pairing(table: seq<Option<nat>>) {
    |table| == MAX_THREAD_NUM && table[0] == Some(0) && table[1] == Some(1)
  }

  ghost predicate AllKept(d: State, q: seq<nat>) {
    forall k | 0 <= k < |q| :: Kept(d, q[k])
  }

  /** A decision whose queue has no dead entry and a READY one in front runs that one. */
  lemma ScheduleFirst(s: State, tick: bool, d: State, o: nat, rest: seq<nat>)
    requires d == Demoted(s, tick) && Live(d, 0) && d.fifo == [o] + rest && AllKept(d, d.fifo)
    requires IsReady(d, o) && HasObject(d, d.threads[o].tid)
    ensures Schedule(s, tick) == Some(Dispatch(d.(fifo := rest), d.threads[o].tid))
  {
    KeepAll(d, d.fifo);
    assert FirstReady(d, d.fifo, 0) == 0;
    assert d.fifo[..0] == [];
    assert DropBlocked(d, []) + d.fifo[1..] == rest;
  }

  lemma {:induction false} KeepAll(d: State, q: seq<nat>)
    requires AllKept(d, q)
    ensures KeepLive(d, q) == q
    decreases |q|
  {
    if q != [] { KeepAll(d, q[..|q| - 1]); }
  }

  lemma TickDemotes(s: State, o: nat)
    requires Pairing(s.table) && s.cur < |s.threads| == 2 && s.fifo == [o] && s.threads[s.cur].status == RUNNING
    ensures Demoted(s, true) == Swapped(s).(fifo := [o, s.cur])
  {
  }

  lemma PairIsLive(d: State, o: nat, c: nat)
    requires Pairing(d.table) && |d.threads| == 2 && d.threads[0].tid == 0 && d.threads[1].tid == 1
    requires o < 2 && c == 1 - o && d.fifo == [o, c] && d.threads[o].status == READY
    ensures Live(d, 0) && AllKept(d, d.fifo) && IsReady(d, o) && HasObject(d, o) && Obj(d, o) == o
    ensures d.threads[o].tid == o
  {
  }

  function Swapped(s: State): State
    requires s.cur < |s.threads|
  {
    s.(fifo := [s.cur], threads := s.threads[s.cur := s.threads[s.cur].(status := READY)])
  }

  /** A tick while one of the two threads runs and the other alone is queued swaps them. */
  lemma TickSwaps(s: State, o: nat)
    requires Pairing(s.table) && |s.threads| == 2 && s.threads[0].tid == 0 && s.threads[1].tid == 1
    requires s.cur < 2 && o == 1 - s.cur && s.fifo == [o] && s.threads[s.cur].status == RUNNING
    requires s.threads[o].status == READY
    ensures HasObject(Swapped(s), o) && Schedule(s, true) == Some(Dispatch(Swapped(s), o))
  {
    var d := Swapped(s).(fifo := [o, s.cur]);
    TickDemotes(s, o);
    assert [o] + [s.cur] == d.fifo;
    PairIsLive(d, o, s.cur);
    ScheduleFirst(s, true, d, o, [s.cur]);
  }

  /** A thread that comes to wait for the mutex leaves the processor to the one queued thread. */
  lemma WaitHandsOver(s: State, o: nat)
    requires Pairing(s.table) && |s.threads| == 2 && s.threads[0].tid == 0 && s.threads[1].tid == 1
    requires s.cur < 2 && o == 1 - s.cur && s.fifo == [o] && s.threads[s.cur].status == BLOCKED
    requires s.threads[o].status == READY
    ensures Schedule(s, false) == Some(s.(
      cur := o, fifo := [], total := s.total + 1,
      threads := s.threads[o := Thread(o, RUNNING, s.threads[o].quanta + 1, false)]))
  {
    ScheduleFirst(s, false, s, o, []);
  }

  predicate Swaps(s: State, o: nat, e: State) {
    && Pairing(s.table) && |s.threads| == 2 && s.threads[0].tid == 0 && s.threads[1].tid == 1
    && s.cur < 2 && o == 1 - s.cur && s.fifo == [o] && s.threads[s.cur].status == RUNNING
    && s.threads[o].status == READY
    && e == s.(cur := o, fifo := [s.cur], total := s.total + 1, threads := e.threads)
    && |e.threads| == 2 && e.threads[s.cur] == s.threads[s.cur].(status := READY)
    && e.threads[o] == Thread(o, RUNNING, s.threads[o].quanta + 1, false)
  }

  lemma SwapsIsDispatch(s: State, o: nat, e: State)
    requires Swaps(s, o, e)
    ensures HasObject(Swapped(s), o) && Dispatch(Swapped(s), o) == e
  {
    assert Obj(s, o) == o;
    assert s.threads[s.cur := e.threads[s.cur]][o := e.threads[o]] == e.threads;
  }

  lemma TickStage(s: State, o: nat, e: State)
    requires Swaps(s, o, e)
    ensures IsStep(s, Tick, e)
  {
    SwapsIsDispatch(s, o, e);
    TickSwaps(s, o);
  }

  lemma WaitStage(s: State, o: nat, e: State)
    requires Pairing(s.table) && |s.threads| == 2 && s.threads[0].tid == 0 && s.threads[1].tid == 1
    requires s.cur < 2 && o == 1 - s.cur && s.fifo == [o] && s.threads[s.cur].status == RUNNING
    requires s.threads[o].status == READY && s.owner == o && s.waiters == []
    requires e == s.(cur := o, fifo := [], total := s.total + 1, threads := e.threads, waiters := [s.cur, s.cur])
    requires |e.threads| == 2 && e.threads[s.cur] == s.threads[s.cur].(status := BLOCKED, parked := true)
    requires e.threads[o] == Thread(o, RUNNING, s.threads[o].quanta + 1, false)
    ensures IsStep(s, Lock, e)
  {
    assert Parked(s).waiters == [s.cur, s.cur];
    WaitHandsOver(Parked(s), o);
    assert s.threads[s.cur := e.threads[s.cur]][o := e.threads[o]] == e.threads;
  }

  lemma SpawnStage(s: State, e: State)
    requires s == Init() && e == Stage(1)
    ensures IsStep(s, Spawn, e)
  {
    assert s.table[1].None? && FreeTid(s.table, 1) == 1;
    assert s.threads + [Thread(1, READY, 0, false)] == e.threads;
    assert s.fifo + [1] == e.fifo;
  }

  lemma LockStage(s: State)
    requires s.owner == NO_OWNER && Pairing(s.table) && s.cur < 2
    ensures IsStep(s, Lock, s.(owner := s.cur))
  {
  }

  function Act(i: nat): Action {
    match i
    case 0 => Spawn
    case 1 => Tick
    case 3 => Tick
    case _ => Lock
  }

  lemma StageStep(i: nat)
    requires i < 5
    ensures IsStep(Stage(i), Act(i), Stage(i + 1))
  {
    if i == 0 { SpawnStage(Stage(0), Stage(1)); }
    else if i == 1 { TickStage(Stage(1), 1, Stage(2)); }
    else if i == 2 { LockStage(Stage(2)); }
    else if i == 3 { TickStage(Stage(3), 0, Stage(4)); }
    else { WaitStage(Stage(4), 1, Stage(5)); }
  }

  /** Without politeness a reachable scan fails: main spawns a thread that takes the mutex, main
      comes to wait for it, and the owner blocks itself. */
  lemma BlockedOwnerFailsScan()
    ensures IsRun(Firsts(Stage, 6), Firsts(Act, 5)) && Stage(0) == Init()
    ensures Allowed(Stage(5), Block(1)) && Do(Stage(5), Block(1)).None?
  {
    InitInv();
    forall i: nat {:trigger Act(i)} | i < 5 ensures IsStep(Stage(i), Act(i), Stage(i + 1)) { StageStep(i); }
    RunOf(Stage, Act, 5);
    RunInv(Firsts(Stage, 6), Firsts(Act, 5), 5);
    OwnerBlocksItself(Stage(5));
  }

  lemma OwnerBlocksItself(s: State)
    requires s == Stage(5) && Inv(s)
    ensures Allowed(s, Block(1)) && Do(s, Block(1)).None?
  {
    ScanFailsIff(s, Block(1));
  }
}
