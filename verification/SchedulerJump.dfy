/** A run in which the thread that came to wait for the mutex last is queued first, because it had
    resumed itself just before. */
module SchedulerJump {
  import opened Scheduler
  import opened SchedulerSafety
  import opened SchedulerRuns
  import opened SchedulerExact
  import opened SchedulerOrder
  import opened SchedulerMutex

  /** main spawns threads 1 and 2 and takes the mutex; 1 comes to wait; 2 resumes itself, which queues
      it once more, and comes to wait; main gives up the mutex. */
  function Act(i: nat): Action {
    match i
    case 0 => Spawn
    case 1 => Spawn
    case 2 => Lock
    case 3 => Tick
    case 4 => Lock
    case 5 => Resume(2)
    case 6 => Lock
    case _ => Unlock
  }

  function Three(table: seq<Option<nat>>, x: Thread, y: Thread, z: Thread, fifo: seq<nat>, waiters: seq<nat>,
    owner: int, cur: nat, total: nat): State
  {
    State(table, [x, y, z], fifo, waiters, owner, cur, total)
  }

  function Table(): seq<Option<nat>> {
    Boot().table[1 := Some(1)][2 := Some(2)]
  }

  function Scene(i: nat): State {
    match i
    case 0 => Init()
    case 1 => State(Boot().table[1 := Some(1)], [Thread(0, RUNNING, 1, false), Thread(1, READY, 0, false)],
                    [1], [], NO_OWNER, 0, 1)
    case 2 => Three(Table(), Thread(0, RUNNING, 1, false), Thread(1, READY, 0, false), Thread(2, READY, 0, false),
                    [1, 2], [], NO_OWNER, 0, 1)
    case 3 => Three(Table(), Thread(0, RUNNING, 1, false), Thread(1, READY, 0, false), Thread(2, READY, 0, false),
                    [1, 2], [], 0, 0, 1)
    case 4 => Three(Table(), Thread(0, READY, 1, false), Thread(1, RUNNING, 1, false), Thread(2, READY, 0, false),
                    [2, 0], [], 0, 1, 2)
    case 5 => Three(Table(), Thread(0, READY, 1, false), Thread(1, BLOCKED, 1, true), Thread(2, RUNNING, 1, false),
                    [0], [1, 1], 0, 2, 3)
    case 6 => Three(Table(), Thread(0, READY, 1, false), Thread(1, BLOCKED, 1, true), Thread(2, READY, 1, false),
                    [0, 2], [1, 1], 0, 2, 3)
    case 7 => Three(Table(), Thread(0, RUNNING, 2, false), Thread(1, BLOCKED, 1, true), Thread(2, BLOCKED, 1, true),
                    [2], [1, 1, 2, 2], 0, 0, 4)
    case _ => Three(Table(), Thread(0, RUNNING, 2, false), Thread(1, READY, 1, false), Thread(2, READY, 1, false),
                    [2, 1, 1, 2, 2], [], NO_OWNER, 0, 4)
  }

  predicate IsTable(table: seq<Option<nat>>) {
    |table| == MAX_THREAD_NUM && table[0] == Some(0) && table[1] == Some(1) && table[2] == Some(2)
  }

  lemma SpawnAs(s: State, tid: nat, o: nat, e: State)
    requires Live(s, s.cur) && FreeTid(s.table, 1) == tid < |s.table| && o == |s.threads|
    requires e == s.(table := s.table[tid := Some(o)], threads := e.threads, fifo := e.fifo)
    requires e.threads == s.threads + [Thread(tid, READY, 0, false)] && e.fifo == s.fifo + [o]
    ensures IsStep(s, Spawn, e)
  {
  }

  lemma SpawnFirst(s: State, e: State)
    requires s == Scene(0) && e == Scene(1)
    ensures IsStep(s, Spawn, e)
  {
    FreeTidIs(s.table, 1);
    SpawnAs(s, 1, 1, e);
  }

  lemma SpawnSecond(s: State, e: State)
    requires s == Scene(1) && e == Scene(2)
    ensures IsStep(s, Spawn, e)
  {
    FreeTidIs(s.table, 2);
    SpawnAs(s, 2, 2, e);
  }

  /** A state with three threads, whose queue starts with a READY one. */
  predicate Led(d: State, o: nat, rest: seq<nat>) {
    && IsTable(d.table) && |d.threads| == 3
    && d.threads[0].tid == 0 && d.threads[1].tid == 1 && d.threads[2].tid == 2
    && o < 3 && d.fifo == [o] + rest && (forall k | 0 <= k < |rest| :: rest[k] < 3)
    && d.threads[o].status == READY
  }

  lemma LedRuns(b: State, tick: bool, d: State, o: nat, rest: seq<nat>)
    requires d == Demoted(b, tick) && Led(d, o, rest)
    ensures HasObject(d, o) && Obj(d, o) == o && Schedule(b, tick) == Some(Dispatch(d.(fifo := rest), o))
  {
    forall k | 0 <= k < |d.fifo| ensures Kept(d, d.fifo[k]) { if k > 0 { assert d.fifo[k] == rest[k - 1]; } }
    ScheduleFirst(b, tick, d, o, rest);
  }

  lemma Dispatched(d: State, o: nat, rest: seq<nat>, e: State)
    requires Led(d, o, rest)
    requires e == d.(fifo := rest, cur := o, total := d.total + 1, threads := e.threads)
    requires e.threads == d.threads[o := Thread(o, RUNNING, d.threads[o].quanta + 1, false)]
    ensures HasObject(d, o) && Obj(d, o) == o && Dispatch(d.(fifo := rest), o) == e
  {
  }

  lemma TickOne(s: State, e: State)
    requires s == Scene(3) && e == Scene(4)
    ensures IsStep(s, Tick, e)
  {
    var d := s.(fifo := [1, 2, 0], threads := [Thread(0, READY, 1, false), s.threads[1], s.threads[2]]);
    assert s.fifo + [0] == d.fifo && s.threads[0 := s.threads[0].(status := READY)] == d.threads;
    TickDemotes(s, d);
    assert [1] + [2, 0] == d.fifo;
    LedRuns(s, true, d, 1, [2, 0]);
    assert d.threads[1 := Thread(1, RUNNING, 1, false)] == e.threads;
    Dispatched(d, 1, [2, 0], e);
    TickIs(s, e);
  }

  lemma TickDemotes(s: State, d: State)
    requires IsTable(s.table) && |s.threads| == 3 && s.cur == 0 && s.threads[0].status == RUNNING
    requires d == s.(fifo := s.fifo + [0], threads := s.threads[0 := s.threads[0].(status := READY)])
    ensures Demoted(s, true) == d
  {
  }

  lemma TickIs(s: State, e: State)
    requires 0 < |s.table| && Schedule(s, true) == Some(e)
    ensures IsStep(s, Tick, e)
  {
  }

  /** The current thread comes to wait, and the first of the queue runs. */
  lemma LockWaits(s: State, d: State, o: nat, rest: seq<nat>, e: State)
    requires IsTable(s.table) && |s.threads| == 3 && s.cur < 3 && s.owner != NO_OWNER && s.owner != s.cur
    requires s.threads[s.cur].status != BLOCKED
    requires d == s.(waiters := s.waiters + [s.cur, s.cur],
                     threads := s.threads[s.cur := s.threads[s.cur].(status := BLOCKED, parked := true)])
    requires Led(d, o, rest)
    requires e == d.(fifo := rest, cur := o, total := d.total + 1, threads := e.threads)
    requires e.threads == d.threads[o := Thread(o, RUNNING, d.threads[o].quanta + 1, false)]
    ensures IsStep(s, Lock, e)
  {
    ParkedIs(s, d);
    LedRuns(d, false, d, o, rest);
    Dispatched(d, o, rest, e);
    LockIs(s, d, e);
  }

  lemma ParkedIs(s: State, d: State)
    requires IsTable(s.table) && |s.threads| == 3 && s.cur < 3
    requires d == s.(waiters := s.waiters + [s.cur, s.cur],
                     threads := s.threads[s.cur := s.threads[s.cur].(status := BLOCKED, parked := true)])
    ensures HasObject(s, s.cur) && Parked(s) == d && Demoted(d, false) == d
  {
  }

  lemma LockIs(s: State, d: State, e: State)
    requires Live(s, s.cur) && MustWait(s) && Parked(s) == d && Schedule(d, false) == Some(e)
    ensures IsStep(s, Lock, e)
  {
  }

  lemma LockOne(s: State, e: State)
    requires s == Scene(4) && e == Scene(5)
    ensures IsStep(s, Lock, e)
  {
    var d := s.(waiters := [1, 1], threads := [s.threads[0], Thread(1, BLOCKED, 1, true), s.threads[2]]);
    assert s.waiters + [1, 1] == d.waiters;
    assert s.threads[1 := s.threads[1].(status := BLOCKED, parked := true)] == d.threads;
    assert [2] + [0] == d.fifo && d.threads[2 := Thread(2, RUNNING, 1, false)] == e.threads;
    LockWaits(s, d, 2, [0], e);
  }

  lemma LockTwo(s: State, e: State)
    requires s == Scene(6) && e == Scene(7)
    ensures IsStep(s, Lock, e)
  {
    var d := s.(waiters := [1, 1, 2, 2], threads := [s.threads[0], s.threads[1], Thread(2, BLOCKED, 1, true)]);
    assert s.waiters + [2, 2] == d.waiters;
    assert s.threads[2 := s.threads[2].(status := BLOCKED, parked := true)] == d.threads;
    assert [0] + [2] == d.fifo && d.threads[0 := Thread(0, RUNNING, 2, false)] == e.threads;
    LockWaits(s, d, 0, [2], e);
  }

  lemma LockFree(s: State, e: State)
    requires s == Scene(2) && e == Scene(3)
    ensures IsStep(s, Lock, e)
  {
  }

  lemma ResumeSelf(s: State, e: State)
    requires s == Scene(5) && e == Scene(6)
    ensures IsStep(s, Resume(2), e)
  {
    assert s.fifo + [2] == e.fifo;
    assert s.threads[2 := Ready(s.threads[2])] == e.threads;
  }

  lemma UnlockAll(s: State, e: State)
    requires s == Scene(7) && e == Scene(8)
    ensures IsStep(s, Unlock, e)
  {
    assert s.fifo + s.waiters == e.fifo;
    assert Woken(s.threads, s.waiters) == e.threads;
  }

  lemma SceneStep(i: nat)
    requires i < 8
    ensures IsStep(Scene(i), Act(i), Scene(i + 1))
  {
    var s, e := Scene(i), Scene(i + 1);
    if i == 0 { SpawnFirst(s, e); }
    else if i == 1 { SpawnSecond(s, e); }
    else if i == 2 { LockFree(s, e); }
    else if i == 3 { TickOne(s, e); }
    else if i == 4 { LockOne(s, e); }
    else if i == 5 { ResumeSelf(s, e); }
    else if i == 6 { LockTwo(s, e); }
    else { UnlockAll(s, e); }
  }

  /** The order of arrival is not kept for a thread that is still queued from before: thread 1 waits
      first, and after the release thread 2 is queued first. */
  lemma LaterWaiterGoesFirst()
    ensures IsRun(Firsts(Scene, 9), Firsts(Act, 8)) && Scene(0) == Init()
    ensures 1 in Scene(5).waiters && 2 !in Scene(5).waiters && 2 in Scene(7).waiters && Gives(Scene(7), Act(7))
    ensures First(Scene(8).fifo, 2) < First(Scene(8).fifo, 1)
  {
    InitInv();
    forall i: nat {:trigger Act(i)} | i < 8 ensures IsStep(Scene(i), Act(i), Scene(i + 1)) { SceneStep(i); }
    RunOf(Scene, Act, 8);
    Arrived(Scene(5), Scene(7));
    Jumped(Scene(8));
  }

  lemma Arrived(s: State, u: State)
    requires s == Scene(5) && u == Scene(7)
    ensures 1 in s.waiters && 2 !in s.waiters && 2 in u.waiters && Gives(u, Unlock)
  {
    assert u.waiters[2] == 2 && s.waiters[0] == 1;
  }

  lemma Jumped(e: State)
    requires e == Scene(8)
    ensures First(e.fifo, 2) < First(e.fifo, 1)
  {
    FirstIs(e.fifo, 2, 0);
    FirstIs(e.fifo, 1, 1);
  }
}
