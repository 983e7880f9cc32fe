/** Queue entries that outlive their thread: when the id of a dead thread has been given to a new
    one, an entry of the dead thread makes the new one run, even while it is BLOCKED. */
module SchedulerStale {
  import opened Scheduler
  import opened SchedulerSafety
  import opened SchedulerRuns
  import opened SchedulerCalls
  import opened SchedulerMutex

  /** The entry is of a dead thread whose id is in use again. */
  predicate Stale(s: State, o: nat) {
    Kept(s, o) && s.table[s.threads[o].tid] != Some(o)
  }

  /** The entry a decision takes, in the state after the current thread has given up the processor. */
  function Taken(d: State): nat
    requires FirstReady(d, KeepLive(d, d.fifo), 0) < |KeepLive(d, d.fifo)|
  {
    KeepLive(d, d.fifo)[FirstReady(d, KeepLive(d, d.fifo), 0)]
  }

  /** A decision runs a BLOCKED thread exactly when the first READY entry is stale and the thread
      that has its id now is BLOCKED. */
  lemma RunsBlockedIff(s: State, tick: bool)
    requires Pending(s, tick) && Schedule(s, tick).Some?
    ensures var d := Demoted(s, tick);
      && FirstReady(d, KeepLive(d, d.fifo), 0) < |KeepLive(d, d.fifo)|
      && (IsBlocked(d, Schedule(s, tick).value.cur) <==>
          Stale(d, Taken(d)) && IsBlocked(d, d.threads[Taken(d)].tid))
  {
    DemotedSettles(s, tick);
    var d := Demoted(s, tick);
    var q := KeepLive(d, d.fifo);
    var i := FirstReady(d, q, 0);
    assert i < |q|;
    KeepLiveIn(d, d.fifo, q[i]);
  }

  /** So without stale entries in the queue no decision runs a BLOCKED thread. */
  lemma FreshQueueRunsReady(s: State, tick: bool)
    requires Pending(s, tick) && Schedule(s, tick).Some?
    requires forall o | o in s.fifo :: !Stale(s, o)
    ensures !IsBlocked(Demoted(s, tick), Schedule(s, tick).value.cur)
  {
    RunsBlockedIff(s, tick);
    var d := Demoted(s, tick);
    DemotedSettles(s, tick);
    KeepLiveIn(d, d.fifo, Taken(d));
    DemotedStale(s, tick, Taken(d));
  }

  lemma DemotedStale(s: State, tick: bool, o: nat)
    requires Core(s) && o in Demoted(s, tick).fifo
    ensures Stale(Demoted(s, tick), o) ==> o in s.fifo && Stale(s, o)
  {
  }

  // ---------- A run in which a BLOCKED thread runs ----------

  /** main spawns thread 1, terminates it, spawns another one, which gets the same id, blocks it,
      and is interrupted by a tick. */
  function Act(i: nat): Action {
    match i
    case 0 => Spawn
    case 1 => Terminate(1)
    case 2 => Spawn
    case 3 => Block(1)
    case _ => Tick
  }

  function Main(): Thread {
    Thread(0, RUNNING, 1, false)
  }

  /** Object 1 is the thread that was terminated, object 2 the one that has its id now. */
  function Phase(i: nat): State {
    match i
    case 0 => Init()
    case 1 => State(Boot().table[1 := Some(1)], [Main(), Thread(1, READY, 0, false)], [1], [], NO_OWNER, 0, 1)
    case 2 => State(Boot().table, [Main(), Thread(1, READY, 0, false)], [1], [], NO_OWNER, 0, 1)
    case 3 => State(Boot().table[1 := Some(2)],
                    [Main(), Thread(1, READY, 0, false), Thread(1, READY, 0, false)], [1, 2], [], NO_OWNER, 0, 1)
    case 4 => State(Boot().table[1 := Some(2)],
                    [Main(), Thread(1, READY, 0, false), Thread(1, BLOCKED, 0, false)], [1, 2], [], NO_OWNER, 0, 1)
    case _ => State(Boot().table[1 := Some(2)],
                    [Thread(0, READY, 1, false), Thread(1, READY, 0, false), Thread(1, RUNNING, 1, false)],
                    [2, 0], [], NO_OWNER, 1, 2)
  }

  lemma SpawnOne(s: State, e: State, o: nat)
    requires |s.table| == MAX_THREAD_NUM && s.table[0].Some? && s.table[1].None? && Live(s, s.cur)
    requires o == |s.threads|
    requires e == s.(table := s.table[1 := Some(o)], threads := e.threads, fifo := e.fifo)
    requires e.threads == s.threads + [Thread(1, READY, 0, false)] && e.fifo == s.fifo + [o]
    ensures IsStep(s, Spawn, e)
  {
    assert FreeTid(s.table, 1) == 1;
  }

  lemma TerminateOne(s: State, e: State)
    requires |s.table| == MAX_THREAD_NUM && s.table[1].Some? && Live(s, s.cur) && s.owner == NO_OWNER
    requires e == s.(table := s.table[1 := None])
    ensures IsStep(s, Terminate(1), e)
  {
  }

  lemma BlockOne(s: State, e: State)
    requires |s.table| == MAX_THREAD_NUM && HasObject(s, 1) && Live(s, s.cur) && s.cur != 1
    requires e == s.(threads := s.threads[Obj(s, 1) := s.threads[Obj(s, 1)].(status := BLOCKED)])
    ensures IsStep(s, Block(1), e)
  {
  }

  lemma TickDemotesMain(s: State, d: State)
    requires HasObject(s, s.cur) && Obj(s, s.cur) == 0 && s.threads[0].status == RUNNING
    requires d == s.(fifo := s.fifo + [0], threads := s.threads[0 := s.threads[0].(status := READY)])
    ensures Demoted(s, true) == d
  {
  }

  lemma TickRunsNew(s: State, e: State)
    requires s == Phase(4) && e == Phase(5)
    ensures IsStep(s, Tick, e)
  {
    var d := s.(fifo := [1, 2, 0], threads := [Thread(0, READY, 1, false), s.threads[1], s.threads[2]]);
    assert s.threads[0 := s.threads[0].(status := READY)] == d.threads;
    TickDemotesMain(s, d);
    TickTakesOld(s, d);
    assert Dispatch(d.(fifo := [2, 0]), 1).threads == e.threads;
  }

  lemma TickTakesOld(s: State, d: State)
    requires d == Demoted(s, true) && d.fifo == [1, 2, 0] && |d.threads| == 3 && |d.table| == MAX_THREAD_NUM
    requires d.table[0] == Some(0) && d.table[1] == Some(2)
    requires d.threads[0].tid == 0 && d.threads[1].tid == 1 && d.threads[2].tid == 1 && d.threads[1].status == READY
    ensures Schedule(s, true) == Some(Dispatch(d.(fifo := [2, 0]), 1))
  {
    assert [1] + [2, 0] == d.fifo;
    ScheduleFirst(s, true, d, 1, [2, 0]);
  }

  lemma SpawnFirst(s: State, e: State)
    requires s == Phase(0) && e == Phase(1)
    ensures IsStep(s, Spawn, e)
  {
    SpawnOne(s, e, 1);
  }

  lemma TerminateFirst(s: State, e: State)
    requires s == Phase(1) && e == Phase(2)
    ensures IsStep(s, Terminate(1), e)
  {
    assert s.table[1 := None] == e.table;
    TerminateOne(s, e);
  }

  lemma SpawnSecond(s: State, e: State)
    requires s == Phase(2) && e == Phase(3)
    ensures IsStep(s, Spawn, e)
  {
    SpawnOne(s, e, 2);
  }

  lemma BlockSecond(s: State, e: State)
    requires s == Phase(3) && e == Phase(4)
    ensures IsStep(s, Block(1), e)
  {
    BlockOne(s, e);
  }

  lemma PhaseStep(i: nat)
    requires i < 5
    ensures IsStep(Phase(i), Act(i), Phase(i + 1))
  {
    var s, e := Phase(i), Phase(i + 1);
    if i == 0 { SpawnFirst(s, e); }
    else if i == 1 { TerminateFirst(s, e); }
    else if i == 2 { SpawnSecond(s, e); }
    else if i == 3 { BlockSecond(s, e); }
    else { TickRunsNew(s, e); }
  }

  /** A polite run from the start in which thread 1 is blocked by name, nobody resumes it, and the
      next tick runs it. */
  lemma BlockedThreadRuns()
    ensures IsRun(Firsts(Phase, 6), Firsts(Act, 5)) && Phase(0) == Init()
    ensures Act(4) == Tick && IsBlocked(Phase(4), 1)
    ensures Phase(5).cur == 1 && HasObject(Phase(5), 1) && StatusOf(Phase(5), 1) == RUNNING
  {
    InitInv();
    forall i: nat {:trigger Act(i)} | i < 5 ensures IsStep(Phase(i), Act(i), Phase(i + 1)) { PhaseStep(i); }
    RunOf(Phase, Act, 5);
    BlockedThenRunning(Phase(4), Phase(5));
  }

  lemma BlockedThenRunning(s: State, e: State)
    requires s == Phase(4) && e == Phase(5)
    ensures IsBlocked(s, 1) && e.cur == 1 && HasObject(e, 1) && StatusOf(e, 1) == RUNNING
  {
  }
}
