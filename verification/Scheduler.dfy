/** The user-level thread scheduler and its mutex, as functions on a state. Threads are objects
    with an identity: `threads` lists every thread ever created, the table, the queue and the list
    of waiters refer to them by index, and an entry may outlive its thread. Each library call and
    each timer tick is one atomic step. */
module Scheduler {

  const MAX_THREAD_NUM: nat := 100
  const NO_OWNER: int := -1

  datatype Option<T> = None | Some(value: T)

  datatype Status = READY | RUNNING | BLOCKED

  /** `parked` records that the thread was last blocked by the mutex and not made ready since. */
  datatype Thread = Thread(tid: nat, status: Status, quanta: nat, parked: bool)

  datatype State = State(
    table: seq<Option<nat>>,
    threads: seq<Thread>,
    fifo: seq<nat>,
    waiters: seq<nat>,
    owner: int,
    cur: nat,
    total: nat)

  // ---------- Reading the state ----------

  /** contain(tid), for a tid that is not negative */
  predicate Live(s: State, tid: int) {
    0 <= tid < |s.table| && s.table[tid].Some?
  }

  predicate HasObject(s: State, tid: int) {
    Live(s, tid) && s.table[tid].value < |s.threads|
  }

  function Obj(s: State, tid: nat): nat
    requires HasObject(s, tid)
  {
    s.table[tid].value
  }

  function StatusOf(s: State, tid: nat): Status
    requires HasObject(s, tid)
  {
    s.threads[Obj(s, tid)].status
  }

  function WithThread(s: State, o: nat, x: Thread): State
    requires o < |s.threads|
  {
    s.(threads := s.threads[o := x])
  }

  function Ready(x: Thread): Thread {
    x.(status := READY, parked := false)
  }

  // ---------- SchedulerMain ----------

  /** The entry's thread id is still in use, by the entry's thread or by a later one. */
  predicate Kept(s: State, o: nat) {
    o < |s.threads| && Live(s, s.threads[o].tid)
  }

  /** deleteDeadThreads */
  function KeepLive(s: State, q: seq<nat>): seq<nat> {
    if q == [] then []
    else KeepLive(s, q[..|q| - 1]) + if Kept(s, q[|q| - 1]) then [q[|q| - 1]] else []
  }

  predicate IsReady(s: State, o: nat) {
    o < |s.threads| && s.threads[o].status == READY
  }

  /** The index of the first READY entry at or after i, or the length of the queue. */
  function FirstReady(s: State, q: seq<nat>, i: nat): (r: nat)
    requires i <= |q|
    ensures i <= r <= |q|
    ensures r < |q| ==> IsReady(s, q[r])
    ensures forall k :: i <= k < r ==> !IsReady(s, q[k])
    decreases |q| - i
  {
    if i == |q| || IsReady(s, q[i]) then i else FirstReady(s, q, i + 1)
  }

  function DropBlocked(s: State, q: seq<nat>): seq<nat> {
    if q == [] then []
    else
      var o := q[|q| - 1];
      DropBlocked(s, q[..|q| - 1]) + if o < |s.threads| && s.threads[o].status == BLOCKED then [] else [o]
  }

  /** The current thread gives up the processor; a timer tick puts it back into the queue. */
  function Demoted(s: State, tick: bool): State {
    if !HasObject(s, s.cur) then s
    else
      var o := Obj(s, s.cur);
      var s1 := if tick then s.(fifo := s.fifo + [o]) else s;
      if s.threads[o].status == RUNNING then WithThread(s1, o, s.threads[o].(status := READY)) else s1
  }

  /** The thread that currently has tid starts a quantum. */
  function Dispatch(s: State, tid: nat): State
    requires HasObject(s, tid)
  {
    var o := Obj(s, tid);
    var x := s.threads[o];
    WithThread(s.(cur := tid, total := s.total + 1), o, Thread(x.tid, RUNNING, x.quanta + 1, false))
  }

  /** None when the scan for a READY entry runs off the end of the queue. */
  function Schedule(s: State, tick: bool): Option<State> {
    var s1 := Demoted(s, tick);
    if !Live(s1, 0) then Some(s1)
    else
      var q := KeepLive(s1, s1.fifo);
      var i := FirstReady(s1, q, 0);
      if i == |q| then None
      else
        var tid := s1.threads[q[i]].tid;
        if !HasObject(s1, tid) then None
        else Some(Dispatch(s1.(fifo := DropBlocked(s1, q[..i]) + q[i + 1..]), tid))
  }

  // ---------- The library calls ----------

  datatype Action = Spawn | Terminate(tid: nat) | Block(tid: nat) | Resume(tid: nat) | Lock | Unlock | Tick

  /** The lowest free thread id from t on, or the size of the table. */
  function FreeTid(table: seq<Option<nat>>, t: nat): (r: nat)
    requires t <= |table|
    ensures t <= r <= |table|
    ensures r < |table| ==> table[r].None?
    ensures forall k :: t <= k < r ==> table[k].Some?
    decreases |table| - t
  {
    if t == |table| || table[t].None? then t else FreeTid(table, t + 1)
  }

  function DoSpawn(s: State): State
    requires 0 < |s.table|
  {
    var tid := FreeTid(s.table, 1);
    if tid == |s.table| then s
    else
      var o := |s.threads|;
      s.(table := s.table[tid := Some(o)], threads := s.threads + [Thread(tid, READY, 0, false)], fifo := s.fifo + [o])
  }

  /** The mutex is released by its owner only; every waiter becomes READY and is queued. */
  function DoUnlock(s: State): State {
    if s.owner == NO_OWNER || s.owner != s.cur then s
    else s.(owner := NO_OWNER, threads := Woken(s.threads, s.waiters), fifo := s.fifo + s.waiters, waiters := [])
  }

  function Woken(threads: seq<Thread>, waiters: seq<nat>): (r: seq<Thread>)
    ensures |r| == |threads|
    ensures forall o :: 0 <= o < |r| ==> r[o] == if o in waiters then Ready(threads[o]) else threads[o]
  {
    seq(|threads|, o requires 0 <= o < |threads| => if o in waiters then Ready(threads[o]) else threads[o])
  }

  /** For tid 0 the process exits; see Allowed. */
  function DoTerminate(s: State, tid: nat): State {
    if !Live(s, tid) || tid == 0 then s
    else
      var s1 := if s.owner == tid then DoUnlock(s) else s;
      s1.(table := s1.table[tid := None])
  }

  function DoBlock(s: State, tid: nat): Option<State> {
    if !HasObject(s, tid) || tid == 0 then Some(s)
    else
      var o := Obj(s, tid);
      var s1 := WithThread(s, o, s.threads[o].(status := BLOCKED));
      if tid == s.cur then Schedule(s1, false) else Some(s1)
  }

  function DoResume(s: State, tid: nat): State {
    if !HasObject(s, tid) then s
    else
      var o := Obj(s, tid);
      WithThread(s, o, Ready(s.threads[o])).(fifo := s.fifo + [o])
  }

  /** One attempt to take the mutex. A thread that finds it taken is listed twice, blocked and
      descheduled; its next action is another attempt. */
  function DoLock(s: State): Option<State> {
    if s.owner == NO_OWNER then Some(s.(owner := s.cur))
    else if !MustWait(s) then Some(s)
    else Schedule(Parked(s), false)
  }

  /** The mutex is another's; a thread that is already BLOCKED would spin here. */
  predicate MustWait(s: State) {
    s.owner != NO_OWNER && s.owner != s.cur && HasObject(s, s.cur) && StatusOf(s, s.cur) != BLOCKED
  }

  function Parked(s: State): State
    requires HasObject(s, s.cur)
  {
    var o := Obj(s, s.cur);
    WithThread(s.(waiters := s.waiters + [o, o]), o, s.threads[o].(status := BLOCKED, parked := true))
  }

  function Do(s: State, a: Action): Option<State>
    requires 0 < |s.table|
  {
    match a
    case Spawn => Some(DoSpawn(s))
    case Terminate(tid) => Some(DoTerminate(s, tid))
    case Block(tid) => DoBlock(s, tid)
    case Resume(tid) => Some(DoResume(s, tid))
    case Lock => DoLock(s)
    case Unlock => Some(DoUnlock(s))
    case Tick => Schedule(s, true)
  }

  /** A thread that has terminated itself takes only ticks; terminating main ends the process. */
  predicate Allowed(s: State, a: Action) {
    a == Tick || (Live(s, s.cur) && a != Terminate(0))
  }

  /** The action makes a scheduling decision. */
  predicate Decides(s: State, a: Action) {
    match a
    case Tick => true
    case Block(tid) => tid == s.cur && tid != 0 && HasObject(s, tid)
    case Lock => MustWait(s)
    case _ => false
  }

  /** uthread_init up to its first call of the scheduler. */
  function Boot(): State {
    State(seq(MAX_THREAD_NUM, i => if i == 0 then Some(0) else None),
          [Thread(0, READY, 0, false)], [0], [], NO_OWNER, 0, 0)
  }

  /** The state in which uthread_init returns. */
  function Init(): State {
    State(Boot().table, [Thread(0, RUNNING, 1, false)], [], [], NO_OWNER, 0, 1)
  }

  lemma InitIsFirstSchedule()
    ensures Schedule(Boot(), false) == Some(Init())
  {
    var s := Boot();
    assert Demoted(s, false) == s;
    assert [0][..0] == [] && s.fifo == [0];
    assert KeepLive(s, []) == [] && KeepLive(s, s.fifo) == [0];
    assert FirstReady(s, [0], 0) == 0;
    assert DropBlocked(s, [0][..0]) + [0][1..] == [];
    assert Dispatch(s.(fifo := []), 0).threads == Init().threads;
  }
}
