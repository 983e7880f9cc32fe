/** What every library call and every timer tick keeps: no thread is lost, no wake-up is lost. */
module SchedulerSafety {
  import opened Scheduler

  ghost predicate Known(q: seq<nat>, n: nat) {
    forall o | o in q :: o < n
  }

  ghost predicate TableOk(s: State) {
    |s.table| == MAX_THREAD_NUM
    && forall t | 0 <= t < |s.table| && s.table[t].Some? ::
         s.table[t].value < |s.threads| && s.threads[s.table[t].value].tid == t
  }

  ghost predicate Core(s: State) {
    && TableOk(s)
    && Live(s, 0)
    && s.cur < MAX_THREAD_NUM
    && NO_OWNER <= s.owner < MAX_THREAD_NUM
    && Known(s.fifo, |s.threads|)
    && Known(s.waiters, |s.threads|)
  }

  /** A live thread is where its status says: READY in the queue, RUNNING only as the current one,
      blocked by the mutex in the list of waiters; main is blocked by nothing else. */
  ghost predicate Placed(s: State, t: nat)
    requires HasObject(s, t)
  {
    var o := Obj(s, t);
    var x := s.threads[o];
    && (x.status == READY && t != s.cur ==> o in s.fifo)
    && (x.status == RUNNING ==> t == s.cur)
    && (x.status == BLOCKED ==> t != s.cur)
    && Waits(s, t)
  }

  ghost predicate Waits(s: State, t: nat)
    requires HasObject(s, t)
  {
    var o := Obj(s, t);
    var x := s.threads[o];
    && (x.parked ==> x.status == BLOCKED && o in s.waiters)
    && (t == 0 && x.status == BLOCKED ==> x.parked)
  }

  ghost predicate Inv(s: State) {
    && Core(s)
    && (s.owner == NO_OWNER ==> s.waiters == [])
    && forall t: nat | Live(s, t) :: Placed(s, t)
  }

  /** Between the demotion of the current thread and the next dispatch nobody is RUNNING. */
  ghost predicate Waiting(s: State, t: nat)
    requires HasObject(s, t)
  {
    && (StatusOf(s, t) == READY ==> Obj(s, t) in s.fifo)
    && StatusOf(s, t) != RUNNING
    && Waits(s, t)
  }

  ghost predicate Settled(s: State) {
    && Core(s)
    && (s.owner == NO_OWNER ==> s.waiters == [])
    && forall t: nat | Live(s, t) :: Waiting(s, t)
  }

  // ---------- The queue filters ----------

  lemma {:induction false} KeepLiveIn(s: State, q: seq<nat>, o: nat)
    ensures o in KeepLive(s, q) <==> o in q && Kept(s, o)
    decreases |q|
  {
    if q != [] {
      KeepLiveIn(s, q[..|q| - 1], o);
      assert q == q[..|q| - 1] + [q[|q| - 1]];
    }
  }

  ghost predicate StatusIs(s: State, o: nat, status: Status) {
    o < |s.threads| && s.threads[o].status == status
  }

  lemma {:induction false} DropBlockedIn(s: State, q: seq<nat>, o: nat)
    ensures o in DropBlocked(s, q) <==> o in q && !StatusIs(s, o, BLOCKED)
    decreases |q|
  {
    if q != [] {
      DropBlockedIn(s, q[..|q| - 1], o);
      assert q == q[..|q| - 1] + [q[|q| - 1]];
    }
  }

  function Rest(s: State, q: seq<nat>, i: nat): seq<nat>
    requires i < |q|
  {
    DropBlocked(s, q[..i]) + q[i + 1..]
  }

  /** The queue after a decision keeps every READY entry but the one it took. */
  lemma RestIn(s: State, q: seq<nat>, i: nat, o: nat)
    requires i < |q|
    ensures o in Rest(s, q, i) ==> o in q
    ensures o in q && o != q[i] && IsReady(s, o) ==> o in Rest(s, q, i)
  {
    DropBlockedIn(s, q[..i], o);
    assert q == q[..i] + [q[i]] + q[i + 1..];
  }

  // ---------- A scheduling decision ----------

  /** Every READY live thread but the current one is queued; the current one may just have been
      blocked, and only a tick finds it otherwise. */
  ghost predicate Pending(s: State, tick: bool) {
    && Core(s)
    && (s.owner == NO_OWNER ==> s.waiters == [])
    && (forall t: nat | Live(s, t) && t != s.cur :: Placed(s, t))
    && (Live(s, s.cur) ==> Waits(s, s.cur) && ((StatusOf(s, s.cur) == BLOCKED) <==> !tick))
  }

  lemma DemotedSettles(s: State, tick: bool)
    requires Pending(s, tick)
    ensures Settled(Demoted(s, tick))
    ensures Demoted(s, tick).cur == s.cur && Demoted(s, tick).owner == s.owner
    ensures Demoted(s, tick).table == s.table
  {
    var d := Demoted(s, tick);
    if Live(s, s.cur) {
      assert s.fifo <= d.fifo;
      forall t: nat | Live(d, t) ensures Waiting(d, t) {
        if t != s.cur { assert Placed(s, t); OtherObject(s, t, s.cur); }
      }
    } else {
      forall t: nat | Live(d, t) ensures Waiting(d, t) { assert Placed(s, t); }
    }
  }

  lemma OtherObject(s: State, t: nat, u: nat)
    requires TableOk(s) && Live(s, t) && Live(s, u) && t != u
    ensures Obj(s, t) != Obj(s, u)
  {
  }

  lemma DispatchPlaces(s: State, q: seq<nat>, i: nat, t: nat)
    requires Settled(s) && i < |q| && IsReady(s, q[i]) && Kept(s, q[i])
    requires forall o :: o in s.fifo && Kept(s, o) ==> o in q
    requires Live(s, t)
    ensures var tid := s.threads[q[i]].tid;
      HasObject(s, tid)
      && HasObject(Dispatch(s.(fifo := Rest(s, q, i)), tid), t)
      && Placed(Dispatch(s.(fifo := Rest(s, q, i)), tid), t)
  {
    var tid := s.threads[q[i]].tid;
    assert Waiting(s, t) && Waiting(s, tid);
    if t != tid {
      OtherObject(s, t, tid);
      RestIn(s, q, i, Obj(s, t));
    }
  }

  lemma SettledSchedules(s: State, q: seq<nat>, i: nat)
    requires Settled(s) && i < |q| && IsReady(s, q[i]) && Kept(s, q[i])
    requires forall o :: o in s.fifo && Kept(s, o) <==> o in q
    ensures HasObject(s, s.threads[q[i]].tid)
    ensures Inv(Dispatch(s.(fifo := Rest(s, q, i)), s.threads[q[i]].tid))
  {
    var tid := s.threads[q[i]].tid;
    var e := Dispatch(s.(fifo := Rest(s, q, i)), tid);
    forall t: nat | Live(e, t) ensures HasObject(e, t) && Placed(e, t) {
      DispatchPlaces(s, q, i, t);
    }
    forall o | o in e.fifo ensures o < |e.threads| {
      RestIn(s, q, i, o);
    }
  }

  /** What the scan finds in a queue without dead entries, and what it leaves. */
  lemma SettledCases(d: State, q: seq<nat>)
    requires Settled(d) && forall o :: o in d.fifo && Kept(d, o) <==> o in q
    ensures var i := FirstReady(d, q, 0);
      && (i == |q| <==> forall o :: o in d.fifo && Kept(d, o) ==> !IsReady(d, o))
      && (i < |q| ==> HasObject(d, d.threads[q[i]].tid)
                      && Inv(Dispatch(d.(fifo := Rest(d, q, i)), d.threads[q[i]].tid)))
  {
    var i := FirstReady(d, q, 0);
    if i < |q| {
      assert q[i] in q;
      SettledSchedules(d, q, i);
    }
  }

  /** The shape of a decision: it fails exactly when no queued entry is READY under a live id. */
  lemma ScheduleCases(s: State, tick: bool)
    requires Pending(s, tick)
    ensures var d := Demoted(s, tick);
      Schedule(s, tick).None? <==> (forall o :: o in d.fifo && Kept(d, o) ==> !IsReady(d, o))
    ensures Schedule(s, tick).Some? ==> Inv(Schedule(s, tick).value)
  {
    var d := Demoted(s, tick);
    DemotedSettles(s, tick);
    var q := KeepLive(d, d.fifo);
    forall o ensures o in d.fifo && Kept(d, o) <==> o in q { KeepLiveIn(d, d.fifo, o); }
    SettledCases(d, q);
  }

  // ---------- Every action keeps the invariant ----------

  lemma InitInv()
    ensures Inv(Init())
  {
    var s := Init();
    forall t: nat | Live(s, t) ensures Placed(s, t) { assert t == 0; }
  }

  lemma SpawnKeeps(s: State)
    requires Inv(s)
    ensures Inv(DoSpawn(s))
  {
    var e := DoSpawn(s);
    var tid := FreeTid(s.table, 1);
    if tid < |s.table| {
      forall t: nat | Live(e, t) ensures Placed(e, t) {
        if t != tid { assert Live(s, t) && Placed(s, t); }
      }
    }
  }

  lemma UnlockKeeps(s: State)
    requires Inv(s)
    ensures Inv(DoUnlock(s))
    ensures DoUnlock(s).table == s.table && DoUnlock(s).cur == s.cur
    ensures s.owner != NO_OWNER && s.owner == s.cur ==> DoUnlock(s).owner == NO_OWNER
  {
    var e := DoUnlock(s);
    if s.owner != NO_OWNER && s.owner == s.cur {
      forall t: nat | Live(e, t) ensures Placed(e, t) { assert Live(s, t) && Placed(s, t); }
    }
  }

  lemma TerminateKeeps(s: State, tid: nat)
    requires Inv(s)
    ensures Inv(DoTerminate(s, tid))
  {
    UnlockKeeps(s);
    if Live(s, tid) && tid != 0 {
      var s1 := if s.owner == tid then DoUnlock(s) else s;
      var e := DoTerminate(s, tid);
      forall t: nat | Live(e, t) ensures Placed(e, t) { assert Live(s1, t) && Placed(s1, t); }
    }
  }

  function Blocked(s: State, tid: nat): State
    requires HasObject(s, tid)
  {
    WithThread(s, Obj(s, tid), s.threads[Obj(s, tid)].(status := BLOCKED))
  }

  lemma BlockedPlaces(s: State, tid: nat, t: nat)
    requires Inv(s) && Live(s, tid) && tid != 0 && Live(s, t) && (t != tid || t != s.cur)
    ensures HasObject(Blocked(s, tid), t) && Placed(Blocked(s, tid), t)
  {
    assert Placed(s, t);
    if t != tid { OtherObject(s, t, tid); }
  }

  lemma BlockedPends(s: State, tid: nat)
    requires Inv(s) && Live(s, tid) && tid != 0
    ensures tid == s.cur ==> Pending(Blocked(s, tid), false)
    ensures tid != s.cur ==> Inv(Blocked(s, tid))
  {
    var e := Blocked(s, tid);
    assert Placed(s, tid);
    forall t: nat | Live(e, t) && (t != tid || t != s.cur) ensures HasObject(e, t) && Placed(e, t) {
      BlockedPlaces(s, tid, t);
    }
  }

  lemma BlockKeeps(s: State, tid: nat)
    requires Inv(s)
    ensures DoBlock(s, tid).Some? ==> Inv(DoBlock(s, tid).value)
  {
    if Live(s, tid) && tid != 0 {
      BlockedPends(s, tid);
      if tid == s.cur { ScheduleCases(Blocked(s, tid), false); }
    }
  }

  lemma ResumeKeeps(s: State, tid: nat)
    requires Inv(s)
    ensures Inv(DoResume(s, tid))
  {
    if Live(s, tid) {
      var e := DoResume(s, tid);
      assert s.fifo <= e.fifo;
      forall t: nat | Live(e, t) ensures Placed(e, t) {
        assert Placed(s, t);
        if t != tid { OtherObject(s, t, tid); }
      }
    }
  }

  lemma ParkedPends(s: State)
    requires Inv(s) && MustWait(s)
    ensures Pending(Parked(s), false)
  {
    var e := Parked(s);
    forall t: nat | Live(e, t) && t != s.cur ensures Placed(e, t) {
      assert Placed(s, t);
      OtherObject(s, t, s.cur);
    }
  }

  lemma LockKeeps(s: State)
    requires Inv(s) && Live(s, s.cur)
    ensures DoLock(s).Some? ==> Inv(DoLock(s).value)
  {
    if s.owner == NO_OWNER {
      var e := s.(owner := s.cur);
      forall t: nat | Live(e, t) ensures Placed(e, t) { assert Placed(s, t); }
    } else if MustWait(s) {
      ParkedPends(s);
      ScheduleCases(Parked(s), false);
    }
  }

  lemma TickPends(s: State)
    requires Inv(s)
    ensures Pending(s, true)
  {
    if Live(s, s.cur) { assert Placed(s, s.cur); }
  }

  lemma StepInv(s: State, a: Action)
    requires Inv(s) && Allowed(s, a)
    ensures Do(s, a).Some? ==> Inv(Do(s, a).value)
  {
    match a
    case Spawn => SpawnKeeps(s);
    case Terminate(tid) => TerminateKeeps(s, tid);
    case Block(tid) => BlockKeeps(s, tid);
    case Resume(tid) => ResumeKeeps(s, tid);
    case Lock => LockKeeps(s);
    case Unlock => UnlockKeeps(s);
    case Tick => TickPends(s); ScheduleCases(s, true);
  }

  // ---------- When the scan runs off the end ----------

  /** Whatever is queued as READY under a live id is the current thread itself. */
  ghost predicate NothingElseReady(s: State) {
    forall o | o in s.fifo && Kept(s, o) && IsReady(s, o) :: Live(s, s.cur) && s.table[s.cur] == Some(o)
  }

  /** The state a decision starts from. */
  function Before(s: State, a: Action): State
    requires Decides(s, a)
  {
    match a
    case Block(tid) => Blocked(s, tid)
    case Lock => Parked(s)
    case _ => s
  }

  lemma DecisionPends(s: State, a: Action)
    requires Inv(s) && Decides(s, a)
    ensures Pending(Before(s, a), a == Tick)
    ensures Do(s, a) == Schedule(Before(s, a), a == Tick)
  {
    match a
    case Block(tid) => BlockedPends(s, tid);
    case Lock => ParkedPends(s);
    case _ => TickPends(s);
  }

  lemma BlockedBefore(s: State, a: Action, o: nat)
    requires Inv(s) && Decides(s, a) && (a == Tick ==> !Live(s, s.cur))
    ensures var d := Demoted(Before(s, a), a == Tick);
      d.fifo == s.fifo && (Kept(d, o) <==> Kept(s, o))
      && (IsReady(d, o) <==> IsReady(s, o) && !(Live(s, s.cur) && s.table[s.cur] == Some(o)))
  {
  }

  lemma TickFindsCurrent(s: State)
    requires Inv(s) && Live(s, s.cur)
    ensures Schedule(s, true).Some?
  {
    TickPends(s);
    ScheduleCases(s, true);
    var d := Demoted(s, true);
    var o := Obj(s, s.cur);
    assert Placed(s, s.cur);
    assert o in d.fifo && Kept(d, o) && IsReady(d, o);
  }

  /** The scan runs off the queue exactly when a decision finds nothing READY besides the thread
      that has just stopped running, and that thread was not merely interrupted. */
  lemma ScanFailsIff(s: State, a: Action)
    requires Inv(s) && Allowed(s, a)
    ensures Do(s, a).None? <==> Decides(s, a) && !(a == Tick && Live(s, s.cur)) && NothingElseReady(s)
  {
    if Decides(s, a) {
      DecisionPends(s, a);
      if a == Tick && Live(s, s.cur) {
        TickFindsCurrent(s);
      } else {
        ScheduleCases(Before(s, a), a == Tick);
        forall o: nat ensures var d := Demoted(Before(s, a), a == Tick);
          d.fifo == s.fifo && (Kept(d, o) <==> Kept(s, o))
          && (IsReady(d, o) <==> IsReady(s, o) && !(Live(s, s.cur) && s.table[s.cur] == Some(o))) {
          BlockedBefore(s, a, o);
        }
      }
    }
  }
}
