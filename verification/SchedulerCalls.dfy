/** What a step changes: who is alive, who is blocked, and which entries stay in the queue. */
module SchedulerCalls {
  import opened Scheduler
  import opened SchedulerSafety
  import opened SchedulerRuns

  // ---------- Who is alive ----------

  /** A thread id is in use after a step iff it was before and was not terminated, or it is the
      lowest free one and was spawned; threads that stay keep their object. */
  lemma AliveExactly(s: State, a: Action, e: State, t: nat)
    requires Inv(s) && IsStep(s, a, e) && t < MAX_THREAD_NUM
    ensures Live(e, t) <==> (Live(s, t) && a != Terminate(t))
                            || (a == Spawn && !Live(s, t) && forall u | 0 <= u < t :: Live(s, u))
    ensures Live(s, t) && Live(e, t) ==> e.table[t] == s.table[t]
  {
    if Decides(s, a) {
      DecisionPends(s, a);
      DecisionEffect(Before(s, a), a == Tick);
    } else if a == Spawn {
      SpawnedLowest(s, t);
    }
  }

  lemma SpawnedLowest(s: State, t: nat)
    requires Inv(s) && t < MAX_THREAD_NUM
    ensures Live(DoSpawn(s), t) <==> Live(s, t) || forall u | 0 <= u < t :: Live(s, u)
    ensures Live(s, t) ==> DoSpawn(s).table[t] == s.table[t]
  {
    var tid := FreeTid(s.table, 1);
    if tid < t {
      assert !Live(s, tid);
    } else if t < tid {
      assert Live(s, t);
    } else {
      forall u | 0 <= u < t ensures Live(s, u) {
        if u > 0 { assert s.table[u].Some?; }
      }
    }
  }

  // ---------- Who is blocked ----------

  predicate IsBlocked(s: State, t: nat) {
    HasObject(s, t) && StatusOf(s, t) == BLOCKED
  }

  /** The step releases the mutex while thread t's object is among the waiters. */
  predicate Releases(s: State, e: State, t: nat)
    requires HasObject(s, t)
  {
    s.owner != NO_OWNER && e.owner == NO_OWNER && Obj(s, t) in s.waiters
  }

  lemma DecisionBlocked(s: State, tick: bool, t: nat)
    requires Core(s) && Live(s, t) && Schedule(s, tick).Some?
    ensures var e := Schedule(s, tick).value;
      IsBlocked(e, t) <==> t != e.cur && IsBlocked(s, t)
  {
    DecisionEffect(s, tick);
    var e := Schedule(s, tick).value;
    if t != e.cur { OtherObject(s, t, e.cur); }
  }

  lemma BeforeBlocked(s: State, a: Action, t: nat)
    requires Inv(s) && Decides(s, a) && Live(s, t)
    ensures IsBlocked(Before(s, a), t) <==> IsBlocked(s, t) || (a != Tick && t == s.cur)
  {
    if t != s.cur && Live(s, s.cur) { OtherObject(s, t, s.cur); }
  }

  /** After a step a live thread is BLOCKED iff it is not the one that runs now and has just been
      blocked, by name or by the mutex, or it was BLOCKED and has neither been resumed nor been
      waiting for a mutex that was released. */
  lemma BlockedExactly(s: State, a: Action, e: State, t: nat)
    requires Inv(s) && IsStep(s, a, e) && Live(s, t) && Live(e, t)
    ensures IsBlocked(e, t) <==>
            t != e.cur
            && ((a == Block(t) && t != 0)
                || (a == Lock && t == s.cur && MustWait(s))
                || (IsBlocked(s, t) && a != Resume(t) && !Releases(s, e, t)))
  {
    assert Placed(s, t);
    if Decides(s, a) {
      DecisionPends(s, a);
      BeforeBlocked(s, a, t);
      DecisionBlocked(Before(s, a), a == Tick, t);
      DecisionEffect(Before(s, a), a == Tick);
    } else {
      CallBlocked(s, a, e, t);
    }
  }

  lemma CallBlocked(s: State, a: Action, e: State, t: nat)
    requires Inv(s) && IsStep(s, a, e) && Live(s, t) && Live(e, t) && !Decides(s, a) && Placed(s, t)
    ensures e.cur == s.cur
    ensures IsBlocked(e, t) <==>
            (a == Block(t) && t != 0)
            || (IsBlocked(s, t) && a != Resume(t) && !Releases(s, e, t))
    ensures t == s.cur ==> a != Block(t) || t == 0
  {
    match a
    case Block(tid) => if Live(s, tid) && tid != t { OtherObject(s, tid, t); }
    case Resume(tid) => if Live(s, tid) && tid != t { OtherObject(s, tid, t); }
    case _ =>
  }

  // ---------- Which entries stay ----------

  /** Dropping dead entries keeps every other entry as often as it was there. */
  lemma {:induction false} KeepLiveBag(s: State, q: seq<nat>, o: nat)
    ensures multiset(KeepLive(s, q))[o] == if Kept(s, o) then multiset(q)[o] else 0
    decreases |q|
  {
    if q != [] {
      KeepLiveBag(s, q[..|q| - 1], o);
      assert q == q[..|q| - 1] + [q[|q| - 1]];
    }
  }

  lemma {:induction false} DropBlockedBag(s: State, q: seq<nat>, o: nat)
    ensures multiset(DropBlocked(s, q))[o] == if StatusIs(s, o, BLOCKED) then 0 else multiset(q)[o]
    decreases |q|
  {
    if q != [] {
      DropBlockedBag(s, q[..|q| - 1], o);
      assert q == q[..|q| - 1] + [q[|q| - 1]];
    }
  }

  lemma SplitBag(q: seq<nat>, i: nat, o: nat)
    requires i < |q|
    ensures multiset(q)[o] == multiset(q[..i])[o] + (if o == q[i] then 1 else 0) + multiset(q[i + 1..])[o]
  {
    assert q == q[..i] + [q[i]] + q[i + 1..];
  }

  lemma RestBag(s: State, q: seq<nat>, i: nat, o: nat)
    requires i < |q|
    ensures multiset(Rest(s, q, i))[o] + (if o == q[i] then 1 else 0)
            + (if StatusIs(s, o, BLOCKED) then multiset(q[..i])[o] else 0) == multiset(q)[o]
  {
    DropBlockedBag(s, q[..i], o);
    SplitBag(q, i, o);
  }

  lemma DecisionQueue(s: State, tick: bool)
    requires Live(Demoted(s, tick), 0) && Schedule(s, tick).Some?
    ensures var d, e := Demoted(s, tick), Schedule(s, tick).value;
      var q := KeepLive(d, d.fifo);
      var i := FirstReady(d, q, 0);
      i < |q| && IsReady(d, q[i]) && e.cur == d.threads[q[i]].tid && e.fifo == Rest(d, q, i)
  {
  }

  /** A decision takes out of the queue the dead entries, one entry of the thread it runs, and the
      BLOCKED entries in front of that one; every other entry stays as often as it was there. */
  lemma DecisionTakes(s: State, tick: bool, o: nat)
    requires Live(Demoted(s, tick), 0) && Schedule(s, tick).Some?
    ensures var d := Demoted(s, tick);
      var q := KeepLive(d, d.fifo);
      var i := FirstReady(d, q, 0);
      i < |q| && IsReady(d, q[i]) && Schedule(s, tick).value.cur == d.threads[q[i]].tid
      && multiset(Schedule(s, tick).value.fifo)[o] + (if o == q[i] then 1 else 0)
         + (if StatusIs(d, o, BLOCKED) then multiset(q[..i])[o] else 0)
      == if Kept(d, o) then multiset(d.fifo)[o] else 0
  {
    var d := Demoted(s, tick);
    var q := KeepLive(d, d.fifo);
    var i := FirstReady(d, q, 0);
    DecisionQueue(s, tick);
    KeepLiveBag(d, d.fifo, o);
    RestBag(d, q, i, o);
  }
}
