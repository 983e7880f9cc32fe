/** Properties of whole runs of the scheduler: the scan that never fails, quanta that add up,
    waiting that is bounded. */
module SchedulerRuns {
  import opened Scheduler
  import opened SchedulerSafety

  /** states[i] is the state before acts[i]; a run starts from any state with the invariant. */
  ghost predicate IsRun(states: seq<State>, acts: seq<Action>) {
    && |states| == |acts| + 1
    && Inv(states[0])
    && forall i {:trigger acts[i]} | 0 <= i < |acts| :: IsStep(states[i], acts[i], states[i + 1])
  }

  ghost predicate IsStep(s: State, a: Action, e: State) {
    0 < |s.table| && Allowed(s, a) && Do(s, a) == Some(e)
  }

  lemma RunStep(states: seq<State>, acts: seq<Action>, j: nat)
    requires IsRun(states, acts) && j < |acts|
    ensures IsStep(states[j], acts[j], states[j + 1])
  {
  }

  lemma RunLonger(states: seq<State>, acts: seq<Action>, a: Action, e: State)
    requires IsRun(states, acts) && IsStep(states[|acts|], a, e)
    ensures IsRun(states + [e], acts + [a])
  {
    forall i {:trigger (acts + [a])[i]} | 0 <= i < |acts + [a]|
      ensures IsStep((states + [e])[i], (acts + [a])[i], (states + [e])[i + 1])
    {
      if i < |acts| { RunStep(states, acts, i); }
    }
  }

  function Firsts<T>(f: nat -> T, k: nat): (r: seq<T>)
    ensures |r| == k && forall i :: 0 <= i < k ==> r[i] == f(i)
  {
    if k == 0 then [] else Firsts(f, k - 1) + [f(k - 1)]
  }

  /** States and actions that are given by their positions make a run when every step is one. */
  lemma {:induction false} RunOf(state: nat -> State, act: nat -> Action, k: nat)
    requires Inv(state(0)) && forall i: nat {:trigger act(i)} | i < k :: IsStep(state(i), act(i), state(i + 1))
    ensures IsRun(Firsts(state, k + 1), Firsts(act, k))
    decreases k
  {
    if k > 0 {
      RunOf(state, act, k - 1);
      var j := k - 1;
      assert IsStep(state(j), act(j), state(j + 1));
      RunLonger(Firsts(state, k), Firsts(act, k - 1), act(j), state(k));
    }
  }

  lemma {:induction false} RunInv(states: seq<State>, acts: seq<Action>, k: nat)
    requires IsRun(states, acts) && k <= |acts|
    ensures Inv(states[k])
    decreases k
  {
    if k > 0 {
      RunInv(states, acts, k - 1);
      RunStep(states, acts, k - 1);
      StepInv(states[k - 1], acts[k - 1]);
    }
  }

  /** At every moment of every run of the library: a free mutex has no waiters, a thread blocked by
      the mutex is among them, and a READY thread that is not running is queued. */
  lemma NoThreadIsLost(states: seq<State>, acts: seq<Action>, k: nat, t: nat)
    requires IsRun(states, acts) && states[0] == Init() && k <= |acts| && HasObject(states[k], t)
    ensures var s, o := states[k], Obj(states[k], t);
      && (s.owner == NO_OWNER ==> s.waiters == [])
      && (s.threads[o].parked ==> s.threads[o].status == BLOCKED && o in s.waiters && s.owner != NO_OWNER)
      && (s.threads[o].status == READY && t != s.cur ==> o in s.fifo)
      && (s.threads[o].status == RUNNING ==> t == s.cur)
  {
    RunInv(states, acts, k);
    assert Placed(states[k], t);
  }

  // ---------- A decision changes one thread ----------

  /** Apart from the queue, a decision changes the thread it runs and the counters. */
  lemma DecisionEffect(s: State, tick: bool)
    requires Core(s) && Schedule(s, tick).Some?
    ensures var e, d := Schedule(s, tick).value, Demoted(s, tick);
      && HasObject(d, e.cur)
      && e.table == s.table && e.owner == s.owner && e.waiters == s.waiters
      && d.table == s.table && d.waiters == s.waiters && d.owner == s.owner && d.total == s.total
      && |d.threads| == |s.threads|
      && (var x := d.threads[Obj(d, e.cur)];
          e.threads == d.threads[Obj(d, e.cur) := Thread(x.tid, RUNNING, x.quanta + 1, false)])
      && e.total == s.total + 1
  {
  }

  // ---------- The scan never fails when the owner is left alone ----------

  /** Nobody blocks the owner of the mutex, and only the owner itself ends it. */
  predicate Polite(s: State, a: Action) {
    match a
    case Block(tid) => tid != s.owner
    case Terminate(tid) => tid != s.owner || tid == s.cur
    case _ => true
  }

  /** The mutex is free or its owner can run. */
  predicate OwnerRuns(s: State) {
    s.owner == NO_OWNER || (HasObject(s, s.owner) && StatusOf(s, s.owner) != BLOCKED)
  }

  lemma DemotedKeepsOwner(s: State, tick: bool)
    requires Core(s) && OwnerRuns(s)
    ensures OwnerRuns(Demoted(s, tick))
  {
  }

  /** A scan can only fail when main waits for a mutex whose owner is gone or has been blocked. */
  lemma FailureBlamesOwner(s: State, a: Action)
    requires Inv(s) && Decides(s, a) && Do(s, a).None?
    ensures var b := Before(s, a);
      && b.owner != NO_OWNER && StatusOf(b, 0) == BLOCKED && b.threads[Obj(b, 0)].parked
      && !OwnerRuns(b)
  {
    DecisionPends(s, a);
    FailureNeedsMain(Before(s, a), a == Tick);
  }

  lemma FailureNeedsMain(b: State, tick: bool)
    requires Pending(b, tick) && Schedule(b, tick).None?
    ensures b.owner != NO_OWNER && StatusOf(b, 0) == BLOCKED && b.threads[Obj(b, 0)].parked && !OwnerRuns(b)
  {
    ScheduleCases(b, tick);
    DemotedSettles(b, tick);
    var d := Demoted(b, tick);
    SettledStuck(d);
    if OwnerRuns(b) { DemotedKeepsOwner(b, tick); }
    assert d.threads[Obj(d, 0)].parked == b.threads[Obj(b, 0)].parked;
  }

  lemma SettledStuck(d: State)
    requires Settled(d) && forall o | o in d.fifo && Kept(d, o) :: !IsReady(d, o)
    ensures d.owner != NO_OWNER && StatusOf(d, 0) == BLOCKED && d.threads[Obj(d, 0)].parked && !OwnerRuns(d)
  {
    assert Waiting(d, 0);
    if Live(d, d.owner) { assert Waiting(d, d.owner); }
  }

  lemma DecisionKeepsOwner(s: State, tick: bool)
    requires Core(s) && OwnerRuns(s) && Schedule(s, tick).Some?
    ensures OwnerRuns(Schedule(s, tick).value)
  {
    DecisionEffect(s, tick);
    DemotedKeepsOwner(s, tick);
  }

  lemma BeforeKeepsOwner(s: State, a: Action)
    requires Inv(s) && OwnerRuns(s) && Polite(s, a) && Decides(s, a)
    ensures OwnerRuns(Before(s, a))
  {
    match a
    case Block(tid) => if s.owner != NO_OWNER { OtherObject(s, s.owner, tid); }
    case Lock => OtherObject(s, s.owner, s.cur);
    case _ =>
  }

  lemma PoliteDecision(s: State, a: Action)
    requires Inv(s) && OwnerRuns(s) && Allowed(s, a) && Polite(s, a) && Decides(s, a)
    ensures Do(s, a).Some? && OwnerRuns(Do(s, a).value)
  {
    BeforeKeepsOwner(s, a);
    if Do(s, a).None? { FailureBlamesOwner(s, a); }
    DecisionPends(s, a);
    DecisionKeepsOwner(Before(s, a), a == Tick);
  }

  lemma PoliteOther(s: State, a: Action)
    requires Inv(s) && OwnerRuns(s) && Allowed(s, a) && Polite(s, a) && !Decides(s, a)
    ensures Do(s, a).Some? && OwnerRuns(Do(s, a).value)
  {
    match a
    case Block(tid) =>
      if Live(s, tid) && Live(s, s.owner) && tid != s.owner { OtherObject(s, tid, s.owner); }
    case Resume(tid) =>
      if Live(s, tid) && Live(s, s.owner) && tid != s.owner { OtherObject(s, tid, s.owner); }
    case Lock =>
      assert Placed(s, s.cur);
    case _ =>
  }

  lemma PoliteStep(s: State, a: Action)
    requires Inv(s) && Allowed(s, a)
    ensures OwnerRuns(s) && Polite(s, a) ==> Do(s, a).Some? && OwnerRuns(Do(s, a).value)
  {
    if OwnerRuns(s) && Polite(s, a) {
      if Decides(s, a) { PoliteDecision(s, a); } else { PoliteOther(s, a); }
    }
  }

  lemma {:induction false} PoliteRun(states: seq<State>, acts: seq<Action>, k: nat)
    requires IsRun(states, acts) && OwnerRuns(states[0]) && k <= |acts|
    requires forall i {:trigger acts[i]} | 0 <= i < |acts| :: Polite(states[i], acts[i])
    ensures OwnerRuns(states[k])
    decreases k
  {
    if k > 0 {
      PoliteRun(states, acts, k - 1);
      RunInv(states, acts, k - 1);
      RunStep(states, acts, k - 1);
      var s, a := states[k - 1], acts[k - 1];
      assert Polite(s, a);
      PoliteStep(s, a);
    }
  }

  /** After any number of polite steps, every polite next step succeeds. */
  lemma ScanNeverFails(states: seq<State>, acts: seq<Action>, a: Action)
    requires IsRun(states, acts) && states[0] == Init()
    requires forall i {:trigger acts[i]} | 0 <= i < |acts| :: Polite(states[i], acts[i])
    requires Allowed(states[|acts|], a) && Polite(states[|acts|], a)
    ensures Inv(states[|acts|]) && Do(states[|acts|], a).Some?
  {
    var s := states[|acts|];
    RunInv(states, acts, |acts|);
    PoliteRun(states, acts, |acts|);
    PoliteStep(s, a);
  }
}
