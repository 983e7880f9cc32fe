/** Quanta add up over all threads ever created, and a queued thread waits for a bounded number of
    scheduling decisions. */
module SchedulerQuanta {
  import opened Scheduler
  import opened SchedulerSafety
  import opened SchedulerRuns
  import Bags

  // ---------- Conservation ----------

  function Counts(threads: seq<Thread>): seq<nat> {
    seq(|threads|, o requires 0 <= o < |threads| => threads[o].quanta)
  }

  /** The total is what all threads ever created, live or dead, have used. */
  predicate Balanced(s: State) {
    s.total == Bags.Sum(Counts(s.threads))
  }

  /** A decision adds one quantum to the thread it runs and to nobody else. */
  lemma DecisionCounts(s: State, a: Action, e: State)
    requires Inv(s) && Decides(s, a) && Do(s, a) == Some(e)
    ensures HasObject(e, e.cur) && Obj(e, e.cur) < |s.threads| && e.total == s.total + 1
    ensures Counts(e.threads) == Counts(s.threads)[Obj(e, e.cur) := s.threads[Obj(e, e.cur)].quanta + 1]
  {
    DecisionPends(s, a);
    ScheduleCounts(Before(s, a), a == Tick);
    BeforeCounts(s, a);
  }

  lemma DemotedCounts(s: State, tick: bool)
    requires Core(s)
    ensures Counts(Demoted(s, tick).threads) == Counts(s.threads)
  {
  }

  lemma ScheduleCounts(s: State, tick: bool)
    requires Core(s) && Schedule(s, tick).Some?
    ensures var e := Schedule(s, tick).value;
      && HasObject(e, e.cur) && Obj(e, e.cur) < |s.threads| && e.total == s.total + 1
      && Counts(e.threads) == Counts(s.threads)[Obj(e, e.cur) := s.threads[Obj(e, e.cur)].quanta + 1]
  {
    DecisionEffect(s, tick);
    DemotedCounts(s, tick);
    var d, e := Demoted(s, tick), Schedule(s, tick).value;
    var o := Obj(e, e.cur);
    assert Counts(d.threads)[o] == Counts(s.threads)[o];
    assert Counts(e.threads) == Counts(d.threads)[o := d.threads[o].quanta + 1];
  }

  lemma BeforeCounts(s: State, a: Action)
    requires Inv(s) && Decides(s, a)
    ensures Counts(Before(s, a).threads) == Counts(s.threads) && Before(s, a).total == s.total
    ensures |Before(s, a).threads| == |s.threads|
    ensures forall o | 0 <= o < |s.threads| :: Before(s, a).threads[o].quanta == s.threads[o].quanta
  {
  }

  lemma OtherCounts(s: State, a: Action, e: State)
    requires Inv(s) && Allowed(s, a) && !Decides(s, a) && Do(s, a) == Some(e)
    ensures e.total == s.total
    ensures Counts(e.threads) == Counts(s.threads) || Counts(e.threads) == Counts(s.threads) + [0]
  {
    match a
    case Spawn => assert Counts(e.threads) == Counts(s.threads) || Counts(e.threads) == Counts(s.threads) + [0];
    case Terminate(tid) => assert Counts(e.threads) == Counts(s.threads);
    case Unlock => assert Counts(e.threads) == Counts(s.threads);
    case Block(tid) => assert Counts(e.threads) == Counts(s.threads);
    case Resume(tid) => assert Counts(e.threads) == Counts(s.threads);
    case Lock => assert Counts(e.threads) == Counts(s.threads);
    case Tick =>
  }

  lemma OneMore(c: seq<nat>, o: nat)
    requires o < |c|
    ensures Bags.Sum(c[o := c[o] + 1]) == Bags.Sum(c) + 1 && Bags.Sum(c + [0]) == Bags.Sum(c)
  {
    Bags.SumUpdate(c, o, c[o] + 1);
    assert (c + [0])[..|c|] == c;
  }

  lemma StepBalances(s: State, a: Action, e: State)
    requires Inv(s) && Balanced(s) && IsStep(s, a, e)
    ensures Balanced(e)
  {
    if Decides(s, a) {
      DecisionCounts(s, a, e);
      OneMore(Counts(s.threads), Obj(e, e.cur));
    } else {
      OtherCounts(s, a, e);
      OneMore(Counts(s.threads), Obj(s, 0));
    }
  }

  lemma {:induction false} QuantaAddUp(states: seq<State>, acts: seq<Action>, k: nat)
    requires IsRun(states, acts) && states[0] == Init() && k <= |acts|
    ensures Balanced(states[k])
    decreases k
  {
    if k == 0 {
      assert Counts(Init().threads) == [1];
      assert [1][..0] == [];
      assert Bags.Sum([1]) == 1;
    } else {
      QuantaAddUp(states, acts, k - 1);
      RunInv(states, acts, k - 1);
      RunStep(states, acts, k - 1);
      StepBalances(states[k - 1], acts[k - 1], states[k]);
    }
  }

  /** Along a run the total grows by the number of decisions. */
  ghost function Decisions(states: seq<State>, acts: seq<Action>, k: nat): nat
    requires |states| == |acts| + 1 && k <= |acts|
    decreases k
  {
    if k == 0 then 0
    else Decisions(states, acts, k - 1) + if Decides(states[k - 1], acts[k - 1]) then 1 else 0
  }

  lemma {:induction false} TotalCountsDecisions(states: seq<State>, acts: seq<Action>, k: nat)
    requires IsRun(states, acts) && k <= |acts|
    ensures states[k].total == states[0].total + Decisions(states, acts, k)
    decreases k
  {
    if k > 0 {
      TotalCountsDecisions(states, acts, k - 1);
      RunInv(states, acts, k - 1);
      var s, a := states[k - 1], acts[k - 1];
      RunStep(states, acts, k - 1);
      if Decides(s, a) { DecisionCounts(s, a, states[k]); } else { OtherCounts(s, a, states[k]); }
    }
  }

  // ---------- Bounded waiting ----------

  /** Thread t is the live thread o, READY and not the current one. */
  predicate Stays(s: State, t: nat, o: nat) {
    HasObject(s, t) && Obj(s, t) == o && s.threads[o].status == READY && t != s.cur
  }

  /** Some entry for o stands at position k or before. */
  predicate QueuedBy(q: seq<nat>, o: nat, k: int) {
    exists j :: 0 <= j < |q| && j <= k && q[j] == o
  }

  lemma {:induction false} KeepLiveBefore(s: State, q: seq<nat>, k: nat)
    requires k < |q| && Kept(s, q[k])
    ensures QueuedBy(KeepLive(s, q), q[k], k) && |KeepLive(s, q)| <= |q|
    decreases |q|
  {
    KeepLiveShrinks(s, q);
    var front := q[..|q| - 1];
    var r := KeepLive(s, front);
    if k < |front| {
      KeepLiveBefore(s, front, k);
      var j :| 0 <= j < |r| && j <= k && r[j] == q[k];
      assert KeepLive(s, q)[j] == q[k];
    } else {
      KeepLiveShrinks(s, front);
      assert KeepLive(s, q)[|r|] == q[k];
    }
  }

  lemma {:induction false} KeepLiveShrinks(s: State, q: seq<nat>)
    ensures |KeepLive(s, q)| <= |q|
    decreases |q|
  {
    if q != [] { KeepLiveShrinks(s, q[..|q| - 1]); }
  }

  lemma {:induction false} DropBlockedShrinks(s: State, q: seq<nat>)
    ensures |DropBlocked(s, q)| <= |q|
    decreases |q|
  {
    if q != [] { DropBlockedShrinks(s, q[..|q| - 1]); }
  }

  lemma RestBefore(s: State, q: seq<nat>, i: nat, j: nat)
    requires i < j < |q|
    ensures QueuedBy(Rest(s, q, i), q[j], j - 1)
  {
    DropBlockedShrinks(s, q[..i]);
    var d := |DropBlocked(s, q[..i])|;
    assert Rest(s, q, i)[d + j - i - 1] == q[i + 1..][j - i - 1] == q[j];
  }

  lemma DemotedStays(s: State, tick: bool, t: nat, o: nat, k: nat)
    requires Core(s) && Stays(s, t, o) && QueuedBy(s.fifo, o, k)
    ensures Stays(Demoted(s, tick), t, o) && QueuedBy(Demoted(s, tick).fifo, o, k)
    ensures Demoted(s, tick).table == s.table && TableOk(Demoted(s, tick))
  {
    if HasObject(s, s.cur) { LongerQueue(s.fifo, [Obj(s, s.cur)], o, k); }
  }

  /** Taking the first READY entry of q runs thread t or moves its entry forward. */
  lemma TakeAdvances(d: State, q: seq<nat>, t: nat, o: nat, k: nat)
    requires TableOk(d) && Stays(d, t, o) && QueuedBy(q, o, k)
    ensures FirstReady(d, q, 0) < |q|
    ensures q[FirstReady(d, q, 0)] == o || QueuedBy(Rest(d, q, FirstReady(d, q, 0)), o, k - 1)
  {
    var j :| 0 <= j < |q| && j <= k && q[j] == o;
    var i := FirstReady(d, q, 0);
    assert IsReady(d, q[j]) && i <= j;
    if i < j { RestBefore(d, q, i, j); }
  }

  /** A decision runs the thread of a READY entry or moves the entry forward. */
  lemma DecisionAdvances(s: State, tick: bool, t: nat, o: nat, k: nat)
    requires Core(s) && Stays(s, t, o) && QueuedBy(s.fifo, o, k) && Schedule(s, tick).Some?
    ensures var e := Schedule(s, tick).value; e.cur == t || (Stays(e, t, o) && QueuedBy(e.fifo, o, k - 1))
  {
    var d := Demoted(s, tick);
    DemotedStays(s, tick, t, o, k);
    var p :| 0 <= p < |d.fifo| && p <= k && d.fifo[p] == o;
    KeepLiveBefore(d, d.fifo, p);
    var q := KeepLive(d, d.fifo);
    TakeAdvances(d, q, t, o, p);
    var i := FirstReady(d, q, 0);
    StaysUnlessRun(d, Rest(d, q, i), d.threads[q[i]].tid, t, o);
  }

  lemma StaysUnlessRun(d: State, q: seq<nat>, tid: nat, t: nat, o: nat)
    requires TableOk(d) && Stays(d, t, o) && HasObject(d, tid)
    ensures var e := Dispatch(d.(fifo := q), tid); e.cur == t || Stays(e, t, o)
  {
    if tid != t { OtherObject(d, tid, t); }
  }

  lemma BeforeStays(s: State, a: Action, t: nat, o: nat, k: nat)
    requires Inv(s) && Decides(s, a) && Stays(s, t, o) && QueuedBy(s.fifo, o, k)
    ensures Stays(Before(s, a), t, o) && QueuedBy(Before(s, a).fifo, o, k)
  {
    if HasObject(s, s.cur) { OtherObject(s, t, s.cur); }
  }

  lemma LongerQueue(q: seq<nat>, r: seq<nat>, o: nat, k: nat)
    requires QueuedBy(q, o, k)
    ensures QueuedBy(q + r, o, k)
  {
    var j :| 0 <= j < |q| && j <= k && q[j] == o;
    assert (q + r)[j] == o;
  }

  predicate Spares(a: Action, t: nat) {
    a != Block(t) && a != Terminate(t)
  }

  predicate AllSpare(acts: seq<Action>, t: nat) {
    forall i | 0 <= i < |acts| :: Spares(acts[i], t)
  }

  lemma OtherStays(s: State, a: Action, e: State, t: nat, o: nat, k: nat)
    requires Inv(s) && IsStep(s, a, e) && !Decides(s, a) && Spares(a, t)
    requires Stays(s, t, o) && QueuedBy(s.fifo, o, k)
    ensures Stays(e, t, o) && QueuedBy(e.fifo, o, k)
  {
    match a
    case Spawn => LongerQueue(s.fifo, [|s.threads|], o, k);
    case Terminate(tid) => LongerQueue(s.fifo, s.waiters, o, k);
    case Unlock => LongerQueue(s.fifo, s.waiters, o, k);
    case Block(tid) => if Live(s, tid) { OtherObject(s, t, tid); }
    case Resume(tid) => if Live(s, tid) { LongerQueue(s.fifo, [Obj(s, tid)], o, k); }
    case Lock =>
    case Tick =>
  }

  /** Only being blocked, being terminated or being run ends the wait of a queued READY thread. */
  lemma StepAdvances(s: State, a: Action, e: State, t: nat, o: nat, k: nat)
    requires Inv(s) && IsStep(s, a, e) && Spares(a, t) && Stays(s, t, o) && QueuedBy(s.fifo, o, k)
    ensures e.cur == t || (Stays(e, t, o) && QueuedBy(e.fifo, o, if Decides(s, a) then k - 1 else k))
  {
    if Decides(s, a) {
      DecisionPends(s, a);
      BeforeStays(s, a, t, o, k);
      DecisionAdvances(Before(s, a), a == Tick, t, o, k);
    } else {
      OtherStays(s, a, e, t, o, k);
    }
  }

  /** By state k the thread has run, or it still waits and every decision has moved it forward. */
  ghost predicate RunsOrAdvances(states: seq<State>, acts: seq<Action>, t: nat, o: nat, p: nat, k: nat)
    requires |states| == |acts| + 1 && k <= |acts|
  {
    RunsBy(states, t, k)
    || (Stays(states[k], t, o) && QueuedBy(states[k].fifo, o, p - Decisions(states, acts, k)))
  }

  ghost predicate RunsBy(states: seq<State>, t: nat, k: nat) {
    exists j :: 0 <= j < |states| && j <= k && states[j].cur == t
  }

  lemma WaitsOneMore(states: seq<State>, acts: seq<Action>, t: nat, o: nat, p: nat, k: nat)
    requires |states| == |acts| + 1 && k < |acts|
    requires Inv(states[k]) && IsStep(states[k], acts[k], states[k + 1]) && Spares(acts[k], t)
    requires RunsOrAdvances(states, acts, t, o, p, k)
    ensures RunsOrAdvances(states, acts, t, o, p, k + 1)
  {
    if !RunsBy(states, t, k) {
      var m := p - Decisions(states, acts, k);
      assert 0 <= m;
      StepAdvances(states[k], acts[k], states[k + 1], t, o, m);
      if states[k + 1].cur == t { assert RunsBy(states, t, k + 1); }
    }
  }

  lemma {:induction false} WaitsAtMost(states: seq<State>, acts: seq<Action>, t: nat, o: nat, p: nat, k: nat)
    requires IsRun(states, acts) && k <= |acts|
    requires AllSpare(acts, t)
    requires RunsOrAdvances(states, acts, t, o, p, 0)
    ensures RunsOrAdvances(states, acts, t, o, p, k)
    decreases k
  {
    if k > 0 {
      var j := k - 1;
      WaitsAtMost(states, acts, t, o, p, j);
      RunInv(states, acts, j);
      RunStep(states, acts, j);
      assert Spares(acts[j], t);
      WaitsOneMore(states, acts, t, o, p, j);
    }
  }

  /** A live READY thread with an entry at position p of the queue runs within p + 1 decisions,
      unless it is blocked or terminated first, whatever else is queued. */
  lemma BoundedWaiting(states: seq<State>, acts: seq<Action>, t: nat, o: nat, p: nat)
    requires IsRun(states, acts)
    requires forall i | 0 <= i < |acts| :: acts[i] != Block(t) && acts[i] != Terminate(t)
    requires Stays(states[0], t, o) && p < |states[0].fifo| && states[0].fifo[p] == o
    requires p + 1 <= Decisions(states, acts, |acts|)
    ensures RunsBy(states, t, |acts|)
  {
    assert RunsOrAdvances(states, acts, t, o, p, 0);
    WaitsAtMost(states, acts, t, o, p, |acts|);
  }

  /** No thread is lost: a live READY thread that is not the current one needs no entry to be given,
      and as many decisions as the queue has entries are enough. */
  lemma EveryReadyThreadRuns(states: seq<State>, acts: seq<Action>, t: nat)
    requires IsRun(states, acts)
    requires forall i | 0 <= i < |acts| :: acts[i] != Block(t) && acts[i] != Terminate(t)
    requires HasObject(states[0], t) && StatusOf(states[0], t) == READY
    requires |states[0].fifo| <= Decisions(states, acts, |acts|)
    ensures RunsBy(states, t, |acts|)
  {
    var s := states[0];
    if t == s.cur {
      assert states[0].cur == t;
    } else {
      assert Placed(s, t);
      var p :| 0 <= p < |s.fifo| && s.fifo[p] == Obj(s, t);
      BoundedWaiting(states, acts, t, Obj(s, t), p);
    }
  }
}
