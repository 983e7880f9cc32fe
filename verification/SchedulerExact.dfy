/** What a step makes of the queue, the waiters, the owner and the counters, entry by entry and in
    order, stated on the state before it. */
module SchedulerExact {
  import opened Scheduler
  import opened SchedulerSafety
  import opened SchedulerRuns
  import opened SchedulerCalls
  import Bags

  // ---------- Kinds of steps ----------

  /** The current thread gives up the mutex. */
  predicate Gives(s: State, a: Action) {
    s.owner != NO_OWNER && s.owner == s.cur && (a == Unlock || a == Terminate(s.cur))
  }

  /** The current thread asks for a mutex that another one has. */
  predicate Comes(s: State, a: Action) {
    a == Lock && s.owner != NO_OWNER && s.owner != s.cur
  }

  /** The current thread stops running. */
  predicate Turns(s: State, a: Action) {
    a == Tick || (a == Block(s.cur) && s.cur != 0) || Comes(s, a)
  }

  lemma TurnsDecides(s: State, a: Action)
    requires Inv(s) && Allowed(s, a)
    ensures Turns(s, a) <==> Decides(s, a)
  {
    if a != Tick { assert Placed(s, s.cur); }
  }

  // ---------- Owner, waiters, counters ----------

  lemma OwnerExactly(s: State, a: Action, e: State)
    requires Inv(s) && IsStep(s, a, e)
    ensures e.owner == if a == Lock && s.owner == NO_OWNER then s.cur else if Gives(s, a) then NO_OWNER else s.owner
  {
    if Decides(s, a) {
      DecisionPends(s, a);
      DecisionEffect(Before(s, a), a == Tick);
    }
  }

  /** A thread that comes to wait is listed behind all earlier waiters, twice. */
  lemma WaitersExactly(s: State, a: Action, e: State)
    requires Inv(s) && IsStep(s, a, e)
    ensures Comes(s, a) ==> Live(s, s.cur) && e.waiters == s.waiters + [s.table[s.cur].value, s.table[s.cur].value]
    ensures Gives(s, a) ==> e.waiters == []
    ensures !Comes(s, a) && !Gives(s, a) ==> e.waiters == s.waiters
  {
    TurnsDecides(s, a);
    if Decides(s, a) {
      DecisionPends(s, a);
      DecisionEffect(Before(s, a), a == Tick);
    }
  }

  /** A quantum begins exactly when the current thread stops running. */
  lemma TotalExactly(s: State, a: Action, e: State)
    requires Inv(s) && IsStep(s, a, e)
    ensures e.total == s.total + (if Turns(s, a) then 1 else 0)
    ensures !Turns(s, a) ==> e.cur == s.cur
  {
    TurnsDecides(s, a);
    if Decides(s, a) {
      DecisionPends(s, a);
      DecisionEffect(Before(s, a), a == Tick);
    }
  }

  // ---------- The queue when the current thread goes on ----------

  /** The entries a step adds, in order. */
  function Arrivals(s: State, a: Action): seq<nat> {
    match a
    case Spawn => if exists t | 0 <= t < |s.table| :: s.table[t].None? then [|s.threads|] else []
    case Resume(t) => if Live(s, t) then [s.table[t].value] else []
    case Tick => if Live(s, s.cur) then [s.table[s.cur].value] else []
    case _ => if Gives(s, a) then s.waiters else []
  }

  lemma SpawnArrives(s: State)
    requires Inv(s)
    ensures DoSpawn(s).fifo == s.fifo + Arrivals(s, Spawn)
  {
    var tid := FreeTid(s.table, 1);
    if tid == |s.table| {
      forall t | 0 <= t < |s.table| ensures s.table[t].Some? { if t == 0 { assert Live(s, 0); } }
      assert s.fifo + [] == s.fifo;
    }
  }

  /** A step in which the current thread goes on adds its arrivals at the end of the queue: one entry
      for a spawned thread, one for a resumed one, the list of waiters in order for a release. */
  lemma QueueOfCall(s: State, a: Action, e: State)
    requires Inv(s) && IsStep(s, a, e) && !Turns(s, a)
    ensures e.fifo == s.fifo + Arrivals(s, a)
  {
    TurnsDecides(s, a);
    assert s.fifo + [] == s.fifo;
    if a == Spawn { SpawnArrives(s); }
  }

  /** The same, counted: how often an entry for o is queued. */
  lemma CallCounts(s: State, a: Action, e: State, o: nat)
    requires Inv(s) && IsStep(s, a, e) && !Turns(s, a)
    ensures multiset(e.fifo)[o] == multiset(s.fifo)[o]
            + (if |e.threads| > |s.threads| && o == |s.threads| then 1 else 0)
            + (if a.Resume? && Live(s, a.tid) && s.table[a.tid] == Some(o) then 1 else 0)
            + (if Gives(s, a) then multiset(s.waiters)[o] else 0)
  {
    QueueOfCall(s, a, e);
    if a == Spawn {
      SpawnCreates(s);
    } else {
      SameThreads(s, a, e);
    }
  }

  lemma SpawnCreates(s: State)
    requires Inv(s)
    ensures |DoSpawn(s).threads| > |s.threads| <==> exists t | 0 <= t < |s.table| :: s.table[t].None?
  {
    SpawnArrives(s);
    if FreeTid(s.table, 1) == |s.table| {
      forall t | 0 <= t < |s.table| ensures s.table[t].Some? { if t == 0 { assert Live(s, 0); } }
    }
  }

  lemma SameThreads(s: State, a: Action, e: State)
    requires Inv(s) && IsStep(s, a, e) && a != Spawn
    ensures |e.threads| == |s.threads|
  {
    if Decides(s, a) {
      DecisionPends(s, a);
      DecisionEffect(Before(s, a), a == Tick);
    }
  }

  /** Terminating a thread leaves its entries in the queue and among the waiters, unless it gives up
      the mutex; then the waiters are queued. */
  lemma TerminateKeepsEntries(s: State, t: nat, e: State)
    requires Inv(s) && IsStep(s, Terminate(t), e)
    ensures !Gives(s, Terminate(t)) ==> e.fifo == s.fifo && e.waiters == s.waiters
    ensures Gives(s, Terminate(t)) ==> e.fifo == s.fifo + s.waiters && e.waiters == []
  {
    QueueOfCall(s, Terminate(t), e);
    WaitersExactly(s, Terminate(t), e);
  }

  // ---------- The queue when the current thread stops ----------

  /** The entries of q at the positions in `keep`, in order. */
  function Select(q: seq<nat>, keep: set<nat>): seq<nat> {
    if q == [] then []
    else
      var k := |q| - 1;
      Select(q[..k], keep) + if k in keep then [q[k]] else []
  }

  lemma {:induction false} SelectSame(q: seq<nat>, a: set<nat>, b: set<nat>)
    requires forall i | 0 <= i < |q| :: i in a <==> i in b
    ensures Select(q, a) == Select(q, b)
    decreases |q|
  {
    if q != [] { SelectSame(q[..|q| - 1], a, b); }
  }

  lemma SameEnd(q: seq<nat>)
    ensures q + [] == q
  {
  }

  lemma SelectStep(q: seq<nat>, x: nat, keep: set<nat>)
    ensures Select(q + [x], keep) == Select(q, keep) + if |q| in keep then [x] else []
  {
    assert (q + [x])[..|q|] == q;
  }

  lemma KeepLiveStep(d: State, q: seq<nat>, x: nat)
    ensures KeepLive(d, q + [x]) == KeepLive(d, q) + if Kept(d, x) then [x] else []
  {
    assert (q + [x])[..|q|] == q;
  }

  lemma DropBlockedStep(d: State, q: seq<nat>, x: nat)
    ensures DropBlocked(d, q + [x]) == DropBlocked(d, q) + if StatusIs(d, x, BLOCKED) then [] else [x]
  {
    assert (q + [x])[..|q|] == q;
  }

  ghost predicate FirstAt(d: State, q: seq<nat>, k: nat) {
    && k < |q| && Kept(d, q[k]) && IsReady(d, q[k])
    && forall i | 0 <= i < k :: !(Kept(d, q[i]) && IsReady(d, q[i]))
  }

  ghost function NotBlocked(d: State, q: seq<nat>): set<nat> {
    set i | 0 <= i < |q| && Kept(d, q[i]) && !StatusIs(d, q[i], BLOCKED)
  }

  /** What stays when entry k is taken. */
  ghost function Staying(d: State, q: seq<nat>, k: nat): set<nat> {
    set i | 0 <= i < |q| && i != k && Kept(d, q[i]) && !(i < k && StatusIs(d, q[i], BLOCKED))
  }

  lemma {:induction false} DropBoth(d: State, q: seq<nat>)
    ensures DropBlocked(d, KeepLive(d, q)) == Select(q, NotBlocked(d, q))
    decreases |q|
  {
    if q != [] {
      var init, x := q[..|q| - 1], q[|q| - 1];
      assert q == init + [x];
      DropBoth(d, init);
      KeepLiveStep(d, init, x);
      SelectStep(init, x, NotBlocked(d, q));
      SelectSame(init, NotBlocked(d, init), NotBlocked(d, q));
      SameEnd(KeepLive(d, init));
      SameEnd(Select(init, NotBlocked(d, init)));
      if Kept(d, x) { DropBlockedStep(d, KeepLive(d, init), x); }
    }
  }

  lemma FirstReadyIs(d: State, q: seq<nat>, k: nat)
    requires k <= |q| && (k < |q| ==> IsReady(d, q[k])) && forall i | 0 <= i < k :: !IsReady(d, q[i])
    ensures FirstReady(d, q, 0) == k
  {
  }

  lemma RestStep(d: State, q: seq<nat>, i: nat, x: nat)
    requires i < |q|
    ensures Rest(d, q + [x], i) == Rest(d, q, i) + [x]
  {
    assert (q + [x])[..i] == q[..i];
    assert (q + [x])[i + 1..] == q[i + 1..] + [x];
  }

  lemma NobodyFirst(d: State, q: seq<nat>)
    requires FirstReady(d, KeepLive(d, q), 0) == |KeepLive(d, q)|
    ensures forall i | 0 <= i < |q| :: !(Kept(d, q[i]) && IsReady(d, q[i]))
  {
    forall i | 0 <= i < |q| ensures !(Kept(d, q[i]) && IsReady(d, q[i])) {
      KeepLiveIn(d, q, q[i]);
    }
  }

  /** Dropping dead entries, scanning and dropping BLOCKED ones is one selection by position. */
  lemma {:induction false} ScanIsSelect(d: State, q: seq<nat>) returns (k: nat)
    requires FirstReady(d, KeepLive(d, q), 0) < |KeepLive(d, q)|
    ensures FirstAt(d, q, k) && q[k] == KeepLive(d, q)[FirstReady(d, KeepLive(d, q), 0)]
    ensures Rest(d, KeepLive(d, q), FirstReady(d, KeepLive(d, q), 0)) == Select(q, Staying(d, q, k))
    decreases |q|
  {
    var init, x := q[..|q| - 1], q[|q| - 1];
    assert q == init + [x];
    KeepLiveStep(d, init, x);
    var live := KeepLive(d, init);
    var i := FirstReady(d, live, 0);
    if i < |live| {
      k := ScanIsSelect(d, init);
      FirstReadyIs(d, KeepLive(d, q), i);
      SameEnd(live);
      SameEnd(Rest(d, live, i));
      if Kept(d, x) { RestStep(d, live, i, x); }
      SelectStep(init, x, Staying(d, q, k));
      SelectSame(init, Staying(d, init, k), Staying(d, q, k));
    } else {
      k := |init|;
      ScanAtEnd(d, init, x);
    }
  }

  lemma ScanAtEnd(d: State, init: seq<nat>, x: nat)
    requires FirstReady(d, KeepLive(d, init), 0) == |KeepLive(d, init)|
    requires FirstReady(d, KeepLive(d, init + [x]), 0) < |KeepLive(d, init + [x])|
    ensures FirstAt(d, init + [x], |init|)
    ensures var q := KeepLive(d, init + [x]);
      && q[FirstReady(d, q, 0)] == x
      && Rest(d, q, FirstReady(d, q, 0)) == Select(init + [x], Staying(d, init + [x], |init|))
  {
    var live, q, all := KeepLive(d, init), KeepLive(d, init + [x]), init + [x];
    KeepLiveStep(d, init, x);
    NobodyFirst(d, init);
    assert q == live + [x];
    assert forall j | 0 <= j < |live| :: !IsReady(d, live[j]) && q[j] == live[j];
    var r := FirstReady(d, q, 0);
    assert r == |live|;
    assert q[..r] == live && q[r + 1..] == [];
    DropBoth(d, init);
    SelectStep(init, x, Staying(d, all, |init|));
    SelectSame(init, NotBlocked(d, init), Staying(d, all, |init|));
  }

  /** READY as the scan sees it: the interrupted thread counts as READY, the one that has just been
      blocked does not. */
  predicate ReadyNow(s: State, a: Action, o: nat) {
    var mine := Live(s, s.cur) && s.table[s.cur] == Some(o);
    if mine then a == Tick else IsReady(s, o)
  }

  ghost predicate BlockedNow(s: State, a: Action, o: nat) {
    var mine := Live(s, s.cur) && s.table[s.cur] == Some(o);
    if mine then a != Tick else StatusIs(s, o, BLOCKED)
  }

  /** Entry k is the first whose thread id is in use and that is READY. */
  ghost predicate Chosen(s: State, a: Action, q: seq<nat>, k: nat) {
    && k < |q| && Kept(s, q[k]) && ReadyNow(s, a, q[k])
    && forall i | 0 <= i < k :: !(Kept(s, q[i]) && ReadyNow(s, a, q[i]))
  }

  ghost function Stays(s: State, a: Action, q: seq<nat>, k: nat): set<nat> {
    set i | 0 <= i < |q| && i != k && Kept(s, q[i]) && !(i < k && BlockedNow(s, a, q[i]))
  }

  /** The state that the scan works on. */
  lemma DemotedIs(s: State, a: Action, o: nat)
    requires Inv(s) && Decides(s, a)
    ensures var d := Demoted(Before(s, a), a == Tick);
      && d.fifo == s.fifo + Arrivals(s, a)
      && (Kept(d, o) <==> Kept(s, o))
      && (o < |s.threads| ==> d.threads[o].tid == s.threads[o].tid
                              && (IsReady(d, o) <==> ReadyNow(s, a, o))
                              && (StatusIs(d, o, BLOCKED) <==> BlockedNow(s, a, o)))
  {
    assert s.fifo + [] == s.fifo;
    if Live(s, s.cur) { assert Placed(s, s.cur); }
  }

  /** A step in which the current thread stops takes the first READY entry of the queue and its
      arrivals, runs its id, and keeps every other entry in order, except the dead ones and the
      BLOCKED ones in front. */
  lemma QueueOfDecision(s: State, a: Action, e: State) returns (k: nat)
    requires Inv(s) && IsStep(s, a, e) && Turns(s, a)
    ensures var q := s.fifo + Arrivals(s, a);
      && Chosen(s, a, q, k) && e.cur == s.threads[q[k]].tid
      && e.fifo == Select(q, Stays(s, a, q, k))
  {
    TurnsDecides(s, a);
    DecisionPends(s, a);
    var b, tick := Before(s, a), a == Tick;
    DemotedSettles(b, tick);
    DecisionQueue(b, tick);
    var d, q := Demoted(b, tick), s.fifo + Arrivals(s, a);
    DemotedIs(s, a, 0);
    k := ScanIsSelect(d, q);
    forall i | 0 <= i < |q|
      ensures Kept(d, q[i]) <==> Kept(s, q[i])
      ensures Kept(s, q[i]) ==> (IsReady(d, q[i]) <==> ReadyNow(s, a, q[i]))
                                && (StatusIs(d, q[i], BLOCKED) <==> BlockedNow(s, a, q[i]))
    {
      DemotedIs(s, a, q[i]);
    }
    DemotedIs(s, a, q[k]);
    SelectSame(q, Staying(d, q, k), Stays(s, a, q, k));
  }

  // ---------- The status of every thread ----------

  /** The thread that has this id now is o. */
  predicate Has(s: State, tid: nat, o: nat) {
    Live(s, tid) && s.table[tid] == Some(o)
  }

  /** The status of thread o, live or not, after a step that starts in s and runs e.cur. */
  function StatusAfter(s: State, a: Action, e: State, o: nat): Status
    requires o < |s.threads|
  {
    if Turns(s, a) && Has(e, e.cur, o) then RUNNING
    else if (a.Block? && a.tid != 0 && Has(s, a.tid, o)) || (Comes(s, a) && Has(s, s.cur, o)) then BLOCKED
    else if (a.Resume? && Has(s, a.tid, o)) || (Gives(s, a) && o in s.waiters) then READY
    else if a == Tick && Has(s, s.cur, o) && s.threads[o].status == RUNNING then READY
    else s.threads[o].status
  }

  /** The status of thread o once the current thread has given up the processor. */
  function Stopped(s: State, a: Action, o: nat): Status
    requires o < |s.threads|
  {
    if (a.Block? && a.tid != 0 && Has(s, a.tid, o)) || (Comes(s, a) && Has(s, s.cur, o)) then BLOCKED
    else if a == Tick && Has(s, s.cur, o) && s.threads[o].status == RUNNING then READY
    else s.threads[o].status
  }

  lemma StoppedIs(s: State, a: Action, o: nat)
    requires Inv(s) && Decides(s, a) && Turns(s, a) && o < |s.threads|
    ensures var d := Demoted(Before(s, a), a == Tick);
      |d.threads| == |s.threads| && d.threads[o].tid == s.threads[o].tid && d.threads[o].status == Stopped(s, a, o)
  {
  }

  lemma RunsOne(s: State, tick: bool, o: nat)
    requires Core(s) && Schedule(s, tick).Some? && o < |s.threads|
    ensures var d, e := Demoted(s, tick), Schedule(s, tick).value;
      && |d.threads| == |s.threads| == |e.threads| && e.threads[o].tid == d.threads[o].tid
      && e.threads[o].status == if Has(e, e.cur, o) then RUNNING else d.threads[o].status
  {
    DecisionEffect(s, tick);
  }

  lemma StatusOfDecision(s: State, a: Action, e: State, o: nat)
    requires Inv(s) && IsStep(s, a, e) && Decides(s, a) && Turns(s, a) && o < |s.threads|
    ensures o < |e.threads| && e.threads[o].tid == s.threads[o].tid
    ensures e.threads[o].status == if Has(e, e.cur, o) then RUNNING else Stopped(s, a, o)
  {
    DecisionPends(s, a);
    StoppedIs(s, a, o);
    RunsOne(Before(s, a), a == Tick, o);
  }

  /** Every thread has exactly the status that the step gives it, and keeps its id. */
  lemma StatusExactly(s: State, a: Action, e: State, o: nat)
    requires Inv(s) && IsStep(s, a, e) && o < |s.threads|
    ensures o < |e.threads| && e.threads[o].tid == s.threads[o].tid && e.threads[o].status == StatusAfter(s, a, e, o)
  {
    TurnsDecides(s, a);
    if Decides(s, a) {
      StatusOfDecision(s, a, e, o);
    }
  }

  /** Only a spawn makes a thread: READY, without quanta, under the lowest free id, which is below
      100; and it makes one exactly when fewer than 100 ids are in use. */
  lemma SpawnMakes(s: State, e: State)
    requires Inv(s) && IsStep(s, Spawn, e)
    ensures |e.threads| == |s.threads| + 1 <==> |LiveIds(s)| < 100
    ensures |LiveIds(s)| == 100 ==> e == s
    ensures |LiveIds(s)| <= 100
    ensures |LiveIds(s)| < 100 ==>
              exists tid: nat ::
                && tid < 100 && !Live(s, tid) && (forall u: nat | u < tid :: Live(s, u))
                && e.threads == s.threads + [Thread(tid, READY, 0, false)]
                && e.table == s.table[tid := Some(|s.threads|)]
  {
    var tid := FreeTid(s.table, 1);
    LiveIdsSize(s);
    forall u: nat | u < tid ensures Live(s, u) { if u > 0 { assert s.table[u].Some?; } }
  }

  /** The thread ids in use. */
  function LiveIds(s: State): set<nat> {
    set t | 0 <= t < |s.table| && s.table[t].Some?
  }

  lemma LiveIdsSize(s: State)
    requires Inv(s)
    ensures |LiveIds(s)| <= 100
    ensures |LiveIds(s)| == 100 <==> FreeTid(s.table, 1) == |s.table|
  {
    var all := IdsBelow(100);
    assert LiveIds(s) <= all;
    Bags.SubsetSize(LiveIds(s), all);
    var tid := FreeTid(s.table, 1);
    if tid == |s.table| {
      forall t | t in all ensures t in LiveIds(s) { if t == 0 { assert Live(s, 0); } else { assert s.table[t].Some?; } }
      assert LiveIds(s) == all;
    } else {
      assert tid in all && tid !in LiveIds(s);
    }
  }

  ghost function IdsBelow(n: nat): (r: set<nat>)
    ensures |r| == n && forall t: nat :: t in r <==> t < n
  {
    if n == 0 then {} else IdsBelow(n - 1) + {n - 1}
  }

  /** The state after k spawns from the start. */
  function Spawned(k: nat): (s: State)
    ensures 0 < |s.table|
  {
    if k == 0 then Init() else DoSpawn(Spawned(k - 1))
  }

  lemma FreeTidIs(table: seq<Option<nat>>, k: nat)
    requires 1 <= k <= |table| && (k < |table| ==> table[k].None?) && forall t | 1 <= t < k :: table[t].Some?
    ensures FreeTid(table, 1) == k
  {
  }

  /** Exactly the ids up to k are in use. */
  ghost predicate InUse(s: State, k: nat) {
    |s.table| == 100 && forall t | 0 <= t < 100 :: s.table[t].Some? <==> t <= k
  }

  lemma SpawnNext(s: State, k: nat)
    requires InUse(s, k) && k < 99
    ensures FreeTid(s.table, 1) == k + 1 && InUse(DoSpawn(s), k + 1)
  {
    FreeTidIs(s.table, k + 1);
  }

  /** From the start, the first 99 spawns give the ids 1, 2, .., 99 in turn. */
  lemma {:induction false} SpawnsInTurn(k: nat)
    requires k <= 99
    ensures Inv(Spawned(k)) && InUse(Spawned(k), k) && FreeTid(Spawned(k).table, 1) == k + 1
    decreases k
  {
    if k == 0 {
      InitInv();
      FreeTidIs(Init().table, 1);
    } else {
      SpawnsInTurn(k - 1);
      SpawnKeeps(Spawned(k - 1));
      SpawnNext(Spawned(k - 1), k - 1);
      FreeTidIs(Spawned(k).table, k + 1);
    }
  }

  /** And the hundredth fails. */
  lemma HundredthFails()
    ensures Spawned(100) == Spawned(99) && |LiveIds(Spawned(99))| == 100
  {
    SpawnsInTurn(99);
    LiveIdsSize(Spawned(99));
  }
}
