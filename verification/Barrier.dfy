/** The reusable barrier: a count under a mutex, a condition variable, and a broadcast by the last
    thread to arrive. Every step of every thread is one transition; the mutex and the wait set are
    explicit, so a fast thread may call again before slow ones have woken. */
module Barrier {

  datatype Option<T> = None | Some(value: T)

  /** Where a thread is in `barrier()`: not in it, before the lock, holding the lock before the
      increment, in the wait set, woken but without the lock, holding the lock before unlocking. */
  datatype Phase = Outside | AtLock | Holding | Waiting | Woken | Unlocking

  /** `left` counts the calls of `barrier()` that the thread has returned from. */
  datatype Member = Member(phase: Phase, left: nat)

  /** `round` counts the broadcasts so far. */
  datatype State = State(count: nat, mutex: Option<nat>, members: seq<Member>, round: nat)

  function Init(n: nat): State {
    State(0, None, seq(n, i => Member(Outside, 0)), 0)
  }

  /** The calls in which the thread has already incremented the count. */
  function Arrived(m: Member): nat {
    m.left + if m.phase in {Waiting, Woken, Unlocking} then 1 else 0
  }

  function Wake(m: Member): Member {
    if m.phase == Waiting then m.(phase := Woken) else m
  }

  function Broadcast(members: seq<Member>): (r: seq<Member>)
    ensures |r| == |members| && forall i :: 0 <= i < |r| ==> r[i] == Wake(members[i])
  {
    seq(|members|, i requires 0 <= i < |members| => Wake(members[i]))
  }

  /** Thread t cannot take its next step now. */
  predicate Blocked(s: State, t: nat)
    requires t < |s.members|
  {
    match s.members[t].phase
    case AtLock | Woken => s.mutex.Some?
    case Waiting => true
    case _ => false
  }

  /** The next step of thread t. */
  function Next(s: State, t: nat): (s': State)
    requires t < |s.members| && !Blocked(s, t)
    ensures |s'.members| == |s.members|
  {
    var m := s.members[t];
    match m.phase
    case Outside => s.(members := s.members[t := m.(phase := AtLock)])
    case AtLock => s.(mutex := Some(t), members := s.members[t := m.(phase := Holding)])
    case Holding =>
      if s.count + 1 < |s.members|
      then s.(count := s.count + 1, mutex := None, members := s.members[t := m.(phase := Waiting)])
      else s.(count := 0, round := s.round + 1, members := Broadcast(s.members)[t := m.(phase := Unlocking)])
    case Woken => s.(mutex := Some(t), members := s.members[t := m.(phase := Unlocking)])
    case Unlocking => s.(mutex := None, members := s.members[t := Member(Outside, m.left + 1)])
    case Waiting => s
  }

  predicate Step(s: State, t: nat, s': State) {
    t < |s.members| && !Blocked(s, t) && s' == Next(s, t)
  }

  // ---------- The invariant ----------

  function CountWaiting(members: seq<Member>): nat {
    if members == [] then 0
    else CountWaiting(members[..|members| - 1]) + if members[|members| - 1].phase == Waiting then 1 else 0
  }

  predicate HoldsMutex(p: Phase) {
    p == Holding || p == Unlocking
  }

  /** A waiting thread waits for the next broadcast; a woken one was woken by the last one; any
      other thread has returned from exactly the rounds that were broadcast. */
  predicate MemberOk(m: Member, round: nat) {
    match m.phase
    case Woken | Unlocking => m.left + 1 == round
    case _ => m.left == round
  }

  ghost predicate Inv(s: State) {
    && (forall t :: 0 <= t < |s.members| ==> MemberOk(s.members[t], s.round))
    && (forall t :: 0 <= t < |s.members| ==> (HoldsMutex(s.members[t].phase) <==> s.mutex == Some(t)))
    && (s.mutex.Some? ==> s.mutex.value < |s.members|)
    && s.count == CountWaiting(s.members)
    && (0 < |s.members| ==> s.count < |s.members|)
  }

  lemma {:induction false} CountUpdate(members: seq<Member>, t: nat, m: Member)
    requires t < |members|
    ensures CountWaiting(members[t := m]) + (if members[t].phase == Waiting then 1 else 0)
         == CountWaiting(members) + (if m.phase == Waiting then 1 else 0)
    decreases |members|
  {
    var k := |members| - 1;
    if t == k {
      assert members[t := m][..k] == members[..k];
    } else {
      assert members[t := m][..k] == members[..k][t := m];
      CountUpdate(members[..k], t, m);
    }
  }

  lemma {:induction false} CountBound(members: seq<Member>)
    ensures CountWaiting(members) <= |members|
    ensures CountWaiting(members) == |members| <==> forall t :: 0 <= t < |members| ==> members[t].phase == Waiting
    decreases |members|
  {
    if members != [] {
      var k := |members| - 1;
      CountBound(members[..k]);
      assert forall t :: 0 <= t < k ==> members[..k][t] == members[t];
    }
  }

  lemma {:induction false} NobodyWaits(members: seq<Member>)
    requires forall t :: 0 <= t < |members| ==> members[t].phase != Waiting
    ensures CountWaiting(members) == 0
    decreases |members|
  {
    if members != [] {
      NobodyWaits(members[..|members| - 1]);
    }
  }

  lemma InitInv(n: nat)
    ensures Inv(Init(n))
  {
    NobodyWaits(Init(n).members);
  }

  /** The last arrival finds every other thread in the wait set. */
  lemma LastArrival(s: State, t: nat)
    requires Inv(s) && t < |s.members| && s.members[t].phase == Holding && s.count + 1 >= |s.members|
    ensures forall u :: 0 <= u < |s.members| && u != t ==> s.members[u].phase == Waiting
  {
    CountUpdate(s.members, t, Member(Waiting, 0));
    CountBound(s.members[t := Member(Waiting, 0)]);
    forall u | 0 <= u < |s.members| && u != t
      ensures s.members[u].phase == Waiting
    {
      assert s.members[t := Member(Waiting, 0)][u] == s.members[u];
    }
  }

  lemma BroadcastInv(s: State, t: nat)
    requires Inv(s) && t < |s.members| && s.members[t].phase == Holding && s.count + 1 >= |s.members|
    ensures Inv(Next(s, t))
  {
    LastArrival(s, t);
    var s' := Next(s, t);
    forall u | 0 <= u < |s'.members|
      ensures MemberOk(s'.members[u], s'.round) && s'.members[u].phase != Waiting
    {
      assert MemberOk(s.members[u], s.round);
    }
    NobodyWaits(s'.members);
  }

  /** A step that moves one thread: it may arrive, and take or release the mutex. */
  lemma OneMemberInv(s: State, s': State, t: nat, m: Member)
    requires Inv(s) && t < |s.members| && s.members[t].phase != Waiting && MemberOk(m, s.round)
    requires s'.members == s.members[t := m] && s'.round == s.round
    requires s'.count == s.count + (if m.phase == Waiting then 1 else 0) < |s.members|
    requires || (s'.mutex == s.mutex && HoldsMutex(m.phase) == HoldsMutex(s.members[t].phase))
             || (s.mutex == None && s'.mutex == Some(t) && HoldsMutex(m.phase))
             || (HoldsMutex(s.members[t].phase) && s'.mutex == None && !HoldsMutex(m.phase))
    ensures Inv(s')
  {
    CountUpdate(s.members, t, m);
  }

  lemma StepInv(s: State, t: nat, s': State)
    requires Inv(s) && Step(s, t, s')
    ensures Inv(s') && s.round <= s'.round
  {
    if s.members[t].phase == Holding && s.count + 1 >= |s.members| {
      BroadcastInv(s, t);
    } else {
      assert MemberOk(s.members[t], s.round);
      OneMemberInv(s, s', t, s'.members[t]);
    }
  }

  // ---------- Runs ----------

  predicate SomeStep(s: State, s': State) {
    exists t: nat | t < |s.members| :: Step(s, t, s')
  }

  /** A run of n threads: any interleaving, any number of calls. */
  ghost predicate IsRun(n: nat, run: seq<State>) {
    && run != [] && run[0] == Init(n)
    && forall i :: 0 <= i < |run| - 1 ==> StepsAt(run, i)
  }

  ghost predicate StepsAt(run: seq<State>, i: nat)
    requires i + 1 < |run|
  {
    SomeStep(run[i], run[i + 1])
  }

  lemma {:induction false} RunInv(n: nat, run: seq<State>, i: nat)
    requires IsRun(n, run) && i < |run|
    ensures Inv(run[i]) && |run[i].members| == n
  {
    if i == 0 {
      InitInv(n);
    } else {
      RunInv(n, run, i - 1);
      assert StepsAt(run, i - 1);
      var t: nat :| t < n && Step(run[i - 1], t, run[i]);
      StepInv(run[i - 1], t, run[i]);
    }
  }

  /** Safety under reuse: at every point of every run, a thread that has returned from its k-th
      call proves that every thread has arrived at its own k-th call. */
  lemma BarrierSafe(n: nat, run: seq<State>, i: nat, t: nat, u: nat, k: nat)
    requires IsRun(n, run) && i < |run| && t < n && u < n
    ensures |run[i].members| == n
    ensures run[i].members[t].left >= k ==> Arrived(run[i].members[u]) >= k
  {
    RunInv(n, run, i);
    LeftBelowArrived(run[i], t, u);
  }

  lemma LeftBelowArrived(s: State, t: nat, u: nat)
    requires Inv(s) && t < |s.members| && u < |s.members|
    ensures s.members[t].left <= s.round <= Arrived(s.members[u])
  {
    assert MemberOk(s.members[t], s.round) && MemberOk(s.members[u], s.round);
  }

  /** Whoever is blocked, some thread is not: the holder of the mutex, or one that does not wait. */
  lemma SomeoneMoves(s: State) returns (t: nat)
    requires Inv(s) && 0 < |s.members|
    ensures t < |s.members| && !Blocked(s, t) && (s.mutex.Some? ==> s.mutex == Some(t))
  {
    if s.mutex.Some? {
      t := s.mutex.value;
      assert HoldsMutex(s.members[t].phase);
    } else {
      CountBound(s.members);
      t :| 0 <= t < |s.members| && s.members[t].phase != Waiting;
    }
  }

  // ---------- Why the absence of spurious wake-ups matters ----------

  /** pthread_cond_wait returning without a broadcast, which POSIX permits. */
  function SpuriousWake(s: State, t: nat): State
    requires t < |s.members| && s.members[t].phase == Waiting
  {
    s.(members := s.members[t := s.members[t].(phase := Woken)])
  }

  /** Because the wait is guarded by `if` and not by `while`, every spurious wake-up, in any
      reachable state with a free mutex, lets its thread return before some thread has arrived. */
  lemma SpuriousWakeBreaksSafety(s: State, t: nat) returns (u: nat)
    requires Inv(s) && t < |s.members| && s.members[t].phase == Waiting && s.mutex == None
    ensures var s1 := SpuriousWake(s, t);
            && !Blocked(s1, t)
            && var s2 := Next(s1, t);
            && !Blocked(s2, t)
            && var s3 := Next(s2, t);
            && u < |s.members| && s3.members[t].left > Arrived(s3.members[u])
  {
    CountBound(s.members);
    u :| 0 <= u < |s.members| && s.members[u].phase != Waiting;
    assert MemberOk(s.members[t], s.round);
    // With the mutex free, u may be woken from the previous round but cannot have arrived again.
    assert MemberOk(s.members[u], s.round);
  }

  /** While the last arrival holds the mutex a spurious wake-up is harmless: nobody else can move,
      and the broadcast leaves the state that it would have left anyway. */
  lemma SpuriousWakeAtLastArrival(s: State, t: nat, h: nat)
    requires Inv(s) && t < |s.members| && s.members[t].phase == Waiting && s.mutex == Some(h)
    requires s.members[h].phase == Holding && s.count + 1 >= |s.members|
    ensures var s1 := SpuriousWake(s, t);
            && (forall u: nat :: u < |s.members| && u != h ==> Blocked(s1, u))
            && !Blocked(s1, h) && Next(s1, h) == Next(s, h)
  {
    LastArrival(s, h);
    var s1 := SpuriousWake(s, t);
    assert Broadcast(s1.members)[h := s1.members[h].(phase := Unlocking)]
        == Broadcast(s.members)[h := s.members[h].(phase := Unlocking)];
  }

  /** With any other holder it breaks safety as soon as the holder has released the mutex. */
  lemma SpuriousWakeWhileHeld(s: State, t: nat, h: nat) returns (u: nat)
    requires Inv(s) && t < |s.members| && s.members[t].phase == Waiting && s.mutex == Some(h)
    requires !(s.members[h].phase == Holding && s.count + 1 >= |s.members|)
    ensures var s1 := SpuriousWake(s, t);
            && !Blocked(s1, h)
            && var s2 := Next(s1, h);
            && !Blocked(s2, t)
            && var s3 := Next(s2, t);
            && !Blocked(s3, t)
            && var s4 := Next(s3, t);
            && u < |s.members| && s4.members[t].left > Arrived(s4.members[u])
  {
    assert MemberOk(s.members[t], s.round) && HoldsMutex(s.members[h].phase);
    u := h;
    if s.members[h].phase == Holding {
      u := NotArrived(s, h);
    }
    assert MemberOk(s.members[u], s.round);
  }

  /** Before the last arrival some thread besides the holder has not arrived. */
  lemma NotArrived(s: State, h: nat) returns (u: nat)
    requires Inv(s) && s.mutex == Some(h) && s.members[h].phase == Holding && s.count + 1 < |s.members|
    ensures u < |s.members| && u != h && s.members[u].phase != Waiting && !HoldsMutex(s.members[u].phase)
  {
    var waiting := s.members[h := Member(Waiting, 0)];
    CountUpdate(s.members, h, Member(Waiting, 0));
    CountBound(waiting);
    u :| 0 <= u < |s.members| && waiting[u].phase != Waiting;
    assert HoldsMutex(s.members[u].phase) <==> s.mutex == Some(u);
  }
}
