/** In what order the waiters of the mutex are queued: in the order in which they came, unless one of
    them has an older entry in the queue. */
module SchedulerOrder {
  import opened Scheduler
  import opened SchedulerSafety
  import opened SchedulerRuns
  import opened SchedulerExact
  import opened SchedulerMutex

  /** The position of the first entry for o, or the length of the list. */
  function First(q: seq<nat>, o: nat): (r: nat)
    ensures r <= |q| && (r < |q| <==> o in q)
    ensures r < |q| ==> q[r] == o
    ensures forall i | 0 <= i < r :: q[i] != o
  {
    if q == [] then 0
    else
      var r := First(q[..|q| - 1], o);
      if r < |q| - 1 then r else if q[|q| - 1] == o then |q| - 1 else |q|
  }

  lemma FirstIs(q: seq<nat>, o: nat, k: nat)
    requires k < |q| && q[k] == o && forall i | 0 <= i < k :: q[i] != o
    ensures First(q, o) == k
  {
  }

  lemma FirstOfConcat(a: seq<nat>, b: seq<nat>, o: nat)
    ensures First(a + b, o) == if o in a then First(a, o) else |a| + First(b, o)
  {
    var q := a + b;
    if o in a {
      FirstIs(q, o, First(a, o));
    } else if o in b {
      var k := |a| + First(b, o);
      forall i | 0 <= i < k ensures q[i] != o { if i >= |a| { assert q[i] == b[i - |a|]; } }
      FirstIs(q, o, k);
    } else {
      assert o !in q;
    }
  }

  /** After a release, thread o is queued before thread p exactly when it was before, or neither was
      queued and o came to wait before p. */
  lemma ReleaseOrderIff(s: State, a: Action, e: State, o: nat, p: nat)
    requires Inv(s) && IsStep(s, a, e) && Gives(s, a)
    ensures First(e.fifo, o) < First(e.fifo, p) <==>
            || (o in s.fifo && First(s.fifo, o) < First(s.fifo, p))
            || (o !in s.fifo && p !in s.fifo && First(s.waiters, o) < First(s.waiters, p))
  {
    QueueOfCall(s, a, e);
    FirstOfConcat(s.fifo, s.waiters, o);
    FirstOfConcat(s.fifo, s.waiters, p);
  }

  /** A release queues the waiters as they stand in the list. */
  lemma ReleaseQueuesInOrder(s: State, a: Action, e: State, k: nat)
    requires Inv(s) && IsStep(s, a, e) && Gives(s, a) && k < |s.waiters|
    ensures |e.fifo| == |s.fifo| + |s.waiters| && e.fifo[|s.fifo| + k] == s.waiters[k]
  {
    QueueOfCall(s, a, e);
    EntryOfConcat(s.fifo, s.waiters, k);
  }

  lemma EntryOfConcat(a: seq<nat>, b: seq<nat>, k: nat)
    requires k < |b|
    ensures |a + b| == |a| + |b| && (a + b)[|a| + k] == b[k]
  {
  }

  // ---------- Over runs ----------

  /** From states[i] to states[k] nobody gives up the mutex. */
  ghost predicate Taken(states: seq<State>, acts: seq<Action>, i: nat, k: nat)
    requires |states| == |acts| + 1
  {
    i <= k <= |acts| && forall x {:trigger acts[x]} | i <= x < k :: !Gives(states[x], acts[x])
  }

  lemma WaitersAt(states: seq<State>, acts: seq<Action>, j: nat)
    requires IsRun(states, acts) && j < |acts| && !Gives(states[j], acts[j])
    ensures states[j].waiters <= states[j + 1].waiters
  {
    RunInv(states, acts, j);
    RunStep(states, acts, j);
    WaitersExactly(states[j], acts[j], states[j + 1]);
  }

  /** Until the mutex is given up, the list of waiters only grows at its end. */
  lemma {:induction false} WaitersGrow(states: seq<State>, acts: seq<Action>, i: nat, k: nat)
    requires IsRun(states, acts) && Taken(states, acts, i, k)
    ensures states[i].waiters <= states[k].waiters
    decreases k
  {
    if i < k {
      var j := k - 1;
      WaitersGrow(states, acts, i, j);
      assert !Gives(states[j], acts[j]);
      WaitersAt(states, acts, j);
    }
  }

  lemma FirstInPrefix(a: seq<nat>, b: seq<nat>, o: nat, p: nat)
    requires a <= b && o in a && p !in a
    ensures First(b, o) < First(b, p)
  {
    assert b == a + b[|a|..];
    FirstOfConcat(a, b[|a|..], o);
    FirstOfConcat(a, b[|a|..], p);
  }

  lemma EarlierFirst(s: State, a: Action, e: State, o: nat, p: nat)
    requires Inv(s) && IsStep(s, a, e) && Gives(s, a)
    requires p in s.waiters && p !in s.fifo && First(s.waiters, o) < First(s.waiters, p)
    ensures First(e.fifo, o) < First(e.fifo, p) < |e.fifo|
  {
    ReleaseOrderIff(s, a, e, o, p);
    QueueOfCall(s, a, e);
    assert p in e.fifo;
  }

  /** A thread that waits already when another has not yet come has an entry before every entry of the
      other once the mutex is given up, unless the other is still queued from before. */
  lemma FirstComeFirstQueued(states: seq<State>, acts: seq<Action>, i: nat, k: nat, o: nat, p: nat)
    requires IsRun(states, acts) && Taken(states, acts, i, k) && k < |acts| && Gives(states[k], acts[k])
    requires o in states[i].waiters && p !in states[i].waiters
    requires p in states[k].waiters && p !in states[k].fifo
    ensures First(states[k + 1].fifo, o) < First(states[k + 1].fifo, p) < |states[k + 1].fifo|
  {
    WaitersGrow(states, acts, i, k);
    FirstInPrefix(states[i].waiters, states[k].waiters, o, p);
    RunInv(states, acts, k);
    RunStep(states, acts, k);
    EarlierFirst(states[k], acts[k], states[k + 1], o, p);
  }
}
