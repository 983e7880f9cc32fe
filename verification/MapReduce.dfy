/** The map-reduce framework as a step machine: any number of threads, any interleaving. A step
    is one action of one thread between two points where another thread may run. */
module MapReduce {
  import opened Shuffle
  import opened Bags
  import Barrier

  /** What the client's input vector holds and what its reduce emits. */
  type Input(!new, ==)
  type Out(!new, ==)

  /** The client's map and reduce are total and emit the same pairs whenever they get the same
      argument. */
  datatype Job = Job(n: nat, inputs: seq<Input>, mapf: Input -> seq<Pair>, reducef: seq<Pair> -> seq<Out>, less: Less)

  /** Where a thread is in map_reduce_call. */
  datatype Pc =
    | Start
    | MapLock
    | MapHold
    | Mapping(todo: seq<Pair>)
    | Barrier1
    | SetShuffle
    | DoShuffle
    | Barrier2
    | SetReduce
    | RedLock
    | RedHold
    | Reducing(outs: seq<Out>)
    | Done

  const UNDEFINED_STAGE := 0
  const MAP_STAGE := 1
  const SHUFFLE_STAGE := 2
  const REDUCE_STAGE := 3

  /** `mapped` and `reduced` record, in order, what was handed to the client. */
  datatype State = State(
    inputs: seq<Input>, mapped: seq<Input>,
    inter: seq<seq<Pair>>,
    map_: seq<Group>, reduced: seq<Group>,
    out: seq<Out>,
    stage: nat, size: nat,
    mutex: Barrier.Option<nat>,
    bar: Barrier.State,
    pcs: seq<Pc>)

  function Init(j: Job): State {
    State(j.inputs, [], seq(j.n, i => []), [], [], [], UNDEFINED_STAGE, |j.inputs|,
          Barrier.None, Barrier.Init(j.n), seq(j.n, i => Start))
  }

  predicate Sizes(j: Job, s: State) {
    |s.pcs| == |s.inter| == |s.bar.members| == j.n
  }

  /** Thread t cannot take its next step now, or has none. */
  predicate Blocked(j: Job, s: State, t: nat)
    requires Sizes(j, s) && t < j.n
  {
    match s.pcs[t]
    case MapLock | RedLock => s.mutex.Some?
    case Barrier1 | Barrier2 => Barrier.Blocked(s.bar, t)
    case Done => true
    case _ => false
  }

  function Goto(s: State, t: nat, pc: Pc): State
    requires t < |s.pcs|
  {
    s.(pcs := s.pcs[t := pc])
  }

  /** A thread inside a barrier call; it goes on when the call has returned. */
  function BarrierStep(j: Job, s: State, t: nat, k: nat, next: Pc): State
    requires Sizes(j, s) && t < j.n && !Barrier.Blocked(s.bar, t)
  {
    var bar := Barrier.Next(s.bar, t);
    var s' := s.(bar := bar);
    if bar.members[t].left == k then Goto(s', t, next) else s'
  }

  function Next(j: Job, s: State, t: nat): (s': State)
    requires Sizes(j, s) && t < j.n && !Blocked(j, s, t)
    ensures Sizes(j, s')
  {
    match s.pcs[t]
    case Start => Goto(s.(stage := MAP_STAGE), t, MapLock)
    case MapLock => Goto(s.(mutex := Barrier.Some(t)), t, MapHold)
    case MapHold =>
      var s' := s.(mutex := Barrier.None);
      if s.inputs == [] then Goto(s', t, Barrier1)
      else
        var k := |s.inputs| - 1;
        Goto(s'.(inputs := s.inputs[..k], mapped := s.mapped + [s.inputs[k]]), t, Mapping(j.mapf(s.inputs[k])))
    case Mapping(todo) =>
      if todo == [] then Goto(s, t, MapLock)
      else Goto(s.(inter := s.inter[t := s.inter[t] + [todo[0]]]), t, Mapping(todo[1..]))
    case Barrier1 => BarrierStep(j, s, t, 1, SetShuffle)
    case SetShuffle => Goto(s.(stage := SHUFFLE_STAGE), t, if t == 0 then DoShuffle else Barrier2)
    case DoShuffle =>
      var map_ := ShuffleAll(j.less, Concat(s.inter));
      Goto(s.(map_ := map_, size := |map_|), t, Barrier2)
    case Barrier2 => BarrierStep(j, s, t, 2, SetReduce)
    case SetReduce => Goto(s.(stage := REDUCE_STAGE), t, RedLock)
    case RedLock => Goto(s.(mutex := Barrier.Some(t)), t, RedHold)
    case RedHold =>
      var s' := s.(mutex := Barrier.None);
      if s.map_ == [] then Goto(s', t, Done)
      else Goto(s'.(map_ := s.map_[1..], reduced := s.reduced + [s.map_[0]]), t, Reducing(j.reducef(s.map_[0].pairs)))
    case Reducing(outs) =>
      if outs == [] then Goto(s, t, RedLock)
      else Goto(s.(out := s.out + [outs[0]]), t, Reducing(outs[1..]))
    case Done => s
  }

  predicate Step(j: Job, s: State, t: nat, s': State) {
    Sizes(j, s) && t < j.n && !Blocked(j, s, t) && s' == Next(j, s, t)
  }

  predicate Final(s: State) {
    forall t :: 0 <= t < |s.pcs| ==> s.pcs[t] == Done
  }

  // ---------- Control: program counters, mutex and barrier ----------

  /** How far a thread has come. */
  function Pos(pc: Pc): nat {
    match pc
    case Start => 0
    case MapLock | MapHold | Mapping(_) => 1
    case Barrier1 => 2
    case SetShuffle => 3
    case DoShuffle => 4
    case Barrier2 => 5
    case SetReduce => 6
    case RedLock | RedHold | Reducing(_) => 7
    case Done => 8
  }

  /** A thread's place in the barrier agrees with its program counter. */
  predicate Linked(pc: Pc, m: Barrier.Member) {
    match pc
    case Barrier1 => m.left == 0
    case Barrier2 => m.left == 1
    case SetShuffle | DoShuffle => m == Barrier.Member(Barrier.Outside, 1)
    case SetReduce | RedLock | RedHold | Reducing(_) | Done => m == Barrier.Member(Barrier.Outside, 2)
    case _ => m == Barrier.Member(Barrier.Outside, 0)
  }

  predicate HoldsMutex(pc: Pc) {
    pc == MapHold || pc == RedHold
  }

  ghost predicate Control(j: Job, s: State) {
    && 0 < j.n && Sizes(j, s)
    && Barrier.Inv(s.bar)
    && (forall t :: 0 <= t < j.n ==> Linked(s.pcs[t], s.bar.members[t]))
    && (forall t :: 0 <= t < j.n ==> (HoldsMutex(s.pcs[t]) <==> s.mutex == Barrier.Some(t)))
    && (s.mutex.Some? ==> s.mutex.value < j.n)
    && (forall t :: 0 < t < j.n ==> s.pcs[t] != DoShuffle)
  }

  lemma InitControl(j: Job)
    requires 0 < j.n
    ensures Control(j, Init(j))
  {
    Barrier.InitInv(j.n);
  }

  /** A barrier step moves at most its own thread's return count, and wakes others. */
  lemma BarrierMoves(b: Barrier.State, t: nat)
    requires t < |b.members| && !Barrier.Blocked(b, t)
    ensures var b' := Barrier.Next(b, t);
            && (forall u :: 0 <= u < |b.members| ==> b'.members[u].left == b.members[u].left || u == t)
            && (forall u :: 0 <= u < |b.members| && b.members[u].phase == Barrier.Outside && u != t ==>
                  b'.members[u] == b.members[u])
            && (b'.members[t].left == b.members[t].left
                || b'.members[t] == Barrier.Member(Barrier.Outside, b.members[t].left + 1))
  {
  }

  /** The mover: still in its call, or returned from it and past the barrier. */
  lemma MoverLinked(pc: Pc, m: Barrier.Member, m': Barrier.Member)
    requires (pc == Barrier1 || pc == Barrier2) && Linked(pc, m)
    requires m'.left == m.left || m' == Barrier.Member(Barrier.Outside, m.left + 1)
    ensures pc == Barrier1 ==> Linked(if m'.left == 1 then SetShuffle else pc, m')
    ensures pc == Barrier2 ==> Linked(if m'.left == 2 then SetReduce else pc, m')
  {
  }

  /** Any other thread: a thread outside the barrier is not touched, one inside may be woken. */
  lemma OtherLinked(pc: Pc, m: Barrier.Member, m': Barrier.Member)
    requires Linked(pc, m) && m'.left == m.left && (m.phase == Barrier.Outside ==> m' == m)
    ensures Linked(pc, m')
  {
  }

  /** A step inside a barrier call touches the barrier and perhaps the mover's program counter. */
  lemma BarrierNext(j: Job, s: State, t: nat)
    requires Sizes(j, s) && t < j.n && !Blocked(j, s, t) && (s.pcs[t] == Barrier1 || s.pcs[t] == Barrier2)
    ensures var s' := Next(j, s, t);
            var left := Barrier.Next(s.bar, t).members[t].left;
            && s' == s.(bar := Barrier.Next(s.bar, t), pcs := s'.pcs)
            && s'.pcs == s.pcs[t := s'.pcs[t]]
            && (s.pcs[t] == Barrier1 ==> s'.pcs[t] == if left == 1 then SetShuffle else Barrier1)
            && (s.pcs[t] == Barrier2 ==> s'.pcs[t] == if left == 2 then SetReduce else Barrier2)
  {
    assert s.pcs[t := s.pcs[t]] == s.pcs;
  }

  lemma BarrierLinked(j: Job, s: State, s': State, t: nat, u: nat)
    requires Control(j, s) && t < j.n && u < j.n && !Barrier.Blocked(s.bar, t)
    requires s.pcs[t] == Barrier1 || s.pcs[t] == Barrier2
    requires |s'.pcs| == |s'.bar.members| == j.n
    requires s'.bar == Barrier.Next(s.bar, t) && s'.pcs == s.pcs[t := s'.pcs[t]]
    requires s.pcs[t] == Barrier1 ==> s'.pcs[t] == if s'.bar.members[t].left == 1 then SetShuffle else Barrier1
    requires s.pcs[t] == Barrier2 ==> s'.pcs[t] == if s'.bar.members[t].left == 2 then SetReduce else Barrier2
    ensures Linked(s'.pcs[u], s'.bar.members[u])
  {
    BarrierMoves(s.bar, t);
    assert Linked(s.pcs[u], s.bar.members[u]);
    if u == t {
      MoverLinked(s.pcs[t], s.bar.members[t], s'.bar.members[t]);
    } else {
      OtherLinked(s.pcs[u], s.bar.members[u], s'.bar.members[u]);
    }
  }

  lemma BarrierStepControl(j: Job, s: State, t: nat)
    requires Control(j, s) && t < j.n && !Blocked(j, s, t)
    requires s.pcs[t] == Barrier1 || s.pcs[t] == Barrier2
    ensures Control(j, Next(j, s, t))
  {
    BarrierNext(j, s, t);
    Barrier.StepInv(s.bar, t, Barrier.Next(s.bar, t));
    forall u | 0 <= u < j.n
      ensures Linked(Next(j, s, t).pcs[u], Next(j, s, t).bar.members[u])
    {
      BarrierLinked(j, s, Next(j, s, t), t, u);
    }
  }

  /** A step outside the barriers: the mutex is kept, taken or released. */
  lemma PlainStepControl(j: Job, s: State, s': State, t: nat, pc: Pc)
    requires Control(j, s) && t < j.n
    requires s'.bar == s.bar && s'.pcs == s.pcs[t := pc] && |s'.inter| == j.n
    requires Linked(pc, s.bar.members[t]) && (t == 0 || pc != DoShuffle)
    requires || (s'.mutex == s.mutex && HoldsMutex(pc) == HoldsMutex(s.pcs[t]))
             || (s.mutex == Barrier.None && s'.mutex == Barrier.Some(t) && HoldsMutex(pc))
             || (HoldsMutex(s.pcs[t]) && s'.mutex == Barrier.None && !HoldsMutex(pc))
    ensures Control(j, s')
  {
  }

  lemma StepControl(j: Job, s: State, t: nat)
    requires Control(j, s) && t < j.n && !Blocked(j, s, t)
    ensures Control(j, Next(j, s, t))
  {
    if s.pcs[t] == Barrier1 || s.pcs[t] == Barrier2 {
      BarrierStepControl(j, s, t);
    } else {
      var s' := Next(j, s, t);
      assert Linked(s.pcs[t], s.bar.members[t]);
      PlainStepControl(j, s, s', t, s'.pcs[t]);
    }
  }

  /** What the barriers are for: once one thread is past a barrier, every thread has reached it;
      while one thread is before it, nobody is past it. */
  lemma Separated(j: Job, s: State, t: nat, u: nat)
    requires Control(j, s) && t < j.n && u < j.n
    ensures Pos(s.pcs[t]) >= 3 ==> Pos(s.pcs[u]) >= 2
    ensures Pos(s.pcs[t]) >= 6 ==> Pos(s.pcs[u]) >= 5
    ensures Pos(s.pcs[u]) <= 1 ==> s.bar.round == 0
    ensures Pos(s.pcs[u]) <= 4 ==> s.bar.round <= 1
    ensures Pos(s.pcs[t]) >= 3 ==> s.bar.round >= 1
    ensures Pos(s.pcs[t]) >= 6 ==> s.bar.round >= 2
  {
    assert Linked(s.pcs[t], s.bar.members[t]) && Linked(s.pcs[u], s.bar.members[u]);
    Barrier.LeftBelowArrived(s.bar, t, u);
  }
}
