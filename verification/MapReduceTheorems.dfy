/** What holds of every schedule of a map-reduce job. */
module MapReduceTheorems {
  import opened Shuffle
  import opened Bags
  import opened MapReduce
  import opened MapReduceData
  import Barrier

  predicate SomeStep(j: Job, s: State, s': State) {
    exists t: nat | t < j.n :: Step(j, s, t, s')
  }

  ghost predicate IsRun(j: Job, run: seq<State>) {
    && run != [] && run[0] == Init(j)
    && forall i :: 0 <= i < |run| - 1 ==> StepsAt(j, run, i)
  }

  ghost predicate StepsAt(j: Job, run: seq<State>, i: nat)
    requires i + 1 < |run|
  {
    SomeStep(j, run[i], run[i + 1])
  }

  lemma SomeStepInv(j: Job, s: State, s': State)
    requires Inv(j, s) && SomeStep(j, s, s')
    ensures Inv(j, s') && s.stage <= s'.stage
  {
    var t: nat :| t < j.n && Step(j, s, t, s');
    StepInv(j, s, t, s');
    StepStage(j, s, t);
  }

  lemma InvAt(j: Job, run: seq<State>, i: nat)
    requires IsRun(j, run) && i + 1 < |run| && Inv(j, run[i])
    ensures Inv(j, run[i + 1])
  {
    assert StepsAt(j, run, i);
    SomeStepInv(j, run[i], run[i + 1]);
  }

  lemma InvAtStart(j: Job, run: seq<State>)
    requires 0 < j.n && IsRun(j, run)
    ensures Inv(j, run[0])
  {
    InitInv(j);
  }

  lemma {:induction false} RunInv(j: Job, run: seq<State>, i: nat)
    requires 0 < j.n && IsRun(j, run) && i < |run|
    ensures Inv(j, run[i])
    decreases i
  {
    if i == 0 {
      InvAtStart(j, run);
    } else {
      var k := i - 1;
      RunInv(j, run, k);
      InvAt(j, run, k);
    }
  }

  // ---------- The result does not depend on the schedule ----------

  /** Once every thread is past the map loop, the intermediate vectors hold the pairs of mapping
      the inputs one after the other, each pair as often as it was emitted. */
  lemma AllMapped(j: Job, s: State)
    requires Control(j, s) && MapData(j, s) && forall t :: 0 <= t < j.n ==> Pos(s.pcs[t]) >= 2
    ensures s.inputs == [] && multiset(Concat(s.inter)) == multiset(MapAll(j, j.inputs))
  {
    assert Pos(s.pcs[0]) >= 2;
    assert s.inputs == [];
    UnionOfEmpty(MapTodos(s.pcs));
    assert MapAll(j, s.inputs) == [];
    EmptyTail(multiset(Concat(s.inter)));
  }

  lemma EmptyTail<T>(m: multiset<T>)
    ensures m + multiset{} + multiset{} == m
    ensures m + multiset{} == m
  {
  }

  lemma FinalPos(s: State)
    requires Final(s)
    ensures forall t :: 0 <= t < |s.pcs| ==> Pos(s.pcs[t]) == 8
  {
  }

  lemma FinalReduced(j: Job, s: State)
    requires 0 < |s.pcs| && ReduceData(j, s) && Final(s)
    ensures s.reduced == ShuffleAll(j.less, Concat(s.inter)) && multiset(s.out) == ReduceAll(j, s.reduced)
  {
    FinalPos(s);
    assert Shuffled(s) && s.map_ == [];
    UnionOfEmpty(ReduceTodos(s.pcs));
    EmptyTail(multiset(s.out));
    assert s.reduced + [] == s.reduced;
  }

  lemma FinalMapped(j: Job, s: State)
    requires Control(j, s) && MapData(j, s) && Final(s)
    ensures s.inputs == [] && HandedOut(j, s.inputs, s.mapped)
    ensures multiset(Concat(s.inter)) == multiset(MapAll(j, j.inputs))
  {
    FinalPos(s);
    AllMapped(j, s);
  }

  /** When every thread is done, all inputs were mapped, each once; the emitted pairs are those of
      mapping the inputs one after the other; and every group was reduced, each once. */
  lemma FinalData(j: Job, s: State)
    requires Inv(j, s) && Final(s)
    ensures s.inputs == [] && |s.mapped| == |j.inputs|
    ensures forall k :: 0 <= k < |s.mapped| ==> s.mapped[k] == j.inputs[|j.inputs| - 1 - k]
    ensures multiset(Concat(s.inter)) == multiset(MapAll(j, j.inputs))
    ensures s.reduced == ShuffleAll(j.less, Concat(s.inter))
    ensures multiset(s.out) == ReduceAll(j, s.reduced)
  {
    FinalMapped(j, s);
    FinalReduced(j, s);
  }

  /** The groups handed to reduce partition the emitted pairs by key, and are, in order and as
      multisets, those of grouping the sequentially mapped input. */
  ghost predicate SameGroups(j: Job, s: State) {
    var expected := ShuffleAll(j.less, MapAll(j, j.inputs));
    && Grouping(j.less, s.reduced, Concat(s.inter))
    && |s.reduced| == |expected|
    && forall i :: 0 <= i < |expected| ==>
         && Eqv(j.less, s.reduced[i].key, expected[i].key)
         && multiset(s.reduced[i].pairs) == multiset(expected[i].pairs)
  }

  lemma FinalGroups(j: Job, s: State)
    requires StrictWeak(j.less) && Inv(j, s) && Final(s)
    ensures SameGroups(j, s)
  {
    FinalData(j, s);
    ShuffleGroups(j.less, Concat(s.inter));
    ShuffleGroups(j.less, MapAll(j, j.inputs));
    GroupsMatch(j.less, Concat(s.inter), MapAll(j, j.inputs), s.reduced, ShuffleAll(j.less, MapAll(j, j.inputs)));
  }

  /** Each distinct key is reduced exactly once, with exactly the pairs emitted for it, whatever
      the schedule. */
  lemma EveryScheduleReducesTheSameGroups(j: Job, run: seq<State>)
    requires 0 < j.n && StrictWeak(j.less) && IsRun(j, run) && Final(run[|run| - 1])
    ensures SameGroups(j, run[|run| - 1])
  {
    RunInv(j, run, |run| - 1);
    FinalGroups(j, run[|run| - 1]);
  }

  /** A reduce whose output does not depend on the order of its pairs. */
  ghost predicate OrderInsensitive(j: Job) {
    forall a, b :: multiset(a) == multiset(b) ==> multiset(j.reducef(a)) == multiset(j.reducef(b))
  }

  lemma {:induction false} ReduceAllSame(j: Job, a: seq<Group>, b: seq<Group>)
    requires OrderInsensitive(j) && |a| == |b|
    requires forall i :: 0 <= i < |a| ==> multiset(a[i].pairs) == multiset(b[i].pairs)
    ensures ReduceAll(j, a) == ReduceAll(j, b)
    decreases |a|
  {
    if a != [] {
      ReduceAllSame(j, a[..|a| - 1], b[..|b| - 1]);
    }
  }

  lemma FinalOutput(j: Job, s: State)
    requires StrictWeak(j.less) && OrderInsensitive(j) && Inv(j, s) && Final(s)
    ensures multiset(s.out) == ReduceAll(j, ShuffleAll(j.less, MapAll(j, j.inputs)))
  {
    FinalData(j, s);
    FinalGroups(j, s);
    ReduceAllSame(j, s.reduced, ShuffleAll(j.less, MapAll(j, j.inputs)));
  }

  /** Then the output vector is, as a multiset, that of the sequential computation. */
  lemma OutputIsSequential(j: Job, run: seq<State>)
    requires 0 < j.n && StrictWeak(j.less) && OrderInsensitive(j) && IsRun(j, run) && Final(run[|run| - 1])
    ensures multiset(run[|run| - 1].out) == ReduceAll(j, ShuffleAll(j.less, MapAll(j, j.inputs)))
  {
    RunInv(j, run, |run| - 1);
    FinalOutput(j, run[|run| - 1]);
  }

  // ---------- No deadlock ----------

  /** As long as some thread is not done, some thread can take a step. */
  lemma NoDeadlock(j: Job, s: State) returns (t: nat)
    requires Control(j, s) && !Final(s)
    ensures t < j.n && !Blocked(j, s, t)
  {
    var u: nat :| u < j.n && s.pcs[u] != Done;
    if s.mutex.Some? {
      t := MutexHolder(j, s);
    } else if s.pcs[u] != Barrier1 && s.pcs[u] != Barrier2 {
      t := u;
    } else {
      t := BarrierMover(j, s, u);
    }
  }

  lemma MutexHolder(j: Job, s: State) returns (t: nat)
    requires Control(j, s) && s.mutex.Some?
    ensures t < j.n && !Blocked(j, s, t)
  {
    t := s.mutex.value;
    assert HoldsMutex(s.pcs[t]);
  }

  /** With a thread inside a barrier call and the job mutex free, the holder of the barrier's mutex
      can move, or a thread that does not wait; a thread that is done has left both barriers, so
      then the thread inside is not waiting. */
  lemma BarrierMover(j: Job, s: State, u: nat) returns (t: nat)
    requires Control(j, s) && u < j.n && s.mutex == Barrier.None && (s.pcs[u] == Barrier1 || s.pcs[u] == Barrier2)
    ensures t < j.n && !Blocked(j, s, t)
  {
    t := Barrier.SomeoneMoves(s.bar);
    assert Linked(s.pcs[t], s.bar.members[t]) && Linked(s.pcs[u], s.bar.members[u]);
    if s.pcs[t] == Done {
      DoneLeavesRoom(s.bar, t, u);
      t := u;
    }
  }

  lemma DoneLeavesRoom(b: Barrier.State, d: nat, u: nat)
    requires Barrier.Inv(b) && d < |b.members| && u < |b.members| && (b.mutex.Some? ==> b.mutex == Barrier.Some(d))
    requires b.members[d] == Barrier.Member(Barrier.Outside, 2) && b.members[u].left < 2
    ensures !Barrier.Blocked(b, u)
  {
    assert Barrier.MemberOk(b.members[d], b.round) && Barrier.MemberOk(b.members[u], b.round);
    assert !Barrier.HoldsMutex(b.members[d].phase);
  }

  // ---------- Every schedule is finite ----------

  function PhaseRank(p: Barrier.Phase): nat {
    match p
    case Outside => 6
    case AtLock => 5
    case Holding => 4
    case Waiting => 3
    case Woken => 2
    case Unlocking => 1
  }

  /** How far a thread is from the reduce loop, apart from the inputs still to be handed out. */
  function MapRank(pc: Pc, m: Barrier.Member): nat {
    match pc
    case Start => 18
    case Mapping(todo) => 18 + |todo|
    case MapLock => 17
    case MapHold => 16
    case Barrier1 => 9 + PhaseRank(m.phase)
    case SetShuffle => 9
    case DoShuffle => 8
    case Barrier2 => 1 + PhaseRank(m.phase)
    case SetReduce => 1
    case _ => 0
  }

  function ReduceRank(pc: Pc): nat {
    match pc
    case Reducing(outs) => 3 + |outs|
    case RedLock => 2
    case RedHold => 1
    case _ => 0
  }

  function MapRanks(s: State): (r: seq<nat>)
    requires |s.pcs| == |s.bar.members|
    ensures |r| == |s.pcs| && forall i :: 0 <= i < |r| ==> r[i] == MapRank(s.pcs[i], s.bar.members[i])
  {
    seq(|s.pcs|, i requires 0 <= i < |s.pcs| => MapRank(s.pcs[i], s.bar.members[i]))
  }

  function ReduceRanks(s: State): (r: seq<nat>)
    ensures |r| == |s.pcs| && forall i :: 0 <= i < |r| ==> r[i] == ReduceRank(s.pcs[i])
  {
    seq(|s.pcs|, i requires 0 <= i < |s.pcs| => ReduceRank(s.pcs[i]))
  }

  function InputWeight(j: Job, xs: seq<Input>): nat {
    if xs == [] then 0 else InputWeight(j, xs[..|xs| - 1]) + |j.mapf(xs[|xs| - 1])| + 3
  }

  function GroupWeight(j: Job, gs: seq<Group>): nat {
    if gs == [] then 0 else |j.reducef(gs[0].pairs)| + 3 + GroupWeight(j, gs[1..])
  }

  function MapWork(j: Job, s: State): nat
    requires |s.pcs| == |s.bar.members|
  {
    Sum(MapRanks(s)) + InputWeight(j, s.inputs)
  }

  function ReduceWork(j: Job, s: State): nat {
    Sum(ReduceRanks(s)) + GroupWeight(j, s.map_)
  }

  lemma ReduceStays(j: Job, s: State, t: nat)
    requires Sizes(j, s) && t < j.n && !Blocked(j, s, t) && InReduce(s.pcs[t])
    ensures var s' := Next(j, s, t);
            && s'.bar == s.bar && s'.inputs == s.inputs && s'.pcs == s.pcs[t := s'.pcs[t]]
            && (InReduce(s'.pcs[t]) || s'.pcs[t] == Done)
  {
  }

  /** What a step does to the ranks. In the reduce loop no map rank changes. */
  lemma ReduceKeepsMapRanks(j: Job, s: State, t: nat)
    requires Control(j, s) && t < j.n && !Blocked(j, s, t) && InReduce(s.pcs[t])
    ensures var s' := Next(j, s, t); MapRanks(s') == MapRanks(s) && s'.inputs == s.inputs
  {
    ReduceStays(j, s, t);
    SameMapRanks(s, Next(j, s, t), t);
  }

  lemma SameMapRanks(s: State, s': State, t: nat)
    requires t < |s.pcs| == |s'.pcs| == |s.bar.members| && s'.bar == s.bar && s'.pcs == s.pcs[t := s'.pcs[t]]
    requires InReduce(s.pcs[t]) && (InReduce(s'.pcs[t]) || s'.pcs[t] == Done)
    ensures MapRanks(s') == MapRanks(s)
  {
  }

  /** Handing out an input raises the thread's map rank by less than the input weighs. */
  lemma PopMapRanks(j: Job, s: State, t: nat)
    requires Control(j, s) && t < j.n && !Blocked(j, s, t) && Pops(s, t)
    ensures MapRanks(Next(j, s, t)) == MapRanks(s)[t := 18 + |j.mapf(s.inputs[|s.inputs| - 1])|]
  {
    var s' := Next(j, s, t);
    assert s'.bar == s.bar && s'.pcs == s.pcs[t := Mapping(j.mapf(s.inputs[|s.inputs| - 1]))];
  }

  /** Any other step outside the barriers lowers the thread's map rank. */
  lemma PlainMapRanks(j: Job, s: State, t: nat)
    requires Control(j, s) && t < j.n && !Blocked(j, s, t)
    requires !InReduce(s.pcs[t]) && !Pops(s, t) && s.pcs[t] != Barrier1 && s.pcs[t] != Barrier2
    ensures var s' := Next(j, s, t);
            && (forall u :: 0 <= u < j.n && u != t ==> MapRanks(s')[u] <= MapRanks(s)[u])
            && MapRanks(s')[t] < MapRanks(s)[t]
  {
    var s' := Next(j, s, t);
    assert s'.bar == s.bar && s'.pcs == s.pcs[t := s'.pcs[t]];
    assert Linked(s.pcs[t], s.bar.members[t]);
  }

  /** Another thread's rank: its phase may fall, when it is woken. */
  lemma OtherRank(pc: Pc, m: Barrier.Member, m': Barrier.Member)
    requires PhaseRank(m'.phase) <= PhaseRank(m.phase)
    ensures MapRank(pc, m') <= MapRank(pc, m)
  {
  }

  /** The mover's rank: it gets on inside the call, or returns from it. */
  lemma MoverRank(pc: Pc, m: Barrier.Member, m': Barrier.Member)
    requires (pc == Barrier1 || pc == Barrier2) && Linked(pc, m)
    requires if m.phase == Barrier.Unlocking then m'.left == m.left + 1
             else PhaseRank(m'.phase) < PhaseRank(m.phase) && m'.left == m.left
    ensures pc == Barrier1 ==> MapRank(if m'.left == 1 then SetShuffle else pc, m') < MapRank(pc, m)
    ensures pc == Barrier2 ==> MapRank(if m'.left == 2 then SetReduce else pc, m') < MapRank(pc, m)
  {
  }

  lemma BarrierRanks(j: Job, s: State, t: nat)
    requires Control(j, s) && t < j.n && !Blocked(j, s, t) && (s.pcs[t] == Barrier1 || s.pcs[t] == Barrier2)
    ensures var s' := Next(j, s, t);
            && (forall u :: 0 <= u < j.n && u != t ==> MapRanks(s')[u] <= MapRanks(s)[u])
            && MapRanks(s')[t] < MapRanks(s)[t]
  {
    var s' := Next(j, s, t);
    PhaseFalls(s.bar, t);
    MoverRank(s.pcs[t], s.bar.members[t], s'.bar.members[t]);
    forall u | 0 <= u < j.n && u != t
      ensures MapRanks(s')[u] <= MapRanks(s)[u]
    {
      OtherRank(s.pcs[u], s.bar.members[u], s'.bar.members[u]);
    }
  }

  lemma PhaseFalls(b: Barrier.State, t: nat)
    requires t < |b.members| && !Barrier.Blocked(b, t)
    ensures var b' := Barrier.Next(b, t);
            && (forall u :: 0 <= u < |b.members| && u != t ==>
                  PhaseRank(b'.members[u].phase) <= PhaseRank(b.members[u].phase))
            && (b.members[t].phase == Barrier.Unlocking ==> b'.members[t].left == b.members[t].left + 1)
            && (b.members[t].phase != Barrier.Unlocking ==>
                  PhaseRank(b'.members[t].phase) < PhaseRank(b.members[t].phase)
                  && b'.members[t].left == b.members[t].left)
  {
  }

  lemma PopWorkFalls(j: Job, s: State, t: nat, s': State)
    requires Control(j, s) && Step(j, s, t, s') && Pops(s, t)
    ensures MapWork(j, s') < MapWork(j, s)
  {
    MapEffect(j, s, t);
    PopMapRanks(j, s, t);
    SumUpdate(MapRanks(s), t, 18 + |j.mapf(s.inputs[|s.inputs| - 1])|);
  }

  lemma MapWorkFalls(j: Job, s: State, t: nat, s': State)
    requires Control(j, s) && Step(j, s, t, s') && !InReduce(s.pcs[t]) && !Pops(s, t)
    ensures MapWork(j, s') < MapWork(j, s)
  {
    MapEffect(j, s, t);
    if s.pcs[t] == Barrier1 || s.pcs[t] == Barrier2 {
      BarrierRanks(j, s, t);
    } else {
      PlainMapRanks(j, s, t);
    }
    SumShrinks(MapRanks(s'), MapRanks(s), t);
  }

  /** Every step decreases the pair (map work, reduce work) lexicographically. */
  lemma WorkFalls(j: Job, s: State, t: nat, s': State)
    requires Control(j, s) && Step(j, s, t, s')
    ensures Sizes(j, s')
    ensures MapWork(j, s') < MapWork(j, s) || (MapWork(j, s') == MapWork(j, s) && ReduceWork(j, s') < ReduceWork(j, s))
  {
    if InReduce(s.pcs[t]) {
      ReduceKeepsMapRanks(j, s, t);
      ReduceWorkFalls(j, s, t, s');
    } else if Pops(s, t) {
      PopWorkFalls(j, s, t, s');
    } else {
      MapWorkFalls(j, s, t, s');
    }
  }

  lemma ReduceWorkFalls(j: Job, s: State, t: nat, s': State)
    requires Control(j, s) && Step(j, s, t, s') && InReduce(s.pcs[t])
    ensures ReduceWork(j, s') < ReduceWork(j, s)
  {
    ReduceEffect(j, s, t);
    var r := ReduceRank(s'.pcs[t]);
    assert ReduceRanks(s') == ReduceRanks(s)[t := r];
    SumUpdate(ReduceRanks(s), t, r);
  }

  lemma StepWork(j: Job, s: State, t: nat, s': State)
    requires Control(j, s) && Step(j, s, t, s')
    ensures Control(j, s')
    ensures MapWork(j, s') < MapWork(j, s) || (MapWork(j, s') == MapWork(j, s) && ReduceWork(j, s') < ReduceWork(j, s))
  {
    StepControl(j, s, t);
    WorkFalls(j, s, t, s');
  }

  /** An infinite schedule: a state and the thread that moves, at every point in time. */
  datatype Schedule = Schedule(state: nat -> State, who: nat -> nat)

  ghost predicate MovesAt(j: Job, c: Schedule, x: nat) {
    Step(j, c.state(x), c.who(x), c.state(x + 1))
  }

  lemma {:induction false} EndsFrom(j: Job, c: Schedule, i: nat, a: nat, b: nat) returns (k: nat)
    requires Control(j, c.state(i)) && a == MapWork(j, c.state(i)) && b == ReduceWork(j, c.state(i))
    ensures i <= k && !MovesAt(j, c, k)
    decreases a, b
  {
    k := i;
    if MovesAt(j, c, i) {
      StepWork(j, c.state(i), c.who(i), c.state(i + 1));
      k := EndsFrom(j, c, i + 1, MapWork(j, c.state(i + 1)), ReduceWork(j, c.state(i + 1)));
    }
  }

  /** No schedule goes on for ever: an infinite sequence that starts in a well-formed state stops
      being a run of the machine at some point. */
  lemma EveryScheduleEnds(j: Job, c: Schedule) returns (k: nat)
    requires 0 < j.n && c.state(0) == Init(j)
    ensures !MovesAt(j, c, k)
  {
    InitControl(j);
    k := EndsFrom(j, c, 0, MapWork(j, c.state(0)), ReduceWork(j, c.state(0)));
  }

  // ---------- Reported progress ----------

  /** The fraction getJobState subtracts from one when it has read this stage and then reads the
      counters of s. */
  function RemainingIn(stage: nat, s: State): real
    requires 0 < s.size
  {
    if stage == MAP_STAGE then |s.inputs| as real / s.size as real
    else if stage == SHUFFLE_STAGE then 0.5
    else if stage == REDUCE_STAGE then |s.map_| as real / s.size as real
    else 0.0
  }

  function PercentageIn(stage: nat, s: State): real
    requires 0 < s.size
  {
    100.0 * (1.0 - RemainingIn(stage, s))
  }

  /** The percentage when stage and counters are read in one state. */
  function Percentage(s: State): real
    requires 0 < s.size
  {
    PercentageIn(s.stage, s)
  }

  /** The divisor is positive once there is an input and mapping emits a pair. */
  lemma SizePositive(j: Job, s: State)
    requires Inv(j, s) && StrictWeak(j.less) && j.inputs != [] && MapAll(j, j.inputs) != []
    ensures 0 < s.size
  {
    if Shuffled(s) {
      forall t | 0 <= t < j.n
        ensures Pos(s.pcs[t]) >= 2
      {
        PhasesApart(j, s, t);
      }
      AllMapped(j, s);
      var all := Concat(s.inter);
      ShuffleGroups(j.less, all);
      assert |multiset(all)| == |all| && |multiset(MapAll(j, j.inputs))| == |MapAll(j, j.inputs)|;
      assert all[0] in all;
      assert Covered(j.less, ShuffleAll(j.less, all), all[0]);
    }
  }

  lemma FractionBounds(a: nat, b: nat, n: nat)
    requires a <= b <= n && 0 < n
    ensures 0.0 <= a as real / n as real <= b as real / n as real <= 1.0
  {
    var x, y := a as real / n as real, b as real / n as real;
    assert x * n as real == a as real && y * n as real == b as real;
  }

  /** In each stage the counter that is reported is at most the divisor. */
  lemma Counters(j: Job, s: State)
    requires Inv(j, s)
    ensures s.stage == MAP_STAGE ==> |s.inputs| <= s.size
    ensures s.stage == REDUCE_STAGE ==> |s.map_| <= s.size
  {
    Separated(j, s, 0, 0);
    if Shuffled(s) {
      Separated(j, s, 0, 0);
    }
  }

  lemma FractionOf(a: nat, b: nat, n: nat)
    requires a + b == n && 0 < n
    ensures 100.0 * (1.0 - a as real / n as real) * n as real == 100.0 * b as real
  {
    var x := a as real / n as real;
    assert x * n as real == a as real;
    assert (1.0 - x) * n as real == n as real - a as real == b as real;
    assert 100.0 * (1.0 - x) * n as real == 100.0 * ((1.0 - x) * n as real);
  }

  lemma StageSizes(j: Job, s: State)
    requires Inv(j, s)
    ensures s.stage == MAP_STAGE ==> s.size == |s.inputs| + |s.mapped|
    ensures s.stage == REDUCE_STAGE ==> s.size == |s.map_| + |s.reduced|
  {
    Separated(j, s, 0, 0);
  }

  /** p is `part` of `whole` in per cent. */
  ghost predicate Share(p: real, part: nat, whole: nat) {
    p * whole as real == 100.0 * part as real
  }

  /** p is the share of the inputs that have been handed out, or of the groups. */
  ghost predicate PercentageIs(p: real, s: State) {
    && (s.stage == UNDEFINED_STAGE ==> p == 100.0)
    && (s.stage == MAP_STAGE ==> Share(p, |s.mapped|, s.size))
    && (s.stage == SHUFFLE_STAGE ==> p == 50.0)
    && (s.stage == REDUCE_STAGE ==> Share(p, |s.reduced|, s.size))
  }

  lemma SharesOf(s: State)
    requires 0 < s.size
    requires s.stage == MAP_STAGE ==> s.size == |s.inputs| + |s.mapped|
    requires s.stage == REDUCE_STAGE ==> s.size == |s.map_| + |s.reduced|
    ensures PercentageIs(Percentage(s), s)
  {
    if s.stage == MAP_STAGE {
      FractionOf(|s.inputs|, |s.mapped|, s.size);
    } else if s.stage == REDUCE_STAGE {
      FractionOf(|s.map_|, |s.reduced|, s.size);
    }
  }

  /** The percentage is the share of the inputs that have been handed out, or of the groups. */
  lemma PercentageExactly(j: Job, s: State)
    requires Inv(j, s) && 0 < s.size
    ensures PercentageIs(Percentage(s), s)
  {
    StageSizes(j, s);
    SharesOf(s);
  }

  lemma PercentageInRange(j: Job, s: State)
    requires Inv(j, s) && 0 < s.size
    ensures 0.0 <= Percentage(s) <= 100.0
  {
    Counters(j, s);
    if s.stage == MAP_STAGE {
      FractionBounds(|s.inputs|, |s.inputs|, s.size);
    } else if s.stage == REDUCE_STAGE {
      FractionBounds(|s.map_|, |s.map_|, s.size);
    }
  }

  /** The order of two reports: by stage, then by percentage. */
  predicate ReportedBefore(s: State, s': State)
    requires 0 < s.size && 0 < s'.size
  {
    s.stage < s'.stage || (s.stage == s'.stage && Percentage(s) <= Percentage(s'))
  }

  lemma CountersFallBy(j: Job, s: State, t: nat, s': State)
    requires MapEff(j, s, t, s') && ReduceEff(j, s, t, s') && s'.stage == s.stage
    requires s.pcs[t] == DoShuffle ==> s.stage == SHUFFLE_STAGE
    ensures s.stage == MAP_STAGE ==> s'.size == s.size && |s'.inputs| <= |s.inputs|
    ensures s.stage == REDUCE_STAGE ==> s'.size == s.size && |s'.map_| <= |s.map_|
  {
  }

  lemma ShufflingStage(j: Job, s: State, t: nat)
    requires Control(j, s) && StageOk(s) && t < j.n && s.pcs[t] == DoShuffle
    ensures s.stage == SHUFFLE_STAGE
  {
    Separated(j, s, t, t);
    assert Pos(s.pcs[t]) == 4;
  }

  /** Within a stage the divisor is fixed and the counter only falls. */
  lemma CountersFall(j: Job, s: State, t: nat, s': State)
    requires Inv(j, s) && Step(j, s, t, s') && s'.stage == s.stage
    ensures s.stage == MAP_STAGE ==> s'.size == s.size && |s'.inputs| <= |s.inputs|
    ensures s.stage == REDUCE_STAGE ==> s'.size == s.size && |s'.map_| <= |s.map_|
  {
    MapEffect(j, s, t);
    ReduceEffect(j, s, t);
    if s.pcs[t] == DoShuffle { ShufflingStage(j, s, t); }
    CountersFallBy(j, s, t, s');
  }

  lemma PercentageRises(s: State, s': State)
    requires 0 < s.size && 0 < s'.size && s'.stage == s.stage
    requires s.stage == MAP_STAGE ==> s'.size == s.size && |s'.inputs| <= |s.inputs| <= s.size
    requires s.stage == REDUCE_STAGE ==> s'.size == s.size && |s'.map_| <= |s.map_| <= s.size
    ensures Percentage(s) <= Percentage(s')
  {
    if s.stage == MAP_STAGE {
      FractionBounds(|s'.inputs|, |s.inputs|, s.size);
    } else if s.stage == REDUCE_STAGE {
      FractionBounds(|s'.map_|, |s.map_|, s.size);
    }
  }

  /** No step makes the reported progress go back. */
  lemma ProgressStep(j: Job, s: State, t: nat, s': State)
    requires Inv(j, s) && Step(j, s, t, s') && 0 < s.size && 0 < s'.size
    ensures ReportedBefore(s, s')
  {
    StepStage(j, s, t);
    if s.stage == s'.stage {
      CountersFall(j, s, t, s');
      Counters(j, s);
      PercentageRises(s, s');
    }
  }

  /** The job reports a percentage at all: there is an input, and mapping emits a pair. */
  ghost predicate Reports(j: Job) {
    0 < j.n && StrictWeak(j.less) && j.inputs != [] && MapAll(j, j.inputs) != []
  }

  lemma RunPercentage(j: Job, run: seq<State>, i: nat)
    requires Reports(j) && IsRun(j, run) && i < |run|
    ensures 0 < run[i].size && 0.0 <= Percentage(run[i]) <= 100.0
  {
    RunInv(j, run, i);
    SizePositive(j, run[i]);
    PercentageInRange(j, run[i]);
  }

  lemma SomeStepProgress(j: Job, s: State, s': State)
    requires Inv(j, s) && SomeStep(j, s, s') && 0 < s.size && 0 < s'.size
    ensures ReportedBefore(s, s')
  {
    var t: nat :| t < j.n && Step(j, s, t, s');
    ProgressStep(j, s, t, s');
  }

  lemma RunProgress(j: Job, run: seq<State>, i: nat)
    requires Reports(j) && IsRun(j, run) && i + 1 < |run|
    requires 0 < run[i].size && 0 < run[i + 1].size
    ensures ReportedBefore(run[i], run[i + 1])
  {
    RunInv(j, run, i);
    assert StepsAt(j, run, i);
    SomeStepProgress(j, run[i], run[i + 1]);
  }

  /** Over a whole run, two reports that each read the stage once are in order, and within 0 and 100. */
  lemma {:induction false} ProgressNeverGoesBack(j: Job, run: seq<State>, i: nat, k: nat)
    requires Reports(j) && IsRun(j, run) && i <= k < |run|
    ensures 0 < run[i].size && 0 < run[k].size && ReportedBefore(run[i], run[k])
    ensures 0.0 <= Percentage(run[k]) <= 100.0
    decreases k - i
  {
    RunPercentage(j, run, i);
    RunPercentage(j, run, k);
    if i < k {
      ProgressNeverGoesBack(j, run, i, k - 1);
      RunProgress(j, run, k - 1);
      assert run[k - 1 + 1] == run[k];
    }
  }
}
