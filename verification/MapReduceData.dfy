/** What every step of the map-reduce machine conserves: inputs, emitted pairs, groups, outputs
    and the order of the stages. */
module MapReduceData {
  import opened Shuffle
  import opened Bags
  import opened MapReduce
  import Barrier

  // ---------- The map phase ----------

  /** The pairs a thread still has to emit for the input it is mapping. */
  function MapTodo(pc: Pc): multiset<Pair> {
    match pc
    case Mapping(todo) => multiset(todo)
    case _ => multiset{}
  }

  function MapTodos(pcs: seq<Pc>): (r: seq<multiset<Pair>>)
    ensures |r| == |pcs| && forall i :: 0 <= i < |r| ==> r[i] == MapTodo(pcs[i])
  {
    seq(|pcs|, i requires 0 <= i < |pcs| => MapTodo(pcs[i]))
  }

  /** All pairs that mapping these inputs emits, one input after the other. */
  function MapAll(j: Job, xs: seq<Input>): seq<Pair> {
    if xs == [] then [] else MapAll(j, xs[..|xs| - 1]) + j.mapf(xs[|xs| - 1])
  }

  /** Emitted, being emitted, or still to be mapped. */
  function PairsNow(j: Job, s: State): multiset<Pair> {
    multiset(Concat(s.inter)) + Union(MapTodos(s.pcs)) + multiset(MapAll(j, s.inputs))
  }

  /** The inputs handed out so far are the last ones of the job, each once, last one first. */
  ghost predicate HandedOut(j: Job, inputs: seq<Input>, mapped: seq<Input>) {
    && inputs <= j.inputs
    && |mapped| == |j.inputs| - |inputs|
    && (forall k :: 0 <= k < |mapped| ==> mapped[k] == j.inputs[|j.inputs| - 1 - k])
  }

  /** A thread goes to the first barrier only when no input is left. */
  ghost predicate Drained(s: State) {
    forall t :: 0 <= t < |s.pcs| && Pos(s.pcs[t]) >= 2 ==> s.inputs == []
  }

  /** Inputs are handed out once each, from the back; no pair is lost or duplicated. */
  ghost predicate MapData(j: Job, s: State) {
    && HandedOut(j, s.inputs, s.mapped)
    && PairsNow(j, s) == multiset(MapAll(j, j.inputs))
    && Drained(s)
  }

  lemma {:induction false} ConcatUpdate(vecs: seq<seq<Pair>>, i: nat, p: Pair)
    requires i < |vecs|
    ensures multiset(Concat(vecs[i := vecs[i] + [p]])) == multiset(Concat(vecs)) + multiset{p}
    decreases |vecs|
  {
    var k := |vecs| - 1;
    var vecs' := vecs[i := vecs[i] + [p]];
    if i == k {
      assert vecs'[..k] == vecs[..k];
      assert Concat(vecs') == Concat(vecs) + [p];
    } else {
      assert vecs'[..k] == vecs[..k][i := vecs[..k][i] + [p]];
      ConcatUpdate(vecs[..k], i, p);
    }
  }

  lemma MapTodosUpdate(pcs: seq<Pc>, t: nat, pc: Pc)
    requires t < |pcs|
    ensures Union(MapTodos(pcs[t := pc])) + MapTodo(pcs[t]) == Union(MapTodos(pcs)) + MapTodo(pc)
  {
    assert MapTodos(pcs[t := pc]) == MapTodos(pcs)[t := MapTodo(pc)];
    UnionUpdate(MapTodos(pcs), t, MapTodo(pc));
  }

  lemma {:induction false} ConcatOfEmpty(vecs: seq<seq<Pair>>)
    requires forall i :: 0 <= i < |vecs| ==> vecs[i] == []
    ensures Concat(vecs) == []
    decreases |vecs|
  {
    if vecs != [] {
      ConcatOfEmpty(vecs[..|vecs| - 1]);
    }
  }

  lemma EmptyBags<T>(m: multiset<T>)
    ensures (multiset{} + multiset{}) + m == m
  {
  }

  lemma NoPairsYet(j: Job, inter: seq<seq<Pair>>, pcs: seq<Pc>, m: multiset<Pair>)
    requires forall i :: 0 <= i < |inter| ==> inter[i] == []
    requires forall i :: 0 <= i < |pcs| ==> pcs[i] == Start
    ensures multiset(Concat(inter)) + Union(MapTodos(pcs)) + m == m
  {
    ConcatOfEmpty(inter);
    UnionOfEmpty(MapTodos(pcs));
    EmptyBags(m);
  }

  lemma InitMapData(j: Job)
    ensures MapData(j, Init(j))
  {
    NoPairsYet(j, Init(j).inter, Init(j).pcs, multiset(MapAll(j, j.inputs)));
  }

  /** Handing out an input turns its pairs into the thread's pairs to emit. */
  lemma PopBag(j: Job, xs: seq<Input>, pcs: seq<Pc>, t: nat)
    requires t < |pcs| && MapTodo(pcs[t]) == multiset{} && xs != []
    ensures Union(MapTodos(pcs[t := Mapping(j.mapf(xs[|xs| - 1]))])) + multiset(MapAll(j, xs[..|xs| - 1]))
         == Union(MapTodos(pcs)) + multiset(MapAll(j, xs))
  {
    var init, emits := MapAll(j, xs[..|xs| - 1]), j.mapf(xs[|xs| - 1]);
    MapTodosUpdate(pcs, t, Mapping(emits));
    assert MapAll(j, xs) == init + emits;
    BagRotate(Union(MapTodos(pcs)), multiset(emits), multiset(init));
  }

  lemma BagRotate<T>(u: multiset<T>, e: multiset<T>, i: multiset<T>)
    ensures (u + e) + i == u + (i + e)
  {
  }

  lemma BagAssoc<T>(a: multiset<T>, b: multiset<T>, c: multiset<T>)
    ensures (a + b) + c == a + (b + c)
  {
  }

  /** Emitting a pair moves it from the thread's pairs to its intermediate vector. */
  lemma EmitBag(inter: seq<seq<Pair>>, pcs: seq<Pc>, t: nat, todo: seq<Pair>)
    requires t < |pcs| == |inter| && pcs[t] == Mapping(todo) && todo != []
    ensures multiset(Concat(inter[t := inter[t] + [todo[0]]])) + Union(MapTodos(pcs[t := Mapping(todo[1..])]))
         == multiset(Concat(inter)) + Union(MapTodos(pcs))
  {
    var rest := Mapping(todo[1..]);
    ConcatUpdate(inter, t, todo[0]);
    MapTodosUpdate(pcs, t, rest);
    MoveFirst(multiset(Concat(inter)), multiset(Concat(inter[t := inter[t] + [todo[0]]])),
              Union(MapTodos(pcs)), Union(MapTodos(pcs[t := rest])), todo);
  }

  /** One element goes from a thread's list to a vector. */
  lemma MoveFirst<T>(c: multiset<T>, c': multiset<T>, u: multiset<T>, u': multiset<T>, todo: seq<T>)
    requires todo != [] && c' == c + multiset{todo[0]}
    requires u' + multiset(todo) == u + multiset(todo[1..])
    ensures c' + u' == c + u
  {
    assert todo == [todo[0]] + todo[1..];
    BagMove(c, u, u', multiset(todo[1..]), multiset{todo[0]});
  }

  lemma BagMove<T>(c: multiset<T>, u: multiset<T>, u': multiset<T>, rest: multiset<T>, x: multiset<T>)
    requires u' + (x + rest) == u + rest
    ensures (c + x) + u' == c + u
  {
    assert (u' + x) + rest == u + rest;
    assert ((u' + x) + rest) - rest == u' + x;
    assert (u + rest) - rest == u;
    assert (c + x) + u' == c + (u' + x);
  }

  lemma StillBag(pcs: seq<Pc>, t: nat, pc: Pc)
    requires t < |pcs| && MapTodo(pcs[t]) == MapTodo(pc)
    ensures Union(MapTodos(pcs[t := pc])) == Union(MapTodos(pcs))
  {
    assert MapTodos(pcs[t := pc]) == MapTodos(pcs);
  }

  predicate Pops(s: State, t: nat)
    requires t < |s.pcs|
  {
    s.pcs[t] == MapHold && s.inputs != []
  }

  predicate Emits(s: State, t: nat)
    requires t < |s.pcs|
  {
    s.pcs[t].Mapping? && s.pcs[t].todo != []
  }

  /** What a step does to the components that carry pairs. */
  ghost predicate MapEff(j: Job, s: State, t: nat, s': State) {
    && t < |s.pcs| == |s'.pcs| == |s.inter|
    && s'.pcs == s.pcs[t := s'.pcs[t]]
    && (Pops(s, t) ==>
          && s'.inputs == s.inputs[..|s.inputs| - 1] && s'.mapped == s.mapped + [s.inputs[|s.inputs| - 1]]
          && s'.inter == s.inter && s'.pcs[t] == Mapping(j.mapf(s.inputs[|s.inputs| - 1])))
    && (Emits(s, t) ==>
          && s'.inputs == s.inputs && s'.mapped == s.mapped
          && s'.inter == s.inter[t := s.inter[t] + [s.pcs[t].todo[0]]]
          && s'.pcs[t] == Mapping(s.pcs[t].todo[1..]))
    && (!Pops(s, t) && !Emits(s, t) ==>
          && s'.inputs == s.inputs && s'.mapped == s.mapped && s'.inter == s.inter
          && MapTodo(s'.pcs[t]) == MapTodo(s.pcs[t]))
  }

  lemma MapEffect(j: Job, s: State, t: nat)
    requires Sizes(j, s) && t < j.n && !Blocked(j, s, t)
    ensures MapEff(j, s, t, Next(j, s, t))
  {
    if s.pcs[t] == Barrier1 || s.pcs[t] == Barrier2 {
      BarrierNext(j, s, t);
    }
  }

  /** A thread never goes back past a barrier; it reaches the first one only with no input left. */
  ghost predicate PosEff(s: State, t: nat, s': State) {
    && t < |s.pcs| == |s'.pcs|
    && (forall u :: 0 <= u < |s.pcs| && u != t ==> s'.pcs[u] == s.pcs[u])
    && var p, p' := Pos(s.pcs[t]), Pos(s'.pcs[t]);
       && 1 <= p'
       && p <= p'
       && (p < 2 <= p' ==> s.inputs == [])
       && (p < 3 <= p' ==> p == 2)
       && (p < 4 <= p' ==> p == 3)
       && (p < 5 <= p' ==> p == 4 || t != 0)
       && (p < 7 <= p' ==> p == 6)
  }

  predicate InReduce(pc: Pc) {
    pc == RedLock || pc == RedHold || pc.Reducing?
  }

  lemma ReducePos(j: Job, s: State, t: nat)
    requires Sizes(j, s) && t < j.n && !Blocked(j, s, t) && InReduce(s.pcs[t])
    ensures PosEff(s, t, Next(j, s, t))
  {
    var s' := Next(j, s, t);
    assert s'.pcs == s.pcs[t := s'.pcs[t]];
  }

  lemma NextPos(j: Job, s: State, t: nat)
    requires Sizes(j, s) && t < j.n && !Blocked(j, s, t)
    ensures PosEff(s, t, Next(j, s, t))
  {
    var s' := Next(j, s, t);
    if s.pcs[t] == Barrier1 || s.pcs[t] == Barrier2 {
      BarrierNext(j, s, t);
    } else if InReduce(s.pcs[t]) {
      ReducePos(j, s, t);
    } else {
      assert s'.pcs == s.pcs[t := s'.pcs[t]];
    }
  }

  lemma PairsConserved(j: Job, s: State, t: nat, s': State)
    requires MapEff(j, s, t, s')
    ensures PairsNow(j, s') == PairsNow(j, s)
  {
    if Pops(s, t) {
      PopBag(j, s.inputs, s.pcs, t);
      BagAssoc(multiset(Concat(s.inter)), Union(MapTodos(s.pcs)), multiset(MapAll(j, s.inputs)));
      BagAssoc(multiset(Concat(s.inter)), Union(MapTodos(s'.pcs)), multiset(MapAll(j, s'.inputs)));
    } else if Emits(s, t) {
      EmitBag(s.inter, s.pcs, t, s.pcs[t].todo);
    } else {
      StillBag(s.pcs, t, s'.pcs[t]);
    }
  }

  lemma HandOut(j: Job, inputs: seq<Input>, mapped: seq<Input>)
    requires HandedOut(j, inputs, mapped) && inputs != []
    ensures HandedOut(j, inputs[..|inputs| - 1], mapped + [inputs[|inputs| - 1]])
  {
  }

  lemma DrainedKept(j: Job, s: State, t: nat, s': State)
    requires MapEff(j, s, t, s') && PosEff(s, t, s') && Drained(s)
    ensures Drained(s')
  {
  }

  lemma MapDataKept(j: Job, s: State, t: nat, s': State)
    requires MapEff(j, s, t, s') && PosEff(s, t, s') && MapData(j, s)
    ensures MapData(j, s')
  {
    PairsConserved(j, s, t, s');
    DrainedKept(j, s, t, s');
    if Pops(s, t) {
      HandOut(j, s.inputs, s.mapped);
    }
  }

  lemma StepMapData(j: Job, s: State, t: nat)
    requires Control(j, s) && t < j.n && !Blocked(j, s, t) && MapData(j, s)
    ensures MapData(j, Next(j, s, t))
  {
    MapEffect(j, s, t);
    NextPos(j, s, t);
    MapDataKept(j, s, t, Next(j, s, t));
  }

  // ---------- The shuffle and the reduce phase ----------

  function ReduceTodo(pc: Pc): multiset<Out> {
    match pc
    case Reducing(outs) => multiset(outs)
    case _ => multiset{}
  }

  function ReduceTodos(pcs: seq<Pc>): (r: seq<multiset<Out>>)
    ensures |r| == |pcs| && forall i :: 0 <= i < |r| ==> r[i] == ReduceTodo(pcs[i])
  {
    seq(|pcs|, i requires 0 <= i < |pcs| => ReduceTodo(pcs[i]))
  }

  /** What reducing these groups emits. */
  function ReduceAll(j: Job, gs: seq<Group>): multiset<Out> {
    if gs == [] then multiset{} else ReduceAll(j, gs[..|gs| - 1]) + multiset(j.reducef(gs[|gs| - 1].pairs))
  }

  /** Thread 0 has shuffled. */
  predicate Shuffled(s: State)
    requires 0 < |s.pcs|
  {
    Pos(s.pcs[0]) >= 5
  }

  /** Before the shuffle the map is empty; after it, the groups handed to reduce followed by those
      still in the map are the shuffled groups, and what they emit is in the output vector or
      still to be emitted. */
  ghost predicate ReduceData(j: Job, s: State)
    requires 0 < |s.pcs|
  {
    && (!Shuffled(s) ==> s.map_ == [] && s.reduced == [] && s.size == |j.inputs|)
    && (Shuffled(s) ==> s.reduced + s.map_ == ShuffleAll(j.less, Concat(s.inter)) && s.size == |s.reduced| + |s.map_|)
    && multiset(s.out) + Union(ReduceTodos(s.pcs)) == ReduceAll(j, s.reduced)
    && (forall t :: 0 <= t < |s.pcs| && s.pcs[t] == Done ==> s.map_ == [])
  }

  lemma InitReduceData(j: Job)
    requires 0 < j.n
    ensures ReduceData(j, Init(j))
  {
    UnionOfEmpty(ReduceTodos(Init(j).pcs));
  }

  lemma ReduceTodosUpdate(pcs: seq<Pc>, t: nat, pc: Pc)
    requires t < |pcs|
    ensures Union(ReduceTodos(pcs[t := pc])) + ReduceTodo(pcs[t]) == Union(ReduceTodos(pcs)) + ReduceTodo(pc)
  {
    assert ReduceTodos(pcs[t := pc]) == ReduceTodos(pcs)[t := ReduceTodo(pc)];
    UnionUpdate(ReduceTodos(pcs), t, ReduceTodo(pc));
  }

  predicate Takes(s: State, t: nat)
    requires t < |s.pcs|
  {
    s.pcs[t] == RedHold && s.map_ != []
  }

  predicate Outputs(s: State, t: nat)
    requires t < |s.pcs|
  {
    s.pcs[t].Reducing? && s.pcs[t].outs != []
  }

  /** What a step does to the components that carry groups and outputs. */
  ghost predicate ReduceEff(j: Job, s: State, t: nat, s': State) {
    && t < |s.pcs| == |s'.pcs|
    && s'.pcs == s.pcs[t := s'.pcs[t]]
    && (Takes(s, t) ==>
          && s'.map_ == s.map_[1..] && s'.reduced == s.reduced + [s.map_[0]] && s'.out == s.out
          && s'.size == s.size && s'.pcs[t] == Reducing(j.reducef(s.map_[0].pairs)))
    && (Outputs(s, t) ==>
          && s'.reduced == s.reduced && s'.out == s.out + [s.pcs[t].outs[0]]
          && s'.pcs[t] == Reducing(s.pcs[t].outs[1..]))
    && (!Takes(s, t) && !Outputs(s, t) ==>
          s'.out == s.out && s'.reduced == s.reduced && ReduceTodo(s'.pcs[t]) == ReduceTodo(s.pcs[t]))
    && (!Takes(s, t) && s.pcs[t] != DoShuffle ==> s'.map_ == s.map_ && s'.size == s.size)
    && (s.pcs[t] == DoShuffle ==>
          s'.map_ == ShuffleAll(j.less, Concat(s.inter)) && s'.size == |s'.map_| && s'.pcs[t] == Barrier2)
    && (s'.pcs[t] == Done ==> s.map_ == [] && s.pcs[t] == RedHold)
  }

  lemma ReduceLoopEffect(j: Job, s: State, t: nat)
    requires Sizes(j, s) && t < j.n && !Blocked(j, s, t) && InReduce(s.pcs[t])
    ensures ReduceEff(j, s, t, Next(j, s, t))
  {
    var s' := Next(j, s, t);
    assert s'.pcs == s.pcs[t := s'.pcs[t]];
  }

  lemma OtherEffect(j: Job, s: State, t: nat)
    requires Sizes(j, s) && t < j.n && !Blocked(j, s, t) && !InReduce(s.pcs[t])
    requires s.pcs[t] != Barrier1 && s.pcs[t] != Barrier2
    ensures ReduceEff(j, s, t, Next(j, s, t))
  {
    var s' := Next(j, s, t);
    assert s'.pcs == s.pcs[t := s'.pcs[t]];
  }

  lemma ReduceEffect(j: Job, s: State, t: nat)
    requires Sizes(j, s) && t < j.n && !Blocked(j, s, t)
    ensures ReduceEff(j, s, t, Next(j, s, t))
  {
    if s.pcs[t] == Barrier1 || s.pcs[t] == Barrier2 {
      BarrierNext(j, s, t);
    } else if InReduce(s.pcs[t]) {
      ReduceLoopEffect(j, s, t);
    } else {
      OtherEffect(j, s, t);
    }
  }

  /** What a thread takes to reduce, it emits. */
  lemma BagTake<T>(o: multiset<T>, u: multiset<T>, u': multiset<T>, outs: multiset<T>, all: multiset<T>)
    requires o + u == all && u' + multiset{} == u + outs
    ensures o + u' == all + outs
  {
    assert u' == u' + multiset{};
    BagAssoc(o, u, outs);
  }

  lemma TakeBag(j: Job, s: State, t: nat, g: Group)
    requires t < |s.pcs| && ReduceTodo(s.pcs[t]) == multiset{}
    requires multiset(s.out) + Union(ReduceTodos(s.pcs)) == ReduceAll(j, s.reduced)
    ensures multiset(s.out) + Union(ReduceTodos(s.pcs[t := Reducing(j.reducef(g.pairs))]))
         == ReduceAll(j, s.reduced + [g])
  {
    var next := Reducing(j.reducef(g.pairs));
    ReduceTodosUpdate(s.pcs, t, next);
    assert (s.reduced + [g])[..|s.reduced|] == s.reduced;
    BagTake(multiset(s.out), Union(ReduceTodos(s.pcs)), Union(ReduceTodos(s.pcs[t := next])),
            ReduceTodo(next), ReduceAll(j, s.reduced));
  }

  lemma OutputBag(s: State, t: nat, outs: seq<Out>)
    requires t < |s.pcs| && s.pcs[t] == Reducing(outs) && outs != []
    ensures multiset(s.out + [outs[0]]) + Union(ReduceTodos(s.pcs[t := Reducing(outs[1..])]))
         == multiset(s.out) + Union(ReduceTodos(s.pcs))
  {
    var rest := Reducing(outs[1..]);
    ReduceTodosUpdate(s.pcs, t, rest);
    MoveFirst(multiset(s.out), multiset(s.out + [outs[0]]),
              Union(ReduceTodos(s.pcs)), Union(ReduceTodos(s.pcs[t := rest])), outs);
  }

  lemma OutsConserved(j: Job, s: State, t: nat, s': State)
    requires ReduceEff(j, s, t, s')
    requires multiset(s.out) + Union(ReduceTodos(s.pcs)) == ReduceAll(j, s.reduced)
    ensures multiset(s'.out) + Union(ReduceTodos(s'.pcs)) == ReduceAll(j, s'.reduced)
  {
    if Takes(s, t) {
      TakeBag(j, s, t, s.map_[0]);
    } else if Outputs(s, t) {
      OutputBag(s, t, s.pcs[t].outs);
    } else {
      assert ReduceTodos(s'.pcs) == ReduceTodos(s.pcs);
    }
  }

  /** Nobody emits a pair once thread 0 has shuffled, and nobody reduces before. */
  lemma PhasesApart(j: Job, s: State, t: nat)
    requires Control(j, s) && t < j.n
    ensures Shuffled(s) ==> Pos(s.pcs[t]) >= 2 && s.pcs[t] != DoShuffle
    ensures !Shuffled(s) ==> Pos(s.pcs[t]) < 6
    ensures s.pcs[t] == DoShuffle ==> t == 0 && forall u :: 0 <= u < j.n ==> s.pcs[u] != Done
  {
    Separated(j, s, 0, t);
    Separated(j, s, t, 0);
    forall u | 0 <= u < j.n
      ensures s.pcs[t] == DoShuffle ==> s.pcs[u] != Done
    {
      Separated(j, s, u, t);
    }
  }

  lemma TakeKeepsAll(reduced: seq<Group>, map_: seq<Group>)
    requires map_ != []
    ensures (reduced + [map_[0]]) + map_[1..] == reduced + map_
  {
    assert [map_[0]] + map_[1..] == map_;
  }

  lemma GroupsKept(j: Job, s: State, t: nat, s': State)
    requires MapEff(j, s, t, s') && PosEff(s, t, s') && ReduceEff(j, s, t, s')
    requires Shuffled(s) && Pos(s.pcs[t]) >= 2 && s.pcs[t] != DoShuffle
    ensures Shuffled(s') && s'.inter == s.inter
    ensures s'.reduced + s'.map_ == s.reduced + s.map_
    ensures |s'.reduced| + |s'.map_| == |s.reduced| + |s.map_| && s'.size == s.size
  {
    if Takes(s, t) {
      TakeKeepsAll(s.reduced, s.map_);
    }
  }

  /** The step of thread 0 that shuffles. */
  lemma GroupsShuffled(j: Job, s: State, s': State)
    requires |s.pcs| > 0 && MapEff(j, s, 0, s') && ReduceEff(j, s, 0, s') && s.pcs[0] == DoShuffle
    requires s.reduced == []
    ensures Shuffled(s') && s'.reduced + s'.map_ == ShuffleAll(j.less, Concat(s'.inter))
    ensures s'.size == |s'.reduced| + |s'.map_|
  {
    assert s'.inter == s.inter && s'.reduced == [];
    assert s'.reduced + s'.map_ == s'.map_;
  }

  /** Any other step before. */
  lemma NotYetShuffled(j: Job, s: State, t: nat, s': State)
    requires PosEff(s, t, s') && ReduceEff(j, s, t, s') && !Shuffled(s) && Pos(s.pcs[t]) < 6
    requires s.pcs[t] != DoShuffle && s.map_ == [] && s.reduced == []
    ensures !Shuffled(s') && s'.map_ == [] && s'.reduced == [] && s'.size == s.size
  {
    assert Pos(s.pcs[t]) != 4;
  }

  lemma GroupsMade(j: Job, s: State, t: nat, s': State)
    requires MapEff(j, s, t, s') && PosEff(s, t, s') && ReduceEff(j, s, t, s')
    requires s.map_ == [] && s.reduced == [] && s.size == |j.inputs|
    requires !Shuffled(s) && Pos(s.pcs[t]) < 6 && (s.pcs[t] == DoShuffle ==> t == 0)
    ensures !Shuffled(s') ==> s'.map_ == [] && s'.reduced == [] && s'.size == |j.inputs|
    ensures Shuffled(s') ==>
              s'.reduced + s'.map_ == ShuffleAll(j.less, Concat(s'.inter)) && s'.size == |s'.reduced| + |s'.map_|
  {
    if s.pcs[t] == DoShuffle {
      GroupsShuffled(j, s, s');
    } else {
      NotYetShuffled(j, s, t, s');
    }
  }

  lemma StepReduceData(j: Job, s: State, t: nat)
    requires Control(j, s) && t < j.n && !Blocked(j, s, t) && ReduceData(j, s)
    ensures ReduceData(j, Next(j, s, t))
  {
    var s' := Next(j, s, t);
    MapEffect(j, s, t);
    NextPos(j, s, t);
    ReduceEffect(j, s, t);
    PhasesApart(j, s, t);
    if Shuffled(s) {
      GroupsKept(j, s, t, s');
    } else {
      GroupsMade(j, s, t, s');
    }
    OutsConserved(j, s, t, s');
    DoneMeansEmpty(j, s, t, s');
  }

  lemma DoneMeansEmpty(j: Job, s: State, t: nat, s': State)
    requires PosEff(s, t, s') && ReduceEff(j, s, t, s') && ReduceData(j, s)
    requires s.pcs[t] == DoShuffle ==> forall u :: 0 <= u < |s.pcs| ==> s.pcs[u] != Done
    ensures forall u :: 0 <= u < |s'.pcs| && s'.pcs[u] == Done ==> s'.map_ == []
  {
  }

  // ---------- The stages ----------

  /** The shared stage never lags behind a thread and never runs ahead of a barrier. */
  ghost predicate StageOk(s: State) {
    && s.stage <= REDUCE_STAGE
    && (s.stage >= SHUFFLE_STAGE ==> s.bar.round >= 1)
    && (s.stage >= REDUCE_STAGE ==> s.bar.round >= 2)
    && (forall t :: 0 <= t < |s.pcs| && Pos(s.pcs[t]) >= 1 ==> s.stage >= MAP_STAGE)
    && (forall t :: 0 <= t < |s.pcs| && Pos(s.pcs[t]) >= 4 ==> s.stage >= SHUFFLE_STAGE)
    && (forall t :: 0 <= t < |s.pcs| && Pos(s.pcs[t]) >= 7 ==> s.stage >= REDUCE_STAGE)
  }

  ghost predicate StageEff(s: State, t: nat, s': State) {
    && t < |s.pcs| == |s'.pcs|
    && (s.pcs[t] == Start ==> s'.stage == MAP_STAGE)
    && (s.pcs[t] == SetShuffle ==> s'.stage == SHUFFLE_STAGE)
    && (s.pcs[t] == SetReduce ==> s'.stage == REDUCE_STAGE)
    && (s.pcs[t] != Start && s.pcs[t] != SetShuffle && s.pcs[t] != SetReduce ==> s'.stage == s.stage)
    && s.bar.round <= s'.bar.round
  }

  lemma StageEffect(j: Job, s: State, t: nat)
    requires Control(j, s) && t < j.n && !Blocked(j, s, t)
    ensures StageEff(s, t, Next(j, s, t))
  {
    if s.pcs[t] == Barrier1 || s.pcs[t] == Barrier2 {
      BarrierNext(j, s, t);
      Barrier.StepInv(s.bar, t, Barrier.Next(s.bar, t));
    }
  }

  /** The rounds of the barriers bound the stage a thread may write. */
  ghost predicate RoundFits(s: State, t: nat)
    requires t < |s.pcs|
  {
    && (Pos(s.pcs[t]) <= 1 ==> s.bar.round == 0)
    && (Pos(s.pcs[t]) <= 4 ==> s.bar.round <= 1)
    && (Pos(s.pcs[t]) >= 3 ==> s.bar.round >= 1)
    && (Pos(s.pcs[t]) >= 6 ==> s.bar.round >= 2)
  }

  /** No step lowers the stage. */
  lemma StageKept(s: State, t: nat, s': State)
    requires StageEff(s, t, s') && PosEff(s, t, s') && StageOk(s) && RoundFits(s, t)
    ensures StageOk(s') && s.stage <= s'.stage
  {
  }

  lemma StepStage(j: Job, s: State, t: nat)
    requires Control(j, s) && t < j.n && !Blocked(j, s, t) && StageOk(s)
    ensures StageOk(Next(j, s, t)) && s.stage <= Next(j, s, t).stage
  {
    StageEffect(j, s, t);
    NextPos(j, s, t);
    Separated(j, s, t, t);
    StageKept(s, t, Next(j, s, t));
  }

  // ---------- All together ----------

  ghost predicate Inv(j: Job, s: State) {
    Control(j, s) && MapData(j, s) && ReduceData(j, s) && StageOk(s)
  }

  lemma InitInv(j: Job)
    requires 0 < j.n
    ensures Inv(j, Init(j))
  {
    InitControl(j);
    InitMapData(j);
    InitReduceData(j);
  }

  lemma StepInv(j: Job, s: State, t: nat, s': State)
    requires Inv(j, s) && Step(j, s, t, s')
    ensures Inv(j, s')
  {
    StepControl(j, s, t);
    StepMapData(j, s, t);
    StepReduceData(j, s, t);
    StepStage(j, s, t);
  }
}
