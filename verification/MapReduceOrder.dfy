/** In what order a job emits: each thread's intermediate vector, the output vector, and the exact
    result of a job with one thread. */
module MapReduceOrder {
  import opened Shuffle
  import opened MapReduce
  import opened MapReduceData
  import opened MapReduceTheorems
  import Barrier

  function Pending(pc: Pc): seq<Pair> {
    if pc.Mapping? then pc.todo else []
  }

  function PendingOut(pc: Pc): seq<Out> {
    if pc.Reducing? then pc.outs else []
  }

  /** What thread u has emitted, followed by what it still has to emit for its input. */
  function Emitted(s: State, u: nat): seq<Pair>
    requires u < |s.inter| == |s.pcs|
  {
    s.inter[u] + Pending(s.pcs[u])
  }

  /** The inputs that thread u takes in a step of thread t. */
  function Taken(s: State, t: nat, u: nat): seq<Input>
    requires t < |s.pcs|
  {
    if u == t && s.pcs[t] == MapHold && s.inputs != [] then [s.inputs[|s.inputs| - 1]] else []
  }

  lemma MapAllStep(j: Job, xs: seq<Input>, x: Input)
    ensures MapAll(j, xs + [x]) == MapAll(j, xs) + j.mapf(x)
  {
    assert (xs + [x])[..|xs|] == xs;
  }

  lemma EmptySeq<T>(a: seq<T>)
    ensures a + [] == a
  {
  }

  lemma MoveHead<T>(a: seq<T>, todo: seq<T>)
    requires todo != []
    ensures (a + [todo[0]]) + todo[1..] == a + todo
  {
    assert todo == [todo[0]] + todo[1..];
  }

  /** The step of thread t as thread u's emissions see it. */
  lemma EmittedEff(j: Job, s: State, t: nat, s': State, u: nat)
    requires MapEff(j, s, t, s') && u < |s.pcs| && |s'.inter| == |s.inter| && PendingEff(j, s, t, s')
    ensures Emitted(s', u) == Emitted(s, u) + MapAll(j, Taken(s, t, u))
  {
    EmptySeq(Emitted(s, u));
    if u == t && Pops(s, t) {
      var x := s.inputs[|s.inputs| - 1];
      MapAllStep(j, [], x);
      assert [] + [x] == [x] && MapAll(j, []) == [];
      assert s.inter[u] + [] == s.inter[u];
    } else if u == t && Emits(s, t) {
      MoveHead(s.inter[u], s.pcs[u].todo);
    }
  }

  /** A step that neither takes an input nor emits leaves no pair to emit. */
  ghost predicate PendingEff(j: Job, s: State, t: nat, s': State) {
    && t < |s.pcs| == |s'.pcs|
    && (!Pops(s, t) && !Emits(s, t) ==> Pending(s'.pcs[t]) == Pending(s.pcs[t]) == [])
    && (Pops(s, t) ==> Pending(s.pcs[t]) == [])
  }

  lemma PendingEffect(j: Job, s: State, t: nat)
    requires Sizes(j, s) && t < j.n && !Blocked(j, s, t)
    ensures PendingEff(j, s, t, Next(j, s, t))
  {
    if s.pcs[t] == Barrier1 || s.pcs[t] == Barrier2 {
      BarrierNext(j, s, t);
    }
  }

  /** Each thread emits the pairs of its inputs one input after the other, in the order in which the
      client's map emits them: a step that takes an input adds its pairs at the end, and no other
      step changes what has been and has to be emitted. */
  lemma EmissionInOrder(j: Job, s: State, t: nat, s': State, u: nat)
    requires Step(j, s, t, s') && u < j.n
    ensures |s'.inter| == |s'.pcs| == j.n
    ensures Emitted(s', u) == Emitted(s, u) + MapAll(j, Taken(s, t, u))
    ensures s.inter[u] <= s'.inter[u]
  {
    MapEffect(j, s, t);
    PendingEffect(j, s, t);
    EmittedEff(j, s, t, s', u);
  }

  // ---------- The output vector ----------

  /** What reducing these groups one after the other emits. */
  function ReduceSeq(j: Job, gs: seq<Group>): seq<Out> {
    if gs == [] then [] else ReduceSeq(j, gs[..|gs| - 1]) + j.reducef(gs[|gs| - 1].pairs)
  }

  /** The output vector only grows, at its end, by the next output of the thread that moves. */
  lemma OutputGrows(j: Job, s: State, t: nat, s': State)
    requires Step(j, s, t, s')
    ensures s.out <= s'.out
    ensures s'.out == s.out + if Outputs(s, t) then [s.pcs[t].outs[0]] else []
    ensures Outputs(s, t) ==> PendingOut(s'.pcs[t]) == s.pcs[t].outs[1..]
  {
    ReduceEffect(j, s, t);
  }

  // ---------- One thread ----------

  /** The pairs are emitted in the order of the inputs, and the outputs in that of the groups. */
  ghost predicate InOrder(j: Job, s: State)
    requires |s.pcs| == |s.inter| == 1
  {
    && Emitted(s, 0) == MapAll(j, s.mapped)
    && s.out + PendingOut(s.pcs[0]) == ReduceSeq(j, s.reduced)
  }

  ghost predicate PendingOutEff(j: Job, s: State, t: nat, s': State) {
    && t < |s.pcs| == |s'.pcs|
    && (!Takes(s, t) && !Outputs(s, t) ==> PendingOut(s'.pcs[t]) == PendingOut(s.pcs[t]) == [])
    && (Takes(s, t) ==> PendingOut(s.pcs[t]) == [])
  }

  lemma PendingOutEffect(j: Job, s: State, t: nat)
    requires Sizes(j, s) && t < j.n && !Blocked(j, s, t)
    ensures PendingOutEff(j, s, t, Next(j, s, t))
  {
    if s.pcs[t] == Barrier1 || s.pcs[t] == Barrier2 {
      BarrierNext(j, s, t);
    }
  }

  lemma OutInOrder(j: Job, s: State, s': State)
    requires |s.pcs| == |s'.pcs| == 1 && ReduceEff(j, s, 0, s') && PendingOutEff(j, s, 0, s')
    requires s.out + PendingOut(s.pcs[0]) == ReduceSeq(j, s.reduced)
    ensures s'.out + PendingOut(s'.pcs[0]) == ReduceSeq(j, s'.reduced)
  {
    if Takes(s, 0) {
      EmptySeq(s.out);
      assert s'.reduced[..|s.reduced|] == s.reduced;
    } else if Outputs(s, 0) {
      MoveHead(s.out, s.pcs[0].outs);
    }
  }

  lemma MappedInOrder(j: Job, s: State, s': State)
    requires |s.pcs| == 1 && MapEff(j, s, 0, s')
    ensures MapAll(j, s'.mapped) == MapAll(j, s.mapped) + MapAll(j, Taken(s, 0, 0))
  {
    EmptySeq(MapAll(j, s.mapped));
    if Pops(s, 0) {
      var x := s.inputs[|s.inputs| - 1];
      MapAllStep(j, s.mapped, x);
      MapAllStep(j, [], x);
      assert [] + [x] == [x] && MapAll(j, []) == [];
    }
  }

  lemma PairsInOrder(j: Job, s: State, s': State)
    requires j.n == 1 && Sizes(j, s) && Step(j, s, 0, s') && Emitted(s, 0) == MapAll(j, s.mapped)
    ensures |s'.inter| == |s'.pcs| == 1 && Emitted(s', 0) == MapAll(j, s'.mapped)
  {
    MapEffect(j, s, 0);
    MappedInOrder(j, s, s');
    EmissionInOrder(j, s, 0, s', 0);
  }

  lemma InOrderStep(j: Job, s: State, s': State)
    requires j.n == 1 && Sizes(j, s) && Sizes(j, s') && SomeStep(j, s, s') && InOrder(j, s)
    ensures InOrder(j, s')
  {
    var t: nat :| t < j.n && Step(j, s, t, s');
    assert t == 0;
    PairsInOrder(j, s, s');
    ReduceEffect(j, s, 0);
    PendingOutEffect(j, s, 0);
    OutInOrder(j, s, s');
  }

  lemma SizesAt(j: Job, run: seq<State>, i: nat)
    requires 0 < j.n && IsRun(j, run) && i < |run|
    ensures Sizes(j, run[i])
  {
    RunInv(j, run, i);
  }

  lemma InOrderAt(j: Job, run: seq<State>, i: nat)
    requires j.n == 1 && IsRun(j, run) && i + 1 < |run| && Sizes(j, run[i]) && Sizes(j, run[i + 1])
    requires InOrder(j, run[i])
    ensures InOrder(j, run[i + 1])
  {
    assert StepsAt(j, run, i);
    InOrderStep(j, run[i], run[i + 1]);
  }

  lemma {:induction false} RunInOrder(j: Job, run: seq<State>, i: nat)
    requires j.n == 1 && IsRun(j, run) && i < |run|
    ensures Sizes(j, run[i]) && InOrder(j, run[i])
    decreases i
  {
    SizesAt(j, run, i);
    if i == 0 {
      assert run[0] == Init(j);
    } else {
      var k := i - 1;
      RunInOrder(j, run, k);
      InOrderAt(j, run, k);
    }
  }

  function Reversed(xs: seq<Input>): (r: seq<Input>)
    ensures |r| == |xs| && forall k :: 0 <= k < |r| ==> r[k] == xs[|xs| - 1 - k]
  {
    seq(|xs|, k requires 0 <= k < |xs| => xs[|xs| - 1 - k])
  }

  lemma OneVector(vecs: seq<seq<Pair>>)
    requires |vecs| == 1
    ensures Concat(vecs) == vecs[0]
  {
    assert vecs[..0] == [];
    assert Concat(vecs) == [] + vecs[0];
  }

  /** With one thread the result is determined to the last detail: the inputs are mapped from the
      last to the first, the groups are reduced in key order, and the output vector holds what they
      emit, one group after the other. */
  lemma OneThreadIsSequential(j: Job, run: seq<State>)
    requires j.n == 1 && IsRun(j, run) && Final(run[|run| - 1])
    ensures run[|run| - 1].out == ReduceSeq(j, ShuffleAll(j.less, MapAll(j, Reversed(j.inputs))))
  {
    var s := run[|run| - 1];
    RunInv(j, run, |run| - 1);
    RunInOrder(j, run, |run| - 1);
    FinalData(j, s);
    OneThreadEnd(j, s);
  }

  lemma IsReversed(a: seq<Input>, xs: seq<Input>)
    requires |a| == |xs| && forall k :: 0 <= k < |a| ==> a[k] == xs[|xs| - 1 - k]
    ensures a == Reversed(xs)
  {
  }

  lemma OneThreadEnd(j: Job, s: State)
    requires |s.pcs| == |s.inter| == 1 && InOrder(j, s) && s.pcs[0] == Done
    requires |s.mapped| == |j.inputs| && forall k :: 0 <= k < |s.mapped| ==> s.mapped[k] == j.inputs[|j.inputs| - 1 - k]
    requires s.reduced == ShuffleAll(j.less, Concat(s.inter))
    ensures s.out == ReduceSeq(j, ShuffleAll(j.less, MapAll(j, Reversed(j.inputs))))
  {
    IsReversed(s.mapped, j.inputs);
    OneVector(s.inter);
    EmptySeq(s.inter[0]);
    EmptySeq(s.out);
  }
}
