/** The framework's objects: the barrier and the job environment, changed in place. Each method is
    one atomic step of one thread and is proved against the step machine; RunJob drives all threads
    by an arbitrary scheduler to the end of the job. */
module MapReduceJob {
  import opened Shuffle
  import opened MapReduce
  import opened MapReduceData
  import opened MapReduceTheorems
  import Barrier

  class BarrierObject {
    var count: nat
    var mutex: Barrier.Option<nat>
    const members: array<Barrier.Member>
    ghost var round: nat

    ghost function Abs(): Barrier.State
      reads this, members
    {
      Barrier.State(count, mutex, members[..], round)
    }

    constructor (n: nat)
      ensures Abs() == Barrier.Init(n) && members.Length == n && fresh(members)
    {
      count, mutex, round := 0, Barrier.None, 0;
      members := new Barrier.Member[n](_ => Barrier.Member(Barrier.Outside, 0));
      new;
      assert members[..] == Barrier.Init(n).members;
    }

    /** pthread_cond_broadcast */
    method BroadcastAll()
      modifies members
      ensures members[..] == Barrier.Broadcast(old(members[..]))
    {
      for i := 0 to members.Length
        invariant forall k :: 0 <= k < i ==> members[k] == Barrier.Wake(old(members[k]))
        invariant forall k :: i <= k < members.Length ==> members[k] == old(members[k])
      {
        members[i] := Barrier.Wake(members[i]);
      }
    }

    method Goto(t: nat, phase: Barrier.Phase)
      requires t < members.Length
      modifies members
      ensures members[..] == old(members[..])[t := old(members[t]).(phase := phase)]
    {
      members[t] := members[t].(phase := phase);
    }

    method IsBlocked(t: nat) returns (b: bool)
      requires t < members.Length
      ensures b == Barrier.Blocked(Abs(), t)
    {
      match members[t].phase
      case AtLock => b := mutex.Some?;
      case Woken => b := mutex.Some?;
      case Waiting => b := true;
      case _ => b := false;
    }

    /** The next step of thread t inside barrier(). */
    method Advance(t: nat)
      requires t < members.Length && !Barrier.Blocked(Abs(), t)
      modifies this, members
      ensures Abs() == Barrier.Next(old(Abs()), t)
    {
      match members[t].phase
      case Outside =>
        Goto(t, Barrier.AtLock);
      case AtLock =>
        mutex := Barrier.Some(t);
        Goto(t, Barrier.Holding);
      case Holding =>
        count := count + 1;
        if count < members.Length {
          mutex := Barrier.None;
          Goto(t, Barrier.Waiting);
        } else {
          count := 0;
          round := round + 1;
          BroadcastAll();
          Goto(t, Barrier.Unlocking);
        }
      case Woken =>
        mutex := Barrier.Some(t);
        Goto(t, Barrier.Unlocking);
      case Unlocking =>
        mutex := Barrier.None;
        members[t] := Barrier.Member(Barrier.Outside, members[t].left + 1);
      case Waiting =>
    }
  }

  lemma ShareLeft(a: nat, n: nat)
    requires 0 < n
    ensures 100.0 * (1.0 - a as real / n as real) * n as real == 100.0 * (n - a) as real
  {
    var x := a as real / n as real;
    assert x * n as real == a as real;
    assert (1.0 - x) * n as real == n as real - a as real == (n - a) as real;
    assert 100.0 * (1.0 - x) * n as real == 100.0 * ((1.0 - x) * n as real);
  }

  class GlobalEnv {
    const j: Job
    var inputVec: seq<Input>
    var map_: seq<Group>
    var outputVec: seq<Out>
    var stage: nat
    var size: nat
    var mutex: Barrier.Option<nat>
    const interVecs: array<seq<Pair>>
    const pcs: array<Pc>
    const barrier: BarrierObject
    /** what has been handed to the client so far */
    ghost var mapped: seq<Input>
    ghost var reduced: seq<Group>

    ghost predicate Valid()
      reads this, interVecs, pcs
    {
      && interVecs.Length == pcs.Length == barrier.members.Length == j.n
      && StrictWeak(j.less)
    }

    ghost function Abs(): State
      reads this, interVecs, pcs, barrier, barrier.members
    {
      State(inputVec, mapped, interVecs[..], map_, reduced, outputVec, stage, size, mutex, barrier.Abs(), pcs[..])
    }

    constructor (j: Job)
      requires StrictWeak(j.less)
      ensures Valid() && this.j == j && Abs() == Init(j)
      ensures fresh(interVecs) && fresh(pcs) && fresh(barrier) && fresh(barrier.members)
    {
      this.j := j;
      inputVec, map_, outputVec := j.inputs, [], [];
      stage, size, mutex := UNDEFINED_STAGE, |j.inputs|, Barrier.None;
      interVecs := new seq<Pair>[j.n](_ => []);
      pcs := new Pc[j.n](_ => Start);
      barrier := new BarrierObject(j.n);
      mapped, reduced := [], [];
      new;
      assert interVecs[..] == Init(j).inter;
      assert pcs[..] == Init(j).pcs;
    }

    method GotoPc(t: nat, pc: Pc)
      requires Valid() && t < j.n
      modifies pcs
      ensures Abs() == Goto(old(Abs()), t, pc)
    {
      pcs[t] := pc;
    }

    /** The test of the map loop, under the lock, and the pop. */
    method PopInput(t: nat)
      requires Valid() && t < j.n && pcs[t] == MapHold
      modifies this`mutex, this`inputVec, this`mapped, pcs
      ensures Abs() == Next(j, old(Abs()), t)
    {
      mutex := Barrier.None;
      if inputVec == [] {
        GotoPc(t, Barrier1);
      } else {
        var input := inputVec[|inputVec| - 1];
        inputVec := inputVec[..|inputVec| - 1];
        mapped := mapped + [input];
        GotoPc(t, Mapping(j.mapf(input)));
      }
    }

    /** emit2 for the first pair that the client's map still has to emit, or the return of map. */
    method Emit2(t: nat)
      requires Valid() && t < j.n && pcs[t].Mapping?
      modifies interVecs, pcs
      ensures Abs() == Next(j, old(Abs()), t)
    {
      var todo := pcs[t].todo;
      if todo == [] {
        GotoPc(t, MapLock);
      } else {
        interVecs[t] := interVecs[t] + [todo[0]];
        GotoPc(t, Mapping(todo[1..]));
      }
    }

    method RunShuffle(t: nat)
      requires Valid() && t < j.n && pcs[t] == DoShuffle
      modifies this`map_, this`size, pcs
      ensures Abs() == Next(j, old(Abs()), t)
    {
      map_, size := Shuffle.Shuffle(j.less, interVecs[..]);
      GotoPc(t, Barrier2);
    }

    /** The test of the reduce loop, under the lock, and the erasure of the first group. */
    method PopGroup(t: nat)
      requires Valid() && t < j.n && pcs[t] == RedHold
      modifies this`mutex, this`map_, this`reduced, pcs
      ensures Abs() == Next(j, old(Abs()), t)
    {
      mutex := Barrier.None;
      if map_ == [] {
        GotoPc(t, Done);
      } else {
        var group := map_[0];
        map_ := map_[1..];
        reduced := reduced + [group];
        GotoPc(t, Reducing(j.reducef(group.pairs)));
      }
    }

    method Emit3(t: nat)
      requires Valid() && t < j.n && pcs[t].Reducing?
      modifies this`outputVec, pcs
      ensures Abs() == Next(j, old(Abs()), t)
    {
      var outs := pcs[t].outs;
      if outs == [] {
        GotoPc(t, RedLock);
      } else {
        outputVec := outputVec + [outs[0]];
        GotoPc(t, Reducing(outs[1..]));
      }
    }

    /** A step inside the k-th call of barrier(); when the call returns, the thread goes on. */
    method InBarrier(t: nat, k: nat, next: Pc)
      requires Valid() && t < j.n && !Barrier.Blocked(barrier.Abs(), t)
      modifies barrier, barrier.members, pcs
      ensures Abs() == BarrierStep(j, old(Abs()), t, k, next)
    {
      barrier.Advance(t);
      if barrier.members[t].left == k { GotoPc(t, next); }
    }

    method Lock(t: nat, pc: Pc)
      requires Valid() && t < j.n
      modifies this`mutex, pcs
      ensures Abs() == Goto(old(Abs()).(mutex := Barrier.Some(t)), t, pc)
    {
      mutex := Barrier.Some(t);
      GotoPc(t, pc);
    }

    method SetStage(t: nat, stage: nat, pc: Pc)
      requires Valid() && t < j.n
      modifies this`stage, pcs
      ensures Abs() == Goto(old(Abs()).(stage := stage), t, pc)
    {
      this.stage := stage;
      GotoPc(t, pc);
    }

    /** The next step of thread t in map_reduce_call. */
    method Advance(t: nat)
      requires Valid() && t < j.n && !Blocked(j, Abs(), t)
      modifies this, interVecs, pcs, barrier, barrier.members
      ensures Valid() && Abs() == Next(j, old(Abs()), t)
    {
      match pcs[t]
      case Start => SetStage(t, MAP_STAGE, MapLock);
      case MapLock => Lock(t, MapHold);
      case MapHold => PopInput(t);
      case Mapping(_) => Emit2(t);
      case Barrier1 => InBarrier(t, 1, SetShuffle);
      case SetShuffle => SetStage(t, SHUFFLE_STAGE, if t == 0 then DoShuffle else Barrier2);
      case DoShuffle => RunShuffle(t);
      case Barrier2 => InBarrier(t, 2, SetReduce);
      case SetReduce => SetStage(t, REDUCE_STAGE, RedLock);
      case RedLock => Lock(t, RedHold);
      case RedHold => PopGroup(t);
      case Reducing(_) => Emit3(t);
      case Done =>
    }

    // ---------- Seen from outside ----------

    /** getJobState up to its switch: the stage is read, then the counters of that stage. None when
        the divisor is zero. The caller holds the mutex, so no thread does. */
    method ReadPercentage() returns (percentage: Barrier.Option<real>)
      requires Valid() && mutex == Barrier.None
      ensures percentage.None? <==> size == 0 && (stage == MAP_STAGE || stage == REDUCE_STAGE)
      ensures 0 < size ==> percentage == Barrier.Some(Percentage(Abs()))
      ensures stage == MAP_STAGE && 0 < size ==>
                percentage.value * size as real == 100.0 * (size - |inputVec|) as real
      ensures stage == REDUCE_STAGE && 0 < size ==>
                percentage.value * size as real == 100.0 * (size - |map_|) as real
      ensures stage == UNDEFINED_STAGE ==> percentage == Barrier.Some(100.0)
      ensures stage == SHUFFLE_STAGE ==> percentage == Barrier.Some(50.0)
    {
      var p := 0.0;
      match stage {
        case 1 =>
          if size == 0 { return Barrier.None; }
          p := |inputVec| as real / size as real;
        case 2 => p := 0.5;
        case 3 =>
          if size == 0 { return Barrier.None; }
          p := |map_| as real / size as real;
        case _ =>
      }
      percentage := Barrier.Some(100.0 * (1.0 - p));
      if 0 < size {
        ShareLeft(|inputVec|, size);
        ShareLeft(|map_|, size);
      }
    }

    /** The second read of the stage; other threads may have moved since the first. */
    method ReadStage() returns (stage: nat)
      requires Valid()
      ensures stage == Abs().stage
    {
      stage := this.stage;
    }

    method IsBlocked(t: nat) returns (b: bool)
      requires Valid() && t < j.n
      ensures b == Blocked(j, Abs(), t)
    {
      match pcs[t]
      case MapLock => b := mutex.Some?;
      case RedLock => b := mutex.Some?;
      case Barrier1 => b := barrier.IsBlocked(t);
      case Barrier2 => b := barrier.IsBlocked(t);
      case Done => b := true;
      case _ => b := false;
    }

    /** A thread that can move, the wanted one if it can. */
    method Choose(wanted: nat) returns (t: nat)
      requires Valid()
      ensures Chosen(j, Abs(), t)
      ensures wanted < j.n && !Blocked(j, Abs(), wanted) ==> t == wanted
    {
      t := 0;
      if wanted < j.n {
        var b := IsBlocked(wanted);
        if !b { return wanted; }
      }
      while t < j.n
        invariant t <= j.n && forall u: nat :: u < t ==> Blocked(j, Abs(), u)
      {
        var b := IsBlocked(t);
        if !b { return; }
        t := t + 1;
      }
    }

    /** A step of a thread that can move, and the choice of the next one. */
    method Turn(t: nat, wanted: nat, ghost a: nat, ghost b: nat) returns (next: nat, ghost a': nat, ghost b': nat)
      requires Valid() && t < j.n && Chosen(j, Abs(), t) && WorkLeft(j, Abs(), a, b)
      modifies this, interVecs, pcs, barrier, barrier.members
      ensures Valid() && Chosen(j, Abs(), next) && WorkLeft(j, Abs(), a', b')
      ensures a' < a || (a' == a && b' < b)
    {
      ghost var s := Abs();
      Advance(t);
      a', b' := WorkAfter(j, s, t, Abs(), a, b);
      next := Choose(wanted);
    }

    /** Threads take turns until nobody can move; the work left falls with every turn. */
    method RunAll(t: nat, k: nat, pick: nat -> nat, ghost a: nat, ghost b: nat)
      requires Valid() && Chosen(j, Abs(), t) && WorkLeft(j, Abs(), a, b)
      modifies this, interVecs, pcs, barrier, barrier.members
      ensures Valid() && Inv(j, Abs()) && Chosen(j, Abs(), j.n)
      decreases a, b
    {
      if t < j.n {
        var next, a', b' := Turn(t, pick(k), a, b);
        RunAll(next, k + 1, pick, a', b');
      }
    }
  }

  /** t can move, or t is the number of threads and nobody can. */
  ghost predicate Chosen(j: Job, s: State, t: nat)
    requires Sizes(j, s)
  {
    t <= j.n && (t < j.n ==> !Blocked(j, s, t)) && (t == j.n ==> forall u: nat :: u < j.n ==> Blocked(j, s, u))
  }

  /** A state of the machine and the work that is left in it. */
  ghost predicate WorkLeft(j: Job, s: State, a: nat, b: nat) {
    Inv(j, s) && a == MapWork(j, s) && b == ReduceWork(j, s)
  }

  lemma WorkAfter(j: Job, s: State, t: nat, s': State, a: nat, b: nat) returns (a': nat, b': nat)
    requires Step(j, s, t, s') && WorkLeft(j, s, a, b)
    ensures WorkLeft(j, s', a', b') && (a' < a || (a' == a && b' < b))
  {
    StepInv(j, s, t, s');
    WorkFalls(j, s, t, s');
    a', b' := MapWork(j, s'), ReduceWork(j, s');
  }

  /** The client's map got every input once, the last one first. */
  ghost predicate EachMappedOnce(j: Job, s: State) {
    |s.mapped| == |j.inputs| && forall k :: 0 <= k < |s.mapped| ==> s.mapped[k] == j.inputs[|j.inputs| - 1 - k]
  }

  /** When nobody can move, the job is finished and its results are the sequential ones. */
  lemma StuckIsFinished(j: Job, s: State)
    requires StrictWeak(j.less) && Inv(j, s) && Chosen(j, s, j.n)
    ensures Final(s) && SameGroups(j, s) && EachMappedOnce(j, s)
    ensures multiset(s.out) == ReduceAll(j, s.reduced)
    ensures OrderInsensitive(j) ==> multiset(s.out) == ReduceAll(j, ShuffleAll(j.less, MapAll(j, j.inputs)))
  {
    if !Final(s) {
      var t := NoDeadlock(j, s);
      assert false;
    }
    FinalData(j, s);
    FinalGroups(j, s);
    if OrderInsensitive(j) { FinalOutput(j, s); }
  }

  /** A whole job under any scheduler: the loop ends, every group of the sequential computation has
      been reduced once, and the output is theirs. `pick(k)` is the thread the scheduler wants in
      step k. */
  method RunJob(j: Job, pick: nat -> nat) returns (out: seq<Out>, ghost last: State)
    requires 0 < j.n && StrictWeak(j.less)
    ensures Final(last) && SameGroups(j, last) && EachMappedOnce(j, last)
    ensures out == last.out && multiset(out) == ReduceAll(j, last.reduced)
    ensures OrderInsensitive(j) ==> multiset(out) == ReduceAll(j, ShuffleAll(j.less, MapAll(j, j.inputs)))
  {
    var env := new GlobalEnv(j);
    InitInv(j);
    var t := env.Choose(pick(0));
    env.RunAll(t, 1, pick, MapWork(j, env.Abs()), ReduceWork(j, env.Abs()));
    out := env.outputVec;
    last := env.Abs();
    StuckIsFinished(j, last);
  }
}
