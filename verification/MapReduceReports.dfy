/** getJobState as it is written: it holds the mutex of the job, reads the stage, then the counters,
    then the stage again, and threads write the stage without that mutex. */
module MapReduceReports {
  import opened Shuffle
  import opened MapReduce
  import opened MapReduceData
  import opened MapReduceTheorems
  import Barrier

  datatype Report = Report(stage: nat, percentage: real)

  predicate Before(a: Report, b: Report) {
    a.stage < b.stage || (a.stage == b.stage && a.percentage <= b.percentage)
  }

  /** From run[i] to run[k] the mutex is the reporter's: no thread of the job has it. */
  ghost predicate Held(run: seq<State>, i: nat, k: nat) {
    i <= k < |run| && forall x | i <= x <= k :: run[x].mutex == Barrier.None
  }

  /** The stage is read in run[i], the counters in run[c], the stage again in run[k]. */
  function Reported(run: seq<State>, i: nat, c: nat, k: nat): Report
    requires i <= c <= k < |run| && 0 < run[c].size
  {
    Report(run[k].stage, PercentageIn(run[i].stage, run[c]))
  }

  // ---------- While the mutex is held ----------

  /** No input and no group is handed out; the divisor changes only in the shuffle. */
  lemma HeldStep(j: Job, s: State, t: nat, s': State)
    requires Inv(j, s) && Step(j, s, t, s') && s.mutex == Barrier.None && s'.mutex == Barrier.None
    ensures s'.inputs == s.inputs && s'.reduced == s.reduced
    ensures s.pcs[t] != DoShuffle ==> s'.map_ == s.map_ && s'.size == s.size
  {
    MapEffect(j, s, t);
    ReduceEffect(j, s, t);
    assert !HoldsMutex(s.pcs[t]);
    assert !Pops(s, t) && !Takes(s, t);
  }

  lemma DrainedAt(s: State, t: nat)
    requires Drained(s) && t < |s.pcs| && Pos(s.pcs[t]) >= 2
    ensures s.inputs == []
  {
  }

  lemma ShufflingIsDrained(j: Job, s: State, t: nat)
    requires Control(j, s) && StageOk(s) && Drained(s) && t < j.n && s.pcs[t] == DoShuffle
    ensures s.stage == SHUFFLE_STAGE && s.inputs == []
  {
    ShufflingStage(j, s, t);
    DrainedAt(s, t);
  }

  /** The same, without saying which thread moves. */
  lemma HeldMove(j: Job, s: State, s': State)
    requires Inv(j, s) && SomeStep(j, s, s') && s.mutex == Barrier.None && s'.mutex == Barrier.None
    ensures s'.inputs == s.inputs && s'.reduced == s.reduced
    ensures (s'.map_ == s.map_ && s'.size == s.size) || (s.inputs == [] && s.stage == SHUFFLE_STAGE)
  {
    var t: nat :| t < j.n && Step(j, s, t, s');
    HeldStep(j, s, t, s');
    if s.pcs[t] == DoShuffle { ShufflingIsDrained(j, s, t); }
  }

  /** Past the map stage every thread has left the map loop. */
  lemma LateIsDrained(j: Job, s: State)
    requires Inv(j, s) && s.stage >= SHUFFLE_STAGE
    ensures s.inputs == []
  {
    Separated(j, s, 0, 0);
    DrainedAt(s, 0);
  }

  lemma SamePercentage(s: State, s': State, a: nat)
    requires s'.inputs == s.inputs && 0 < s.size && 0 < s'.size
    requires (s'.map_ == s.map_ && s'.size == s.size) || (s.inputs == [] && a <= SHUFFLE_STAGE)
    ensures PercentageIn(a, s') == PercentageIn(a, s)
  {
    ZeroOver(s.size);
    ZeroOver(s'.size);
  }

  /** Stage a was read earlier: whatever a thread does, the percentage for it stays. */
  lemma HeldPercentage(j: Job, s: State, s': State, a: nat)
    requires Inv(j, s) && SomeStep(j, s, s') && s.mutex == Barrier.None && s'.mutex == Barrier.None
    requires a <= s.stage && 0 < s.size && 0 < s'.size
    ensures PercentageIn(a, s') == PercentageIn(a, s)
  {
    HeldMove(j, s, s');
    SamePercentage(s, s', a);
  }

  lemma ZeroOver(n: nat)
    requires 0 < n
    ensures 0 as real / n as real == 0.0
  {
  }

  lemma StageAt(j: Job, run: seq<State>, i: nat)
    requires 0 < j.n && IsRun(j, run) && i + 1 < |run|
    ensures run[i].stage <= run[i + 1].stage
  {
    RunInv(j, run, i);
    assert StepsAt(j, run, i);
    SomeStepInv(j, run[i], run[i + 1]);
  }

  lemma {:induction false} StagesRise(j: Job, run: seq<State>, i: nat, k: nat)
    requires 0 < j.n && IsRun(j, run) && i <= k < |run|
    ensures run[i].stage <= run[k].stage
    decreases k
  {
    if i < k {
      StagesRise(j, run, i, k - 1);
      StageAt(j, run, k - 1);
    }
  }

  lemma HeldPercentageAt(j: Job, run: seq<State>, i: nat, a: nat)
    requires Reports(j) && IsRun(j, run) && i + 1 < |run| && a <= run[i].stage
    requires run[i].mutex == Barrier.None && run[i + 1].mutex == Barrier.None
    ensures 0 < run[i].size && 0 < run[i + 1].size
    ensures PercentageIn(a, run[i + 1]) == PercentageIn(a, run[i])
  {
    RunPercentage(j, run, i);
    RunPercentage(j, run, i + 1);
    RunInv(j, run, i);
    assert StepsAt(j, run, i);
    HeldPercentage(j, run[i], run[i + 1], a);
  }

  /** It does not matter when the counters are read: a report has the percentage of its first read. */
  lemma {:induction false} HeldCounters(j: Job, run: seq<State>, i: nat, c: nat, k: nat)
    requires Reports(j) && IsRun(j, run) && Held(run, i, k) && i <= c <= k
    ensures 0 < run[i].size && 0 < run[c].size
    ensures PercentageIn(run[i].stage, run[c]) == Percentage(run[i])
    decreases c
  {
    RunPercentage(j, run, c);
    if i < c {
      HeldCounters(j, run, i, c - 1, k);
      StagesRise(j, run, i, c - 1);
      HeldPercentageAt(j, run, c - 1, run[i].stage);
    }
  }

  lemma HeldDataAt(j: Job, run: seq<State>, i: nat)
    requires 0 < j.n && IsRun(j, run) && i + 1 < |run|
    requires run[i].mutex == Barrier.None && run[i + 1].mutex == Barrier.None
    ensures run[i + 1].inputs == run[i].inputs && run[i + 1].reduced == run[i].reduced
  {
    RunInv(j, run, i);
    assert StepsAt(j, run, i);
    HeldMove(j, run[i], run[i + 1]);
  }

  lemma {:induction false} HeldData(j: Job, run: seq<State>, i: nat, k: nat)
    requires 0 < j.n && IsRun(j, run) && Held(run, i, k)
    ensures run[k].inputs == run[i].inputs && run[k].reduced == run[i].reduced
    decreases k
  {
    if i < k {
      HeldData(j, run, i, k - 1);
      HeldDataAt(j, run, k - 1);
    }
  }

  /** The percentage of a report: the share of the inputs that had been handed out when it began in
      the map stage, and of the groups when it began in the reduce stage. */
  lemma ReportExactly(j: Job, run: seq<State>, i: nat, c: nat, k: nat)
    requires Reports(j) && IsRun(j, run) && Held(run, i, k) && i <= c <= k
    ensures 0 < run[c].size
    ensures PercentageIs(Reported(run, i, c, k).percentage, run[i])
  {
    HeldCounters(j, run, i, c, k);
    PercentageAt(j, run, i);
  }

  lemma PercentageAt(j: Job, run: seq<State>, i: nat)
    requires Reports(j) && IsRun(j, run) && i < |run|
    ensures 0 < run[i].size && PercentageIs(Percentage(run[i]), run[i])
  {
    RunPercentage(j, run, i);
    RunInv(j, run, i);
    PercentageExactly(j, run[i]);
  }

  // ---------- What each stage says about the data ----------

  lemma FirstStep(j: Job, s': State)
    requires 0 < j.n && SomeStep(j, Init(j), s')
    ensures s'.stage == MAP_STAGE
  {
    var t: nat :| t < j.n && Step(j, Init(j), t, s');
    assert Init(j).pcs[t] == Start;
  }

  /** Only the initial state is in no stage. */
  lemma UndefinedIsInitial(j: Job, run: seq<State>, i: nat)
    requires 0 < j.n && IsRun(j, run) && i < |run|
    ensures run[i].stage == UNDEFINED_STAGE <==> i == 0
  {
    if i > 0 {
      assert StepsAt(j, run, 0);
      FirstStep(j, run[1]);
      StagesRise(j, run, 1, i);
    }
  }

  lemma TakesLate(s: State, t: nat)
    requires StageOk(s) && t < |s.pcs| && Takes(s, t)
    ensures s.stage == REDUCE_STAGE
  {
    assert Pos(s.pcs[t]) == 7;
  }

  lemma ReducedStep(j: Job, s: State, s': State)
    requires Inv(j, s) && SomeStep(j, s, s') && s.stage < REDUCE_STAGE
    ensures s'.reduced == s.reduced
  {
    var t: nat :| t < j.n && Step(j, s, t, s');
    ReduceEffect(j, s, t);
    if Takes(s, t) { TakesLate(s, t); }
  }

  lemma ReducedAt(j: Job, run: seq<State>, i: nat)
    requires 0 < j.n && IsRun(j, run) && i + 1 < |run|
    ensures run[i].stage < REDUCE_STAGE ==> run[i + 1].reduced == run[i].reduced
  {
    RunInv(j, run, i);
    assert StepsAt(j, run, i);
    if run[i].stage < REDUCE_STAGE { ReducedStep(j, run[i], run[i + 1]); }
  }

  /** No group is handed out before the reduce stage. */
  lemma {:induction false} NothingReducedYet(j: Job, run: seq<State>, i: nat)
    requires 0 < j.n && IsRun(j, run) && i < |run|
    ensures run[i].stage < REDUCE_STAGE ==> run[i].reduced == []
    decreases i
  {
    if i > 0 {
      NothingReducedYet(j, run, i - 1);
      StageAt(j, run, i - 1);
      ReducedAt(j, run, i - 1);
    }
  }

  lemma ReducingSize(j: Job, s: State)
    requires Inv(j, s) && s.stage == REDUCE_STAGE
    ensures s.size == |s.reduced| + |s.map_|
  {
    Separated(j, s, 0, 0);
  }

  // ---------- A report that spans a stage write ----------

  /** Its percentage is that of a finished map stage, or of the shuffle. */
  lemma TornPercentage(j: Job, run: seq<State>, i: nat, k: nat)
    requires Reports(j) && IsRun(j, run) && Held(run, i, k) && run[i].stage < run[k].stage
    ensures 0 < run[i].size
    ensures Percentage(run[i]) == if run[i].stage == SHUFFLE_STAGE then 50.0 else 100.0
    ensures run[i].stage == UNDEFINED_STAGE ==> run[k].stage == MAP_STAGE && run[k].inputs == j.inputs
  {
    RunPercentage(j, run, i);
    RunInv(j, run, k);
    HeldData(j, run, i, k);
    if run[k].stage >= SHUFFLE_STAGE { LateIsDrained(j, run[k]); }
    UndefinedIsInitial(j, run, i);
    if run[i].stage == MAP_STAGE { ZeroOver(run[i].size); }
  }

  /** Where the run stands when it ends: at the beginning of the stage that is reported. */
  lemma FreshStage(j: Job, run: seq<State>, i: nat, k: nat)
    requires Reports(j) && IsRun(j, run) && Held(run, i, k) && run[i].stage < run[k].stage
    ensures 0 < run[k].size
    ensures run[k].stage == MAP_STAGE ==> run[k].inputs == j.inputs
    ensures run[k].stage == REDUCE_STAGE ==> |run[k].map_| == run[k].size
  {
    RunPercentage(j, run, k);
    RunInv(j, run, k);
    TornPercentage(j, run, i, k);
    HeldData(j, run, i, k);
    if run[k].stage == REDUCE_STAGE {
      NothingReducedYet(j, run, i);
      ReducingSize(j, run[k]);
    }
  }

  lemma FullFraction(n: nat)
    requires 0 < n
    ensures n as real / n as real == 1.0
  {
  }

  lemma PositiveFraction(a: nat, n: nat)
    requires 0 < a && 0 < n
    ensures 0.0 < a as real / n as real
  {
  }

  /** At the beginning of a stage less is reported than at the end of any stage before it. */
  lemma BeginningPercentage(s: State)
    requires 0 < s.size && MAP_STAGE <= s.stage <= REDUCE_STAGE
    ensures s.stage == MAP_STAGE && s.inputs != [] ==> Percentage(s) < 100.0
    ensures s.stage == SHUFFLE_STAGE ==> Percentage(s) == 50.0
    ensures s.stage == REDUCE_STAGE && |s.map_| == s.size ==> Percentage(s) == 0.0
  {
    FullFraction(s.size);
    if s.inputs != [] { PositiveFraction(|s.inputs|, s.size); }
  }

  /** A report is in order with the next one exactly when no thread wrote a new stage between its
      two reads of the stage. */
  lemma ReportInOrderIff(j: Job, run: seq<State>, i: nat, c: nat, k: nat)
    requires Reports(j) && IsRun(j, run) && Held(run, i, k) && i <= c <= k
    ensures 0 < run[c].size && 0 < run[k].size
    ensures Before(Reported(run, i, c, k), Reported(run, k, k, k)) <==> run[i].stage == run[k].stage
  {
    HeldCounters(j, run, i, c, k);
    HeldCounters(j, run, i, k, k);
    StagesRise(j, run, i, k);
    if run[i].stage < run[k].stage {
      RunInv(j, run, k);
      TornPercentage(j, run, i, k);
      FreshStage(j, run, i, k);
      BeginningPercentage(run[k]);
    }
  }

  /** The stage has gone so far since its beginning that it makes up for a report that began in
      stage a. */
  predicate CaughtUp(a: nat, s: State) {
    if s.stage == MAP_STAGE then s.inputs == []
    else if s.stage == REDUCE_STAGE then (if a == SHUFFLE_STAGE then 2 * |s.map_| <= s.size else s.map_ == [])
    else false
  }

  lemma FractionIsZero(a: nat, n: nat)
    requires 0 < n
    ensures a as real / n as real <= 0.0 <==> a == 0
  {
    if 0 < a { PositiveFraction(a, n); }
  }

  lemma FractionIsHalf(a: nat, n: nat)
    requires 0 < n
    ensures a as real / n as real <= 0.5 <==> 2 * a <= n
  {
    var x := a as real / n as real;
    assert x * n as real == a as real;
    assert (2 * a) as real == 2.0 * a as real;
    if x <= 0.5 {
      assert x * n as real <= 0.5 * n as real;
    } else {
      assert x * n as real > 0.5 * n as real;
    }
  }

  lemma CaughtUpIff(a: nat, s: State)
    requires 0 < s.size && a < s.stage <= REDUCE_STAGE
    ensures (if a == SHUFFLE_STAGE then 50.0 else 100.0) <= Percentage(s) <==> CaughtUp(a, s)
  {
    FractionIsZero(|s.inputs|, s.size);
    FractionIsZero(|s.map_|, s.size);
    FractionIsHalf(|s.map_|, s.size);
  }

  /** When two reports are in order: the second shows a later stage, or no stage was written during
      the first, or the second comes late enough in its stage. */
  lemma ReportsInOrderIff(j: Job, run: seq<State>, i: nat, c: nat, k: nat, i': nat, c': nat, k': nat)
    requires Reports(j) && IsRun(j, run) && Held(run, i, k) && Held(run, i', k') && k <= i'
    requires i <= c <= k && i' <= c' <= k'
    ensures 0 < run[c].size && 0 < run[c'].size
    ensures Before(Reported(run, i, c, k), Reported(run, i', c', k')) <==>
            run[k].stage < run[k'].stage || run[i].stage == run[k].stage || CaughtUp(run[i].stage, run[i'])
  {
    HeldCounters(j, run, i, c, k);
    HeldCounters(j, run, i', c', k');
    StagesRise(j, run, i, k);
    StagesRise(j, run, k, i');
    StagesRise(j, run, i', k');
    if run[k].stage == run[k'].stage {
      if run[i].stage == run[k].stage {
        ProgressNeverGoesBack(j, run, i, i');
      } else {
        RunInv(j, run, i');
        TornPercentage(j, run, i, k);
        CaughtUpIff(run[i].stage, run[i']);
      }
    }
  }

  // ---------- Reports that go back ----------

  /** Every job has a run in which reported progress goes back: a report that begins before the
      first step and ends after it says that the map stage is complete, the next one that it is not
      begun. */
  lemma FirstReportGoesBack(j: Job)
    requires Reports(j)
    ensures Sizes(j, Init(j)) && !Blocked(j, Init(j), 0)
    ensures var run := [Init(j), Next(j, Init(j), 0)];
      && IsRun(j, run) && Held(run, 0, 1) && 0 < run[0].size && 0 < run[1].size
      && Reported(run, 0, 0, 1) == Report(MAP_STAGE, 100.0)
      && Reported(run, 1, 1, 1) == Report(MAP_STAGE, 0.0)
  {
    var run := [Init(j), Next(j, Init(j), 0)];
    assert Step(j, run[0], 0, run[1]);
    assert StepsAt(j, run, 0);
    assert IsRun(j, run);
    FullFraction(|j.inputs|);
  }

  /** With one thread the mutex is free at every stage write, so a report that spans one goes back:
      also when the thread has shuffled and starts to reduce. */
  lemma OneThreadGoesBack(j: Job, run: seq<State>, i: nat)
    requires Reports(j) && j.n == 1 && IsRun(j, run) && i + 1 < |run| && run[i].stage != run[i + 1].stage
    ensures Held(run, i, i + 1) && 0 < run[i].size && 0 < run[i + 1].size
    ensures !Before(Reported(run, i, i, i + 1), Reported(run, i + 1, i + 1, i + 1))
  {
    OneThreadAt(j, run, i);
    ReportInOrderIff(j, run, i, i, i + 1);
  }

  lemma OneThreadAt(j: Job, run: seq<State>, i: nat)
    requires IsRun(j, run) && i + 1 < |run| && j.n == 1 && run[i].stage != run[i + 1].stage
    ensures run[i].mutex == Barrier.None && run[i + 1].mutex == Barrier.None
  {
    RunInv(j, run, i);
    assert StepsAt(j, run, i);
    OneThreadMutex(j, run[i], run[i + 1]);
  }

  lemma OneThreadMutex(j: Job, s: State, s': State)
    requires Inv(j, s) && j.n == 1 && SomeStep(j, s, s') && s.stage != s'.stage
    ensures s.mutex == Barrier.None && s'.mutex == Barrier.None
  {
    var t: nat :| t < j.n && Step(j, s, t, s');
    StageWriteFree(j, s, t, s');
  }

  lemma StageWriteFree(j: Job, s: State, t: nat, s': State)
    requires Control(j, s) && j.n == 1 && Step(j, s, t, s') && s.stage != s'.stage
    ensures s.mutex == Barrier.None && s'.mutex == Barrier.None
  {
    StageEffect(j, s, t);
    assert t == 0 && !HoldsMutex(s.pcs[0]);
  }
}
