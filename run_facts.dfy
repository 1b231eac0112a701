/** What a finished run of each engine reports, drawn from the trace facts:
    with no throwing action, it completes exactly when no spec asks for zero
    iterations, and it fails with the engine's own division error otherwise;
    its result map has one entry per subject, in registration order; and
    on a clock that never goes backwards, every `min` is 0. */
module RunFacts {
  import opened Model
  import opened LinkedMaps
  import opened Schedule
  import opened Measurement
  import opened TraceFacts
  import VarlanvEngine
  import ImplEngine

  lemma VarlanvCompletion(specs: seq<Spec>, clock: nat -> int, overhead: real,
                          out: Outcome<seq<(string, VarlanvEngine.Result)>>, trace: seq<Event>)
    requires VarlanvEngine.Ran(specs, clock, overhead, None, out, trace)
    ensures out.Done? <==> NoZeroCycles(specs)
    ensures out.Threw? ==> out.error == NumberFormat
  {
    CompletesIffNoZeroCycles(specs, clock, Varlanv);
  }

  lemma ImplCompletion(specs: seq<Spec>, clock: nat -> int,
                       out: Outcome<seq<(string, ImplEngine.Stats)>>, trace: seq<Event>)
    requires ImplEngine.Ran(specs, clock, None, out, trace)
    ensures out.Done? <==> NoZeroCycles(specs)
    ensures out.Threw? ==> out.error == Arithmetic
  {
    CompletesIffNoZeroCycles(specs, clock, Impl);
  }

  /** Every event a calibrated run performs, whether it completes or stops
      at a throw: every cleanup it invokes is the no-op, whatever was passed
      to `withCleanupFunction`, and it performs the whole warmup pass before
      any event of the timed pass. */
  lemma VarlanvPerformed(specs: seq<Spec>, clock: nat -> int, overhead: real, failAt: Option<nat>,
                         out: Outcome<seq<(string, VarlanvEngine.Result)>>, trace: seq<Event>)
    requires VarlanvEngine.Ran(specs, clock, overhead, failAt, out, trace)
    ensures All(trace, CleanupIsNoOp)
    ensures forall k :: 0 <= k < |trace| ==> (IsWarmup(trace[k]) <==> k < |Warmups(specs, Varlanv)|)
  {
    var full := Scheduled(specs, clock, Varlanv);
    OnlyNoOpCleanups(specs, clock, Varlanv);
    WarmupsFirst(specs, clock, Varlanv);
    forall k | 0 <= k < |trace| ensures trace[k] == full[k] { }
  }

  /** A completed calibrated run has invoked each runnable of each spec
      `warmupCycles` times in its warmup pass (action and cleanup once per
      cycle) and `iterationCycles` times in its timed pass, and has read the
      clock `2 * iterationCycles` times per spec, reading after reading. */
  lemma VarlanvCompletedRun(specs: seq<Spec>, clock: nat -> int, overhead: real, failAt: Option<nat>,
                            out: Outcome<seq<(string, VarlanvEngine.Result)>>, trace: seq<Event>)
    requires VarlanvEngine.Ran(specs, clock, overhead, failAt, out, trace)
    requires Distinct(Names(specs)) && out.Done?
    ensures forall i, role :: 0 <= i < |specs| ==>
      CallsOf(trace, specs[i].name, role, Warmup) == Times(specs[i].warmupCycles)
    ensures forall i, role :: 0 <= i < |specs| ==>
      CallsOf(trace, specs[i].name, role, Measure) == Times(specs[i].iterationCycles)
    ensures Readings(trace) == ClockFrom(clock, 0, 2 * TotalIterations(specs))
  {
    assert trace == Scheduled(specs, clock, Varlanv);
    forall i, role | 0 <= i < |specs|
      ensures CallsOf(trace, specs[i].name, role, Warmup) == Times(specs[i].warmupCycles)
      ensures CallsOf(trace, specs[i].name, role, Measure) == Times(specs[i].iterationCycles)
    {
      RunCounts(specs, i, clock, role, Varlanv);
    }
    ClockInOrder(specs, clock, Varlanv);
  }

  /** Every event a plain run performs, whether it completes or stops at a
      throw: every cleanup it invokes is the no-op, its warmup pass comes
      before any event of the timed pass, and in that warmup pass it invokes
      only actions. */
  lemma ImplPerformed(specs: seq<Spec>, clock: nat -> int, failAt: Option<nat>,
                      out: Outcome<seq<(string, ImplEngine.Stats)>>, trace: seq<Event>)
    requires ImplEngine.Ran(specs, clock, failAt, out, trace)
    ensures All(trace, CleanupIsNoOp)
    ensures forall k :: 0 <= k < |trace| ==> (IsWarmup(trace[k]) <==> k < |Warmups(specs, Impl)|)
    ensures forall k :: 0 <= k < |trace| && IsWarmup(trace[k]) ==> IsAction(trace[k])
  {
    var full := Scheduled(specs, clock, Impl);
    OnlyNoOpCleanups(specs, clock, Impl);
    WarmupsFirst(specs, clock, Impl);
    ImplWarmupsOnlyActions(specs);
    forall k | 0 <= k < |trace| ensures trace[k] == full[k] { }
    forall k | 0 <= k < |trace| && IsWarmup(trace[k]) ensures IsAction(trace[k]) {
      assert full[k] == Warmups(specs, Impl)[k];
    }
  }

  /** A completed plain run has invoked each action `warmupCycles` times and
      no cleanup in its warmup pass, each runnable `iterationCycles` times in
      its timed pass, and has read the clock `2 * iterationCycles` times per
      spec, reading after reading. */
  lemma ImplCompletedRun(specs: seq<Spec>, clock: nat -> int, failAt: Option<nat>,
                         out: Outcome<seq<(string, ImplEngine.Stats)>>, trace: seq<Event>)
    requires ImplEngine.Ran(specs, clock, failAt, out, trace)
    requires Distinct(Names(specs)) && out.Done?
    ensures forall i :: 0 <= i < |specs| ==>
      CallsOf(trace, specs[i].name, ActionRole, Warmup) == Times(specs[i].warmupCycles)
    ensures forall i :: 0 <= i < |specs| ==> CallsOf(trace, specs[i].name, CleanupRole, Warmup) == 0
    ensures forall i, role :: 0 <= i < |specs| ==>
      CallsOf(trace, specs[i].name, role, Measure) == Times(specs[i].iterationCycles)
    ensures Readings(trace) == ClockFrom(clock, 0, 2 * TotalIterations(specs))
  {
    assert trace == Scheduled(specs, clock, Impl);
    forall i | 0 <= i < |specs|
      ensures CallsOf(trace, specs[i].name, ActionRole, Warmup) == Times(specs[i].warmupCycles)
      ensures CallsOf(trace, specs[i].name, CleanupRole, Warmup) == 0
    {
      RunCounts(specs, i, clock, ActionRole, Impl);
      RunCounts(specs, i, clock, CleanupRole, Impl);
    }
    forall i, role | 0 <= i < |specs|
      ensures CallsOf(trace, specs[i].name, role, Measure) == Times(specs[i].iterationCycles)
    {
      RunCounts(specs, i, clock, role, Impl);
    }
    ClockInOrder(specs, clock, Impl);
  }

  /** The keys of the calibrated engine's result map are the subject names. */
  lemma VarlanvKeys(specs: seq<Spec>, clock: nat -> int, overhead: real)
    requires NoZeroCycles(specs)
    ensures KeysOf(VarlanvEngine.Results(specs, clock, overhead)) == Names(specs)
  {
    forall i | 0 <= i < |specs|
      ensures KeysOf(VarlanvEngine.Results(specs, clock, overhead))[i] == Names(specs)[i]
    {
      VarlanvEngine.ResultsAt(specs, clock, overhead, i);
    }
  }

  /** The keys of the plain engine's result map are the subject names. */
  lemma ImplKeys(specs: seq<Spec>, clock: nat -> int)
    requires NoZeroCycles(specs)
    ensures KeysOf(ImplEngine.StatsList(specs, clock)) == Names(specs)
  {
    forall i | 0 <= i < |specs|
      ensures KeysOf(ImplEngine.StatsList(specs, clock))[i] == Names(specs)[i]
    {
      ImplEngine.StatsListAt(specs, clock, i);
    }
  }

  /** Both engines start `min` at 0 and only lower it, so on a clock that
      never goes backwards every reported `min` is 0. */
  lemma VarlanvMinIsZero(specs: seq<Spec>, clock: nat -> int, overhead: real, i: nat)
    requires NoZeroCycles(specs) && i < |specs|
    requires forall k: nat :: clock(k) <= clock(k + 1)
    ensures VarlanvEngine.Results(specs, clock, overhead)[i].1.min == 0
  {
    VarlanvEngine.ResultsAt(specs, clock, overhead, i);
    MinIsZeroOnMonotoneClock(clock, FirstReading(specs, i), Times(specs[i].iterationCycles));
  }

  lemma ImplMinIsZero(specs: seq<Spec>, clock: nat -> int, i: nat)
    requires NoZeroCycles(specs) && i < |specs|
    requires forall k: nat :: clock(k) <= clock(k + 1)
    ensures ImplEngine.StatsList(specs, clock)[i].1.min == 0
  {
    ImplEngine.StatsListAt(specs, clock, i);
    MinIsZeroOnMonotoneClock(clock, FirstReading(specs, i), Times(specs[i].iterationCycles));
  }
}
