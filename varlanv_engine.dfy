/** `BenchWithManySubjects.run` and `BenchWithOneSubject.run` of
    `com.varlanv.bench.Bench`: both passes run the cleanup after the action,
    and each average has the calibrated timer overhead taken off. */
module VarlanvEngine {
  import opened Model
  import opened LinkedMaps
  import opened Registry
  import opened Schedule
  import opened Measurement

  /** The average of a `Result` before its HALF_UP rounding to two decimals,
      `average / iterationCycles - averageNanoTime`, kept as the duration
      sum, the divisor and the overhead it is computed from; `Value()` is
      its exact value. */
  datatype Mean = Mean(sum: int, cycles: int, overhead: real)
  {
    function Value(): real
      requires cycles != 0
    {
      sum as real / cycles as real - overhead
    }
  }

  /** `Result`: the average, and the minimum and maximum duration. */
  datatype Result = Result(average: Mean, min: int, max: int)

  /** The result of a spec whose timed loop reads the clock from reading
      number `t0` on, with `overhead` the calibrated cost of one clock read. */
  function ResultOf(s: Spec, clock: nat -> int, t0: nat, overhead: real): Result
    requires s.iterationCycles != 0
  {
    var n := Times(s.iterationCycles);
    Result(Mean(Total(clock, t0, n), s.iterationCycles, overhead), Least(clock, t0, n), Greatest(clock, t0, n))
  }

  /** `average` is the duration sum over `iterationCycles` less the overhead;
      `min` and `max` bound every duration, and 0, and each is 0 or one of
      the durations; with at least one iteration, the average plus the
      overhead lies between them. */
  lemma ResultBounds(s: Spec, clock: nat -> int, t0: nat, overhead: real)
    requires s.iterationCycles != 0
    ensures var r, n := ResultOf(s, clock, t0, overhead), Times(s.iterationCycles);
      && r.average.Value() + overhead == Total(clock, t0, n) as real / (s.iterationCycles as real)
      && r.min <= 0 <= r.max
      && (forall j :: 0 <= j < n ==> r.min <= Duration(clock, t0, j) <= r.max)
      && (r.min == 0 || exists j :: 0 <= j < n && r.min == Duration(clock, t0, j))
      && (r.max == 0 || exists j :: 0 <= j < n && r.max == Duration(clock, t0, j))
      && (s.iterationCycles > 0 ==> r.min as real <= r.average.Value() + overhead <= r.max as real)
  {
    var n := Times(s.iterationCycles);
    LeastIsLeast(clock, t0, n);
    GreatestIsGreatest(clock, t0, n);
    if s.iterationCycles > 0 {
      TotalBounds(clock, t0, n);
      Between(n, Least(clock, t0, n), Total(clock, t0, n), Greatest(clock, t0, n));
    }
  }

  /** From `n * lo <= s <= n * hi` with `n > 0`: `lo <= s / n <= hi` over the reals. */
  lemma Between(n: int, lo: int, s: int, hi: int)
    requires n > 0 && n * lo <= s <= n * hi
    ensures lo as real <= (s as real) / (n as real) <= hi as real
  {
    var q := (s as real) / (n as real);
    DivMul(s as real, n as real);
    CastMul(n, lo);
    CastMul(n, hi);
    PosDiv(n as real, lo as real, q);
    PosDiv(n as real, q, hi as real);
  }

  lemma DivMul(s: real, n: real)
    requires n != 0.0
    ensures (s / n) * n == s
  {
  }

  lemma CastMul(a: int, b: int)
    ensures (a * b) as real == (a as real) * (b as real)
  {
  }

  lemma PosDiv(n: real, x: real, y: real)
    requires n > 0.0 && n * x <= n * y
    ensures x <= y
  {
  }

  /** The result map of a run that completes: one entry per spec, keyed by
      its name, in registration order. */
  function Results(specs: seq<Spec>, clock: nat -> int, overhead: real): (rs: seq<(string, Result)>)
    requires NoZeroCycles(specs)
    ensures |rs| == |specs|
  {
    if specs == [] then []
    else
      var init, s := specs[..|specs| - 1], specs[|specs| - 1];
      Results(init, clock, overhead) + [(s.name, ResultOf(s, clock, 2 * TotalIterations(init), overhead))]
  }

  /** Entry `i` of the result map is the name and result of `specs[i]`, whose
      timed loop starts after the readings of every earlier spec. */
  lemma {:induction false} ResultsAt(specs: seq<Spec>, clock: nat -> int, overhead: real, i: nat)
    requires NoZeroCycles(specs) && i < |specs|
    ensures Results(specs, clock, overhead)[i]
            == (specs[i].name, ResultOf(specs[i], clock, FirstReading(specs, i), overhead))
    decreases |specs|
  {
    var init := specs[..|specs| - 1];
    assert init[..i] == specs[..i];
    if i < |init| {
      assert init[i] == specs[i];
      ResultsAt(init, clock, overhead, i);
    }
  }

  /** The result map grows by one entry per spec, and no spec asks for zero
      iterations once it has a result. */
  lemma ResultsStep(specs: seq<Spec>, i: nat, clock: nat -> int, overhead: real)
    requires i < |specs| && NoZeroCycles(specs[..i]) && specs[i].iterationCycles != 0
    ensures NoZeroCycles(specs[..i + 1])
    ensures Results(specs[..i + 1], clock, overhead)
            == Results(specs[..i], clock, overhead)
               + [(specs[i].name, ResultOf(specs[i], clock, FirstReading(specs, i), overhead))]
  {
    assert specs[..i + 1][..i] == specs[..i];
    assert specs[..i + 1][i] == specs[i];
  }

  /** What `run` promises, given the specs in registration order, the clock
      readings and which invocation (if any) throws, of a run that performed
      the events `trace`: those are the first events of `Scheduled`; the run
      throws exactly when `Scheduled` holds a fault, and then it has stopped
      at the first one, with its exception and no result map; otherwise it
      has performed all of `Scheduled` and returns `Results`. */
  ghost predicate Ran(specs: seq<Spec>, clock: nat -> int, overhead: real, failAt: Option<nat>,
                      out: Outcome<seq<(string, Result)>>, trace: seq<Event>)
  {
    var full := Scheduled(specs, clock, Varlanv);
    && |trace| <= |full| && trace == full[..|trace|]
    && (out.Threw? <==> FaultedTo(full, |full|, failAt))
    && (out.Threw? ==> |trace| > 0 && StoppedAt(full, |trace| - 1, failAt, Varlanv, out.error))
    && (out.Done? ==> trace == full && NoZeroCycles(specs) && out.value == Results(specs, clock, overhead))
  }

  /** One warmup cycle of `spec` from position `p` of `full`: the action,
      then the cleanup, each recorded in `trace`. On a throw, `at` is the
      event that threw. */
  method WarmUpCycle(spec: Spec, action: Runnable, cleanup: Runnable, failAt: Option<nat>,
                     ghost full: seq<Event>, ghost p: nat, calls: nat, trace: seq<Event>)
    returns (calls': nat, trace': seq<Event>, stop: Option<Error>, ghost at: nat)
    requires action == spec.action && cleanup == NoOp && p + 2 <= |full|
    requires full[p] == Call(spec.name, ActionRole, action, Warmup)
    requires full[p + 1] == Call(spec.name, CleanupRole, cleanup, Warmup)
    requires PerformedTo(full, p, calls, trace, failAt)
    ensures stop.Some? ==>
      StoppedAt(full, at, failAt, Varlanv, stop.value) && FaultedTo(full, |full|, failAt) && trace' == full[..at + 1]
    ensures stop.None? ==> PerformedTo(full, p + 2, calls', trace', failAt)
  {
    var threw;
    stop, at := None, 0;
    calls', trace', threw := Emit(full, p, calls, trace, Call(spec.name, ActionRole, action, Warmup), failAt);
    if threw {
      StopHere(full, p, failAt, Varlanv);
      return calls', trace', Some(ActionThrew(calls)), p;
    }
    calls', trace', threw := Emit(full, p + 1, calls', trace', Call(spec.name, CleanupRole, cleanup, Warmup), failAt);
    // the no-op cleanup cannot throw
    assert !threw;
  }

  /** The warmup loop of `spec`, run from position `base` of `full`, where
      `full` holds the loop's events: `warmupCycles` times the action and
      then the cleanup. On a throw, `at` is the event that threw. */
  method WarmUpSubject(spec: Spec, failAt: Option<nat>, ghost full: seq<Event>, ghost base: nat,
                       calls: nat, trace: seq<Event>)
    returns (calls': nat, trace': seq<Event>, stop: Option<Error>, ghost at: nat)
    requires var n := Times(spec.warmupCycles);
      base + n * 2 <= |full| && full[base..base + n * 2] == Repeat(WarmupCycle(spec, Varlanv), n)
    requires PerformedTo(full, base, calls, trace, failAt)
    ensures stop.Some? ==>
      StoppedAt(full, at, failAt, Varlanv, stop.value) && FaultedTo(full, |full|, failAt) && trace' == full[..at + 1]
    ensures var p := base + Times(spec.warmupCycles) * 2;
      stop.None? ==> PerformedTo(full, p, calls', trace', failAt)
  {
    ghost var block, n := WarmupCycle(spec, Varlanv), Times(spec.warmupCycles);
    calls', trace', stop, at := calls, trace, None, 0;
    var action := spec.action;
    var extended := Extended(spec);
    var cleanup := extended.cleanup;
    var warmup := 0;
    while warmup < spec.warmupCycles
      invariant 0 <= warmup <= n && stop == None
      invariant PerformedTo(full, base + warmup * 2, calls', trace', failAt)
    {
      RepeatIn(full, base, block, 2, n, warmup, 0);
      RepeatIn(full, base, block, 2, n, warmup, 1);
      calls', trace', stop, at := WarmUpCycle(spec, action, cleanup, failAt, full, base + warmup * 2, calls', trace');
      if stop.Some? {
        return;
      }
      warmup := warmup + 1;
    }
  }

  /** Timed iteration `j` of `spec`, at position `p` of `full`, from clock
      reading number `ticks`: read the clock, run the action, read the
      clock, fold the duration into the sum, minimum and maximum, run the
      cleanup. On a throw, `at` is the event that threw. */
  method TimeIteration(spec: Spec, action: Runnable, cleanup: Runnable, clock: nat -> int, failAt: Option<nat>,
                       ghost full: seq<Event>, ghost p: nat, ghost t0: nat, ghost j: nat,
                       calls: nat, trace: seq<Event>, ticks: nat, sum: int, min: int, max: int)
    returns (calls': nat, trace': seq<Event>, ticks': nat, stop: Option<Error>, ghost at: nat,
             sum': int, min': int, max': int)
    requires action == spec.action && cleanup == NoOp
    requires ticks == t0 + 2 * j && p + 4 <= |full|
    requires full[p..p + 4] == Iteration(spec, clock(ticks), clock(ticks + 1))
    requires PerformedTo(full, p, calls, trace, failAt)
    requires sum == Total(clock, t0, j) && min == Least(clock, t0, j) && max == Greatest(clock, t0, j)
    ensures stop.Some? ==>
      StoppedAt(full, at, failAt, Varlanv, stop.value) && FaultedTo(full, |full|, failAt) && trace' == full[..at + 1]
    ensures stop.None? ==>
        && PerformedTo(full, p + 4, calls', trace', failAt)
        && ticks' == ticks + 2
        && sum' == Total(clock, t0, j + 1) && min' == Least(clock, t0, j + 1) && max' == Greatest(clock, t0, j + 1)
  {
    assert full[p] == full[p..p + 4][0] && full[p + 1] == full[p..p + 4][1];
    assert full[p + 2] == full[p..p + 4][2] && full[p + 3] == full[p..p + 4][3];
    var threw := false;
    stop, at, sum', min', max' := None, 0, sum, min, max;
    var nanoBefore := clock(ticks);
    ticks' := ticks + 1;
    calls', trace', threw := Emit(full, p, calls, trace, Tick(nanoBefore), failAt);
    var call := calls';
    calls', trace', threw := Emit(full, p + 1, calls', trace', Call(spec.name, ActionRole, action, Measure), failAt);
    if threw {
      StopHere(full, p + 1, failAt, Varlanv);
      return calls', trace', ticks', Some(ActionThrew(call)), p + 1, sum', min', max';
    }
    var nanoAfter := clock(ticks');
    ticks' := ticks' + 1;
    calls', trace', threw := Emit(full, p + 2, calls', trace', Tick(nanoAfter), failAt);
    FoldStep(clock, t0, j, nanoBefore, nanoAfter);
    sum' := sum + (nanoAfter - nanoBefore);
    min' := Min(min, nanoAfter - nanoBefore);
    max' := Max(max, nanoAfter - nanoBefore);
    calls', trace', threw := Emit(full, p + 3, calls', trace', Call(spec.name, CleanupRole, cleanup, Measure), failAt);
    // the no-op cleanup cannot throw
    assert !threw;
  }

  /** The timed loop of `spec`, run from position `base` of `full`, where
      `full` holds the loop's events, and from clock reading number `ticks`:
      it returns the duration sum (`average` before the division), minimum
      and maximum. On a throw, `at` is the event that threw. */
  method TimeSubject(spec: Spec, action: Runnable, cleanup: Runnable, clock: nat -> int, failAt: Option<nat>,
                     ghost full: seq<Event>, ghost base: nat,
                     calls: nat, trace: seq<Event>, ticks: nat)
    returns (calls': nat, trace': seq<Event>, ticks': nat, stop: Option<Error>, ghost at: nat,
             sum: int, min: int, max: int)
    requires action == spec.action && cleanup == NoOp
    requires MeasuredFrom(full, base, spec, clock, ticks, Times(spec.iterationCycles))
    requires PerformedTo(full, base, calls, trace, failAt)
    ensures stop.Some? ==>
      StoppedAt(full, at, failAt, Varlanv, stop.value) && FaultedTo(full, |full|, failAt) && trace' == full[..at + 1]
    ensures var n := Times(spec.iterationCycles);
      stop.None? ==>
        && PerformedTo(full, base + 4 * n, calls', trace', failAt)
        && ticks' == ticks + 2 * n
        && sum == Total(clock, ticks, n) && min == Least(clock, ticks, n) && max == Greatest(clock, ticks, n)
  {
    calls', trace', ticks', stop, at := calls, trace, ticks, None, 0;
    sum, min, max := 0, 0, 0;
    var iteration := 0;
    ghost var pos := base;
    while iteration < spec.iterationCycles
      invariant 0 <= iteration <= Times(spec.iterationCycles)
      invariant ticks' == ticks + 2 * iteration && stop == None
      invariant pos == base + 4 * iteration && pos <= |full|
      invariant PerformedTo(full, pos, calls', trace', failAt)
      invariant sum == Total(clock, ticks, iteration)
      invariant min == Least(clock, ticks, iteration) && max == Greatest(clock, ticks, iteration)
    {
      assert pos + 4 <= |full|;
      assert full[pos..pos + 4] == WindowOf(full, base, iteration)
             == Iteration(spec, clock(ticks'), clock(ticks' + 1));
      calls', trace', ticks', stop, at, sum, min, max :=
        TimeIteration(spec, action, cleanup, clock, failAt, full, pos, ticks, iteration,
                      calls', trace', ticks', sum, min, max);
      if stop.Some? {
        return;
      }
      iteration := iteration + 1;
      pos := pos + 4;
    }
    assert iteration == Times(spec.iterationCycles);
  }

  /** The first pass of `run`: the warmup loop of every spec, in order. */
  method WarmUpAll(specs: seq<Spec>, clock: nat -> int, failAt: Option<nat>)
    returns (calls: nat, trace: seq<Event>, stop: Option<Error>, ghost at: nat)
    ensures var full := Scheduled(specs, clock, Varlanv);
      stop.Some? ==> StoppedAt(full, at, failAt, Varlanv, stop.value) && FaultedTo(full, |full|, failAt)
                     && trace == full[..at + 1]
    ensures var full, p := Scheduled(specs, clock, Varlanv), Timed(specs, 0, clock, Varlanv);
      stop.None? ==> PerformedTo(full, p, calls, trace, failAt)
  {
    WarmupsLaidOut(specs, clock, Varlanv);
    calls, trace, stop, at := WarmUpPass(specs, failAt, Scheduled(specs, clock, Varlanv), Marks(specs, Varlanv));
  }

  /** The first pass in a trace `full` laid out as `marks` says. */
  method WarmUpPass(specs: seq<Spec>, failAt: Option<nat>, ghost full: seq<Event>, ghost marks: seq<nat>)
    returns (calls: nat, trace: seq<Event>, stop: Option<Error>, ghost at: nat)
    requires WarmupsAt(full, specs, Varlanv, marks) && marks[0] == 0
    ensures stop.Some? ==>
      StoppedAt(full, at, failAt, Varlanv, stop.value) && FaultedTo(full, |full|, failAt) && trace == full[..at + 1]
    ensures stop.None? ==> PerformedTo(full, marks[|specs|], calls, trace, failAt)
  {
    calls, trace, stop, at := 0, [], None, 0;
    var i := 0;
    while i < |specs|
      invariant 0 <= i <= |specs| && stop == None && marks[i] <= |full|
      invariant PerformedTo(full, marks[i], calls, trace, failAt)
    {
      assert WarmupAt(full, specs[i], Varlanv, marks[i], marks[i + 1]);
      calls, trace, stop, at := WarmUpSubject(specs[i], failAt, full, marks[i], calls, trace);
      if stop.Some? {
        return;
      }
      i := i + 1;
    }
  }

  /** One spec of the second pass of `run`, from position `base` of `full`,
      where `full` holds its timed loop and the division after it: the timed
      loop, then the division by `iterationCycles`, which throws when that is 0. */
  method MeasureSubject(spec: Spec, clock: nat -> int, overhead: real, failAt: Option<nat>,
                        ghost full: seq<Event>, ghost base: nat, calls: nat, trace: seq<Event>, ticks: nat)
    returns (calls': nat, trace': seq<Event>, ticks': nat, stop: Option<Error>, ghost at: nat, result: Result)
    requires var n := Times(spec.iterationCycles);
      && MeasuredFrom(full, base, spec, clock, ticks, n)
      && base + 4 * n < |full| && full[base + 4 * n] == Aggregate(spec.name, spec.iterationCycles)
    requires PerformedTo(full, base, calls, trace, failAt)
    ensures stop.Some? ==>
      StoppedAt(full, at, failAt, Varlanv, stop.value) && FaultedTo(full, |full|, failAt) && trace' == full[..at + 1]
    ensures var n := Times(spec.iterationCycles);
      stop.None? ==>
        && PerformedTo(full, base + 4 * n + 1, calls', trace', failAt)
        && ticks' == ticks + 2 * n && spec.iterationCycles != 0
        && result == ResultOf(spec, clock, ticks, overhead)
  {
    var sum, min, max;
    var threw := false;
    result := Result(Mean(0, 0, 0.0), 0, 0);
    ghost var p := base + 4 * Times(spec.iterationCycles);
    var action := spec.action;
    var extended := Extended(spec);
    var cleanup := extended.cleanup;
    calls', trace', ticks', stop, at, sum, min, max :=
      TimeSubject(spec, action, cleanup, clock, failAt, full, base, calls, trace, ticks);
    if stop.Some? {
      return;
    }
    calls', trace', threw := Emit(full, p, calls', trace', Aggregate(spec.name, spec.iterationCycles), failAt);
    if threw {
      // `0.0 / 0` is NaN, and `BigDecimal.valueOf` throws
      StopHere(full, p, failAt, Varlanv);
      return calls', trace', ticks', Some(NumberFormat), p, result;
    }
    result := Result(Mean(sum, spec.iterationCycles, overhead), min, max);
  }

  /** The loop body of the second pass of `run`: `specs[i]` measured from
      position `base` of `full`, and its result put in `results`. */
  method MeasureAndRecord(specs: seq<Spec>, i: nat, clock: nat -> int, overhead: real, failAt: Option<nat>,
                          ghost full: seq<Event>, ghost base: nat, ghost next: nat,
                          calls: nat, trace: seq<Event>, ticks: nat, results: LinkedMap<Result>)
    returns (calls': nat, trace': seq<Event>, ticks': nat, stop: Option<Error>, ghost at: nat)
    modifies results
    requires i < |specs| && Distinct(Names(specs)) && ticks == FirstReading(specs, i)
    requires LoopAt(full, specs[i], clock, ticks, base, next)
    requires PerformedTo(full, base, calls, trace, failAt)
    requires NoZeroCycles(specs[..i])
    requires results.Valid() && results.entries == Results(specs[..i], clock, overhead)
    ensures stop.Some? ==>
      StoppedAt(full, at, failAt, Varlanv, stop.value) && FaultedTo(full, |full|, failAt) && trace' == full[..at + 1]
    ensures stop.None? ==>
        && PerformedTo(full, next, calls', trace', failAt)
        && ticks' == ticks + 2 * Times(specs[i].iterationCycles) && NoZeroCycles(specs[..i + 1])
        && results.Valid() && results.entries == Results(specs[..i + 1], clock, overhead)
  {
    var result;
    calls', trace', ticks', stop, at, result :=
      MeasureSubject(specs[i], clock, overhead, failAt, full, base, calls, trace, ticks);
    if stop.Some? {
      return;
    }
    assert specs[i].name !in KeysOf(results.entries) by {
      forall j | 0 <= j < i ensures KeysOf(results.entries)[j] != specs[i].name {
        ResultsAt(specs[..i], clock, overhead, j);
        assert Names(specs)[j] != Names(specs)[i];
      }
    }
    results.Put(specs[i].name, result);
    ResultsStep(specs, i, clock, overhead);
  }

  /** The second pass of `run`, in a trace `full` laid out as `starts`
      says, from the state the first pass left. */
  method MeasureAll(specs: seq<Spec>, clock: nat -> int, overhead: real, failAt: Option<nat>,
                    ghost full: seq<Event>, ghost starts: seq<nat>, calls: nat, trace: seq<Event>)
    returns (out: Outcome<seq<(string, Result)>>, trace': seq<Event>, ghost at: nat)
    requires Distinct(Names(specs)) && LoopsAt(full, specs, clock, starts)
    requires PerformedTo(full, starts[0], calls, trace, failAt)
    ensures out.Threw? ==>
      StoppedAt(full, at, failAt, Varlanv, out.error) && FaultedTo(full, |full|, failAt) && trace' == full[..at + 1]
    ensures out.Done? ==>
      && NoZeroCycles(specs) && out.value == Results(specs, clock, overhead)
      && starts[|specs|] <= |full| && trace' == full[..starts[|specs|]] && !FaultedTo(full, starts[|specs|], failAt)
  {
    var results := new LinkedMap<Result>();
    var ticks, stop, calls' := 0, None, calls;
    trace', at := trace, 0;
    var i := 0;
    assert specs[..0] == [];
    while i < |specs|
      invariant 0 <= i <= |specs| && starts[i] <= |full|
      invariant ticks == FirstReading(specs, i)
      invariant PerformedTo(full, starts[i], calls', trace', failAt)
      invariant NoZeroCycles(specs[..i])
      invariant results.Valid() && results.entries == Results(specs[..i], clock, overhead)
    {
      assert LoopAt(full, specs[i], clock, FirstReading(specs, i), starts[i], starts[i + 1]);
      assert FirstReading(specs, i + 1) == FirstReading(specs, i) + 2 * Times(specs[i].iterationCycles);
      calls', trace', ticks, stop, at :=
        MeasureAndRecord(specs, i, clock, overhead, failAt, full, starts[i], starts[i + 1],
                         calls', trace', ticks, results);
      if stop.Some? {
        return Threw(stop.value), trace', at;
      }
      i := i + 1;
    }
    assert specs[..i] == specs;
    out := Done(results.entries);
  }

  /** The two passes of `run` over `subjects.values()`, returning the events
      they performed. `overhead` stands for `averageNanoTime`, the result of
      the calibration loops. */
  method Run(specs: seq<Spec>, clock: nat -> int, overhead: real, failAt: Option<nat>)
    returns (out: Outcome<seq<(string, Result)>>, trace: seq<Event>)
    requires Distinct(Names(specs))
    ensures Ran(specs, clock, overhead, failAt, out, trace)
  {
    ghost var full := Scheduled(specs, clock, Varlanv);
    var calls, stop;
    ghost var at;
    calls, trace, stop, at := WarmUpAll(specs, clock, failAt);
    if stop.Some? {
      return Threw(stop.value), trace;
    }
    LoopsLaidOut(specs, clock, Varlanv);
    out, trace, at := MeasureAll(specs, clock, overhead, failAt, full, Starts(specs, clock, Varlanv), calls, trace);
    assert out.Done? ==> trace == full;
  }

  /** `BenchWithManySubjects.run`: `Run` over the registered specs. */
  method RunMany(bench: BenchWithManySubjects, clock: nat -> int, overhead: real, failAt: Option<nat>)
    returns (out: Outcome<seq<(string, Result)>>, trace: seq<Event>)
    requires bench.Valid()
    ensures Ran(bench.Specs(), clock, overhead, failAt, out, trace)
  {
    out, trace := Run(bench.Specs(), clock, overhead, failAt);
  }

  /** `BenchWithOneSubject.run`: the one spec in a registry of its own, run,
      and the first (only) value of the result map. */
  method RunOne(subject: Spec, clock: nat -> int, overhead: real, failAt: Option<nat>)
    returns (out: Outcome<Result>, trace: seq<Event>)
    ensures var full := Scheduled([subject], clock, Varlanv);
      && |trace| <= |full| && trace == full[..|trace|]
      && (out.Threw? <==> FaultedTo(full, |full|, failAt))
      && (out.Threw? ==> |trace| > 0 && StoppedAt(full, |trace| - 1, failAt, Varlanv, out.error))
      && (out.Done? ==> trace == full && subject.iterationCycles != 0
                        && out.value == ResultOf(subject, clock, 0, overhead))
  {
    var bench := new BenchWithManySubjects.OfSpec(subject);
    assert bench.Specs() == [subject];
    var all;
    all, trace := RunMany(bench, clock, overhead, failAt);
    if all.Threw? {
      return Threw(all.error), trace;
    }
    assert [subject][..0] == [];
    out := Done(all.value[0].1);
  }
}
