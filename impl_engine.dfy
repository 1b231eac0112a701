/** `BenchWithManySubjects.run` and `BenchWithOneSubject.run` of `impl.Bench`:
    the warmup pass runs the action alone, each spec's figures accumulate in
    the fields of a mutable `Result`, and the average is a `long` division
    with no overhead correction. */
module ImplEngine {
  import opened Model
  import opened LinkedMaps
  import opened Registry
  import opened Schedule
  import opened Measurement

  /** The three figures a `Result` holds. */
  datatype Stats = Stats(average: int, min: int, max: int)

  /** `Result`: three `long` fields, 0 until the timed loop updates them. */
  class Result {
    var average: int
    var min: int
    var max: int

    constructor ()
      ensures average == 0 && min == 0 && max == 0
    {
      average, min, max := 0, 0, 0;
    }
  }

  /** The figures of a spec whose timed loop reads the clock from reading
      number `t0` on: the duration sum divided by `iterationCycles` as Java
      divides `long`s, and the minimum and maximum from 0. */
  function StatsOf(s: Spec, clock: nat -> int, t0: nat): Stats
    requires s.iterationCycles != 0
  {
    var n := Times(s.iterationCycles);
    Stats(JavaDiv(Total(clock, t0, n), s.iterationCycles), Least(clock, t0, n), Greatest(clock, t0, n))
  }

  /** `average` times `iterationCycles` is the duration sum up to a remainder
      smaller than `iterationCycles` and of the sum's sign; `min` and `max`
      bound every duration, and 0, and each is 0 or one of the durations;
      with at least one iteration the average lies between them. */
  lemma StatsBounds(s: Spec, clock: nat -> int, t0: nat)
    requires s.iterationCycles != 0
    ensures var r, n := StatsOf(s, clock, t0), Times(s.iterationCycles);
      var rem := Total(clock, t0, n) - r.average * s.iterationCycles;
      && Abs(rem) < Abs(s.iterationCycles)
      && (Total(clock, t0, n) >= 0 ==> rem >= 0) && (Total(clock, t0, n) <= 0 ==> rem <= 0)
      && r.min <= 0 <= r.max
      && (forall j :: 0 <= j < n ==> r.min <= Duration(clock, t0, j) <= r.max)
      && (r.min == 0 || exists j :: 0 <= j < n && r.min == Duration(clock, t0, j))
      && (r.max == 0 || exists j :: 0 <= j < n && r.max == Duration(clock, t0, j))
      && (s.iterationCycles > 0 ==> r.min <= r.average <= r.max)
  {
    var n := Times(s.iterationCycles);
    LeastIsLeast(clock, t0, n);
    GreatestIsGreatest(clock, t0, n);
    if s.iterationCycles > 0 {
      TotalBounds(clock, t0, n);
      TruncatedBetween(n, Least(clock, t0, n), Total(clock, t0, n), Greatest(clock, t0, n));
    }
  }

  /** From `n * lo <= s <= n * hi` with `n > 0` and `lo <= 0 <= hi`: the
      quotient rounded toward zero lies between `lo` and `hi`. */
  lemma TruncatedBetween(n: int, lo: int, s: int, hi: int)
    requires n > 0 && lo <= 0 <= hi && n * lo <= s <= n * hi
    ensures lo <= JavaDiv(s, n) <= hi
  {
    var q := JavaDiv(s, n);
    var r := s - q * n;
    assert n * q == s - r;
    if s >= 0 {
      // 0 <= r < n: q * n <= s <= n * hi, and q * n > s - n >= -n
      assert 0 <= r < n;
      assert n * q <= n * hi;
      CancelLe(n, q, hi);
      assert n * -1 < n * q;
      CancelLt(n, -1, q);
    } else {
      // -n < r <= 0: n * lo <= s <= q * n, and q * n < s + n < n
      assert -n < r <= 0;
      assert n * lo <= n * q;
      CancelLe(n, lo, q);
      assert n * q < n * 1;
      CancelLt(n, q, 1);
    }
  }

  lemma CancelLe(n: int, x: int, y: int)
    requires n > 0 && n * x <= n * y
    ensures x <= y
  {
    assert n * (y - x) == n * y - n * x;
  }

  lemma CancelLt(n: int, x: int, y: int)
    requires n > 0 && n * x < n * y
    ensures x < y
  {
    assert n * (y - x) == n * y - n * x;
  }

  /** The figures of a run that completes: one entry per spec, keyed by its
      name, in registration order. */
  function StatsList(specs: seq<Spec>, clock: nat -> int): (rs: seq<(string, Stats)>)
    requires NoZeroCycles(specs)
    ensures |rs| == |specs|
  {
    if specs == [] then []
    else
      var init, s := specs[..|specs| - 1], specs[|specs| - 1];
      StatsList(init, clock) + [(s.name, StatsOf(s, clock, 2 * TotalIterations(init)))]
  }

  /** Entry `i` is the name and figures of `specs[i]`, whose timed loop
      starts after the readings of every earlier spec. */
  lemma {:induction false} StatsListAt(specs: seq<Spec>, clock: nat -> int, i: nat)
    requires NoZeroCycles(specs) && i < |specs|
    ensures StatsList(specs, clock)[i] == (specs[i].name, StatsOf(specs[i], clock, FirstReading(specs, i)))
    decreases |specs|
  {
    var init := specs[..|specs| - 1];
    assert init[..i] == specs[..i];
    if i < |init| {
      assert init[i] == specs[i];
      StatsListAt(init, clock, i);
    }
  }

  lemma StatsListStep(specs: seq<Spec>, i: nat, clock: nat -> int)
    requires i < |specs| && NoZeroCycles(specs[..i]) && specs[i].iterationCycles != 0
    ensures NoZeroCycles(specs[..i + 1])
    ensures StatsList(specs[..i + 1], clock)
            == StatsList(specs[..i], clock) + [(specs[i].name, StatsOf(specs[i], clock, FirstReading(specs, i)))]
  {
    assert specs[..i + 1][..i] == specs[..i];
    assert specs[..i + 1][i] == specs[i];
  }

  /** The `Result` objects a result map refers to. */
  function Objects(es: seq<(string, Result)>): set<Result>
  {
    set i | 0 <= i < |es| :: es[i].1
  }

  /** What the `Result` objects of a result map hold, entry by entry. */
  function Snapshot(es: seq<(string, Result)>): (r: seq<(string, Stats)>)
    reads Objects(es)
    ensures |r| == |es|
    ensures forall i :: 0 <= i < |es| ==>
      r[i] == (es[i].0, Stats(es[i].1.average, es[i].1.min, es[i].1.max))
  {
    seq(|es|, i requires 0 <= i < |es| reads Objects(es) =>
      (es[i].0, Stats(es[i].1.average, es[i].1.min, es[i].1.max)))
  }

  /** What `run` promises, given the specs in registration order, the clock
      readings and which invocation (if any) throws, of a run that performed
      the events `trace`, with `out` the figures its result map holds: those
      events are the first events of `Scheduled`; the run throws exactly
      when `Scheduled` holds a fault, and then it has stopped at the first
      one, with its exception and no result map; otherwise it has performed
      all of `Scheduled` and its figures are `StatsList`. */
  ghost predicate Ran(specs: seq<Spec>, clock: nat -> int, failAt: Option<nat>,
                      out: Outcome<seq<(string, Stats)>>, trace: seq<Event>)
  {
    var full := Scheduled(specs, clock, Impl);
    && |trace| <= |full| && trace == full[..|trace|]
    && (out.Threw? <==> FaultedTo(full, |full|, failAt))
    && (out.Threw? ==> |trace| > 0 && StoppedAt(full, |trace| - 1, failAt, Impl, out.error))
    && (out.Done? ==> trace == full && NoZeroCycles(specs) && out.value == StatsList(specs, clock))
  }

  /** The warmup loop of `spec`, run from position `base` of `full`, where
      `full` holds the loop's events: `warmupCycles` times the action alone.
      On a throw, `at` is the event that threw. */
  method WarmUpSubject(spec: Spec, failAt: Option<nat>, ghost full: seq<Event>, ghost base: nat,
                       calls: nat, trace: seq<Event>)
    returns (calls': nat, trace': seq<Event>, stop: Option<Error>, ghost at: nat)
    requires var n := Times(spec.warmupCycles);
      base + n * 1 <= |full| && full[base..base + n * 1] == Repeat(WarmupCycle(spec, Impl), n)
    requires PerformedTo(full, base, calls, trace, failAt)
    ensures stop.Some? ==>
      StoppedAt(full, at, failAt, Impl, stop.value) && FaultedTo(full, |full|, failAt) && trace' == full[..at + 1]
    ensures var p := base + Times(spec.warmupCycles) * 1;
      stop.None? ==> PerformedTo(full, p, calls', trace', failAt)
  {
    ghost var block, n := WarmupCycle(spec, Impl), Times(spec.warmupCycles);
    calls', trace', stop, at := calls, trace, None, 0;
    var threw;
    var warmup := 0;
    while warmup < spec.warmupCycles
      invariant 0 <= warmup <= n
      invariant PerformedTo(full, base + warmup * 1, calls', trace', failAt)
    {
      ghost var p := base + warmup * 1;
      RepeatIn(full, base, block, 1, n, warmup, 0);
      var call := calls';
      calls', trace', threw := Emit(full, p, calls', trace', Call(spec.name, ActionRole, spec.action, Warmup), failAt);
      if threw {
        StopHere(full, p, failAt, Impl);
        return calls', trace', Some(ActionThrew(call)), p;
      }
      warmup := warmup + 1;
    }
  }

  /** The first pass of `run`: the warmup loop of every spec, in order. */
  method WarmUpAll(specs: seq<Spec>, clock: nat -> int, failAt: Option<nat>)
    returns (calls: nat, trace: seq<Event>, stop: Option<Error>, ghost at: nat)
    ensures var full := Scheduled(specs, clock, Impl);
      stop.Some? ==> StoppedAt(full, at, failAt, Impl, stop.value) && FaultedTo(full, |full|, failAt)
                     && trace == full[..at + 1]
    ensures var full, p := Scheduled(specs, clock, Impl), Timed(specs, 0, clock, Impl);
      stop.None? ==> PerformedTo(full, p, calls, trace, failAt)
  {
    WarmupsLaidOut(specs, clock, Impl);
    calls, trace, stop, at := WarmUpPass(specs, failAt, Scheduled(specs, clock, Impl), Marks(specs, Impl));
  }

  /** The first pass in a trace `full` laid out as `marks` says. */
  method WarmUpPass(specs: seq<Spec>, failAt: Option<nat>, ghost full: seq<Event>, ghost marks: seq<nat>)
    returns (calls: nat, trace: seq<Event>, stop: Option<Error>, ghost at: nat)
    requires WarmupsAt(full, specs, Impl, marks) && marks[0] == 0
    ensures stop.Some? ==>
      StoppedAt(full, at, failAt, Impl, stop.value) && FaultedTo(full, |full|, failAt) && trace == full[..at + 1]
    ensures stop.None? ==> PerformedTo(full, marks[|specs|], calls, trace, failAt)
  {
    calls, trace, stop, at := 0, [], None, 0;
    var i := 0;
    while i < |specs|
      invariant 0 <= i <= |specs| && stop == None && marks[i] <= |full|
      invariant PerformedTo(full, marks[i], calls, trace, failAt)
    {
      assert WarmupAt(full, specs[i], Impl, marks[i], marks[i + 1]);
      calls, trace, stop, at := WarmUpSubject(specs[i], failAt, full, marks[i], calls, trace);
      if stop.Some? {
        return;
      }
      i := i + 1;
    }
  }

  /** Timed iteration `j` of `spec`, at position `p` of `full`, from clock
      reading number `ticks`: read the clock, run the action, read the
      clock, fold the duration into the fields of `result`, run the cleanup.
      On a throw, `at` is the event that threw. */
  method TimeIteration(spec: Spec, action: Runnable, cleanup: Runnable, clock: nat -> int, failAt: Option<nat>,
                       ghost full: seq<Event>, ghost p: nat, ghost t0: nat, ghost j: nat,
                       calls: nat, trace: seq<Event>, ticks: nat, result: Result)
    returns (calls': nat, trace': seq<Event>, ticks': nat, stop: Option<Error>, ghost at: nat)
    modifies result
    requires action == spec.action && cleanup == NoOp
    requires ticks == t0 + 2 * j && p + 4 <= |full|
    requires full[p..p + 4] == Iteration(spec, clock(ticks), clock(ticks + 1))
    requires PerformedTo(full, p, calls, trace, failAt)
    requires result.average == Total(clock, t0, j)
    requires result.min == Least(clock, t0, j) && result.max == Greatest(clock, t0, j)
    ensures stop.Some? ==>
      StoppedAt(full, at, failAt, Impl, stop.value) && FaultedTo(full, |full|, failAt) && trace' == full[..at + 1]
    ensures stop.None? ==>
        && PerformedTo(full, p + 4, calls', trace', failAt)
        && ticks' == ticks + 2
        && result.average == Total(clock, t0, j + 1)
        && result.min == Least(clock, t0, j + 1) && result.max == Greatest(clock, t0, j + 1)
  {
    assert full[p] == full[p..p + 4][0] && full[p + 1] == full[p..p + 4][1];
    assert full[p + 2] == full[p..p + 4][2] && full[p + 3] == full[p..p + 4][3];
    var threw := false;
    stop, at := None, 0;
    var nanoBefore := clock(ticks);
    ticks' := ticks + 1;
    calls', trace', threw := Emit(full, p, calls, trace, Tick(nanoBefore), failAt);
    var call := calls';
    calls', trace', threw := Emit(full, p + 1, calls', trace', Call(spec.name, ActionRole, action, Measure), failAt);
    if threw {
      StopHere(full, p + 1, failAt, Impl);
      return calls', trace', ticks', Some(ActionThrew(call)), p + 1;
    }
    var nanoAfter := clock(ticks');
    ticks' := ticks' + 1;
    calls', trace', threw := Emit(full, p + 2, calls', trace', Tick(nanoAfter), failAt);
    FoldStep(clock, t0, j, nanoBefore, nanoAfter);
    result.average := result.average + (nanoAfter - nanoBefore);
    result.min := Min(result.min, nanoAfter - nanoBefore);
    result.max := Max(result.max, nanoAfter - nanoBefore);
    calls', trace', threw := Emit(full, p + 3, calls', trace', Call(spec.name, CleanupRole, cleanup, Measure), failAt);
    // the no-op cleanup cannot throw
    assert !threw;
  }

  /** The timed loop of `spec` into a fresh `result`, run from position
      `base` of `full`, where `full` holds the loop's events, and from clock
      reading number `ticks`: it leaves the duration sum in `average` and the
      minimum and maximum in `min` and `max`. On a throw, `at` is the event
      that threw. */
  method TimeSubject(spec: Spec, action: Runnable, cleanup: Runnable, clock: nat -> int, failAt: Option<nat>,
                     ghost full: seq<Event>, ghost base: nat,
                     calls: nat, trace: seq<Event>, ticks: nat, result: Result)
    returns (calls': nat, trace': seq<Event>, ticks': nat, stop: Option<Error>, ghost at: nat)
    modifies result
    requires action == spec.action && cleanup == NoOp
    requires MeasuredFrom(full, base, spec, clock, ticks, Times(spec.iterationCycles))
    requires PerformedTo(full, base, calls, trace, failAt)
    requires result.average == 0 && result.min == 0 && result.max == 0
    ensures stop.Some? ==>
      StoppedAt(full, at, failAt, Impl, stop.value) && FaultedTo(full, |full|, failAt) && trace' == full[..at + 1]
    ensures var n := Times(spec.iterationCycles);
      stop.None? ==>
        && PerformedTo(full, base + 4 * n, calls', trace', failAt)
        && ticks' == ticks + 2 * n
        && result.average == Total(clock, ticks, n)
        && result.min == Least(clock, ticks, n) && result.max == Greatest(clock, ticks, n)
  {
    calls', trace', ticks', stop, at := calls, trace, ticks, None, 0;
    var iteration := 0;
    ghost var pos := base;
    while iteration < spec.iterationCycles
      invariant 0 <= iteration <= Times(spec.iterationCycles)
      invariant ticks' == ticks + 2 * iteration && stop == None
      invariant pos == base + 4 * iteration && pos <= |full|
      invariant PerformedTo(full, pos, calls', trace', failAt)
      invariant result.average == Total(clock, ticks, iteration)
      invariant result.min == Least(clock, ticks, iteration) && result.max == Greatest(clock, ticks, iteration)
    {
      assert pos + 4 <= |full|;
      assert full[pos..pos + 4] == WindowOf(full, base, iteration)
             == Iteration(spec, clock(ticks'), clock(ticks' + 1));
      calls', trace', ticks', stop, at :=
        TimeIteration(spec, action, cleanup, clock, failAt, full, pos, ticks, iteration, calls', trace', ticks', result);
      if stop.Some? {
        return;
      }
      iteration := iteration + 1;
      pos := pos + 4;
    }
    assert iteration == Times(spec.iterationCycles);
  }

  /** `specs[i]`'s timed loop into the fresh `result`, then `average /=
      iterationCycles`, which throws when that is 0, from position `base` of
      `full`, where `full` holds the loop and the division. */
  method TimeAndDivide(spec: Spec, clock: nat -> int, failAt: Option<nat>,
                       ghost full: seq<Event>, ghost base: nat, ghost next: nat,
                       calls: nat, trace: seq<Event>, ticks: nat, result: Result)
    returns (calls': nat, trace': seq<Event>, ticks': nat, stop: Option<Error>, ghost at: nat)
    modifies result
    requires LoopAt(full, spec, clock, ticks, base, next)
    requires PerformedTo(full, base, calls, trace, failAt)
    requires result.average == 0 && result.min == 0 && result.max == 0
    ensures stop.Some? ==>
      StoppedAt(full, at, failAt, Impl, stop.value) && FaultedTo(full, |full|, failAt) && trace' == full[..at + 1]
    ensures stop.None? ==>
      && PerformedTo(full, next, calls', trace', failAt)
      && ticks' == ticks + 2 * Times(spec.iterationCycles) && spec.iterationCycles != 0
      && Stats(result.average, result.min, result.max) == StatsOf(spec, clock, ticks)
  {
    ghost var p := base + 4 * Times(spec.iterationCycles);
    var threw;
    var action := spec.action;
    var extended := Extended(spec);
    var cleanup := extended.cleanup;
    calls', trace', ticks', stop, at :=
      TimeSubject(spec, action, cleanup, clock, failAt, full, base, calls, trace, ticks, result);
    if stop.Some? {
      return;
    }
    calls', trace', threw := Emit(full, p, calls', trace', Aggregate(spec.name, spec.iterationCycles), failAt);
    if threw {
      // `long` division by zero
      StopHere(full, p, failAt, Impl);
      return calls', trace', ticks', Some(Arithmetic), p;
    }
    result.average := JavaDiv(result.average, spec.iterationCycles);
  }

  /** The loop body of the second pass of `run`: `specs[i]` measured from
      position `base` of `full` into the `Result` that `computeIfAbsent`
      puts in `results`. Names in a registry are distinct, so
      `computeIfAbsent` always finds the name absent and puts a new `Result`. */
  method MeasureAndRecord(specs: seq<Spec>, i: nat, clock: nat -> int, failAt: Option<nat>,
                          ghost full: seq<Event>, ghost base: nat, ghost next: nat,
                          calls: nat, trace: seq<Event>, ticks: nat, results: LinkedMap<Result>)
    returns (calls': nat, trace': seq<Event>, ticks': nat, stop: Option<Error>, ghost at: nat)
    modifies results
    requires i < |specs| && Distinct(Names(specs)) && ticks == FirstReading(specs, i)
    requires LoopAt(full, specs[i], clock, ticks, base, next)
    requires PerformedTo(full, base, calls, trace, failAt)
    requires NoZeroCycles(specs[..i])
    requires results.Valid() && Snapshot(results.entries) == StatsList(specs[..i], clock)
    ensures stop.Some? ==>
      StoppedAt(full, at, failAt, Impl, stop.value) && FaultedTo(full, |full|, failAt) && trace' == full[..at + 1]
    ensures stop.None? ==>
      && PerformedTo(full, next, calls', trace', failAt)
      && ticks' == ticks + 2 * Times(specs[i].iterationCycles) && NoZeroCycles(specs[..i + 1])
      && results.Valid() && Snapshot(results.entries) == StatsList(specs[..i + 1], clock)
  {
    var spec := specs[i];
    ghost var before := results.entries;
    assert spec.name !in KeysOf(before) by {
      forall j | 0 <= j < i ensures KeysOf(before)[j] != spec.name {
        StatsListAt(specs[..i], clock, j);
        assert Names(specs)[j] != Names(specs)[i];
      }
    }
    var result := new Result();
    results.Put(spec.name, result);
    assert results.entries == before + [(spec.name, result)];
    calls', trace', ticks', stop, at := TimeAndDivide(spec, clock, failAt, full, base, next, calls, trace, ticks, result);
    if stop.Some? {
      return;
    }
    assert Snapshot(before) == StatsList(specs[..i], clock);
    StatsListStep(specs, i, clock);
    assert Snapshot(results.entries) == Snapshot(before) + [(spec.name, StatsOf(spec, clock, ticks))];
  }

  /** The second pass of `run`, in a trace `full` laid out as `starts`
      says, from the state the first pass left. */
  method MeasureAll(specs: seq<Spec>, clock: nat -> int, failAt: Option<nat>,
                    ghost full: seq<Event>, ghost starts: seq<nat>, calls: nat, trace: seq<Event>)
    returns (out: Outcome<seq<(string, Result)>>, trace': seq<Event>, ghost at: nat)
    requires Distinct(Names(specs)) && LoopsAt(full, specs, clock, starts)
    requires PerformedTo(full, starts[0], calls, trace, failAt)
    ensures out.Threw? ==>
      StoppedAt(full, at, failAt, Impl, out.error) && FaultedTo(full, |full|, failAt) && trace' == full[..at + 1]
    ensures out.Done? ==>
      && NoZeroCycles(specs) && Snapshot(out.value) == StatsList(specs, clock)
      && starts[|specs|] <= |full| && trace' == full[..starts[|specs|]] && !FaultedTo(full, starts[|specs|], failAt)
  {
    var results := new LinkedMap<Result>();
    var ticks, stop, calls' := 0, None, calls;
    trace', at := trace, 0;
    var i := 0;
    assert specs[..0] == [];
    while i < |specs|
      invariant 0 <= i <= |specs| && starts[i] <= |full|
      invariant ticks == FirstReading(specs, i)
      invariant PerformedTo(full, starts[i], calls', trace', failAt)
      invariant NoZeroCycles(specs[..i])
      invariant results.Valid() && Snapshot(results.entries) == StatsList(specs[..i], clock)
    {
      assert LoopAt(full, specs[i], clock, FirstReading(specs, i), starts[i], starts[i + 1]);
      assert FirstReading(specs, i + 1) == FirstReading(specs, i) + 2 * Times(specs[i].iterationCycles);
      calls', trace', ticks, stop, at :=
        MeasureAndRecord(specs, i, clock, failAt, full, starts[i], starts[i + 1], calls', trace', ticks, results);
      if stop.Some? {
        return Threw(stop.value), trace', at;
      }
      i := i + 1;
    }
    assert specs[..i] == specs;
    out := Done(results.entries);
  }

  /** What a run's result map holds, if it returned one. */
  function Figures(out: Outcome<seq<(string, Result)>>): (r: Outcome<seq<(string, Stats)>>)
    reads if out.Done? then Objects(out.value) else {}
    ensures r.Threw? <==> out.Threw?
    ensures out.Threw? ==> r.error == out.error
    ensures out.Done? ==> r.value == Snapshot(out.value)
  {
    if out.Done? then Done(Snapshot(out.value)) else Threw(out.error)
  }

  /** The two passes of `run` over `subjects.values()`, returning the events
      they performed. */
  method Run(specs: seq<Spec>, clock: nat -> int, failAt: Option<nat>)
    returns (out: Outcome<seq<(string, Result)>>, trace: seq<Event>)
    requires Distinct(Names(specs))
    ensures Ran(specs, clock, failAt, Figures(out), trace)
  {
    ghost var full := Scheduled(specs, clock, Impl);
    var calls, stop;
    ghost var at;
    calls, trace, stop, at := WarmUpAll(specs, clock, failAt);
    if stop.Some? {
      return Threw(stop.value), trace;
    }
    LoopsLaidOut(specs, clock, Impl);
    out, trace, at := MeasureAll(specs, clock, failAt, full, Starts(specs, clock, Impl), calls, trace);
    assert out.Done? ==> trace == full;
  }

  /** `BenchWithManySubjects.run`: `Run` over the registered specs. */
  method RunMany(bench: BenchWithManySubjects, clock: nat -> int, failAt: Option<nat>)
    returns (out: Outcome<seq<(string, Result)>>, trace: seq<Event>)
    requires bench.Valid()
    ensures Ran(bench.Specs(), clock, failAt, Figures(out), trace)
  {
    out, trace := Run(bench.Specs(), clock, failAt);
  }

  /** `BenchWithOneSubject.run`: the one spec in a registry of its own, run,
      and the first (only) value of the result map. */
  method RunOne(subject: Spec, clock: nat -> int, failAt: Option<nat>)
    returns (out: Outcome<Result>, trace: seq<Event>)
    ensures var full := Scheduled([subject], clock, Impl);
      && |trace| <= |full| && trace == full[..|trace|]
      && (out.Threw? <==> FaultedTo(full, |full|, failAt))
      && (out.Threw? ==> |trace| > 0 && StoppedAt(full, |trace| - 1, failAt, Impl, out.error))
      && (out.Done? ==> trace == full && subject.iterationCycles != 0
                        && Stats(out.value.average, out.value.min, out.value.max) == StatsOf(subject, clock, 0))
  {
    var bench := new BenchWithManySubjects.OfSpec(subject);
    assert bench.Specs() == [subject];
    var all;
    all, trace := RunMany(bench, clock, failAt);
    if all.Threw? {
      return Threw(all.error), trace;
    }
    assert [subject][..0] == [];
    assert Snapshot(all.value)[0] == StatsList([subject], clock)[0];
    out := Done(all.value[0].1);
  }
}
