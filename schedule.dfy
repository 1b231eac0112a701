/** The event trace a `run` produces, built from the registered specs, the
    clock readings and which engine runs them. Both engines make the same
    two passes over the specs: every warmup, in registration order, and then,
    spec by spec, the timed loop closed by one division by `iterationCycles`. */
module Schedule {
  import opened Model

  datatype Phase = Warmup | Measure
  datatype Role = ActionRole | CleanupRole

  datatype Event =
      // one `run()` of a spec's action or of the cleanup it was handed
    | Call(subject: string, role: Role, runnable: Runnable, phase: Phase)
      // one `System.nanoTime()` read inside the timed loop
    | Tick(reading: int)
      // the division of a subject's accumulated sum by its `iterationCycles`
    | Aggregate(subject: string, cycles: int)

  /** The two harnesses: `com.varlanv.bench.Bench` (calibrated overhead,
      cleanup in warmup too) and `impl.Bench` (no overhead, action-only warmup). */
  datatype Variant = Varlanv | Impl

  predicate IsWarmup(e: Event)
  {
    e.Call? && e.phase == Warmup
  }

  /** One warmup cycle of a spec. */
  function WarmupCycle(s: Spec, v: Variant): seq<Event>
  {
    match v
    case Varlanv => [Call(s.name, ActionRole, s.action, Warmup), Call(s.name, CleanupRole, NoOp, Warmup)]
    case Impl => [Call(s.name, ActionRole, s.action, Warmup)]
  }

  function Repeat(block: seq<Event>, n: nat): (r: seq<Event>)
    ensures |r| == n * |block|
  {
    if n == 0 then [] else Repeat(block, n - 1) + block
  }

  /** The first pass: every spec's warmup cycles, in registration order. */
  function Warmups(specs: seq<Spec>, v: Variant): seq<Event>
  {
    if specs == [] then []
    else
      var s := specs[|specs| - 1];
      Warmups(specs[..|specs| - 1], v) + Repeat(WarmupCycle(s, v), Times(s.warmupCycles))
  }

  /** One timed iteration: read the clock, run the action, read the clock, run
      the cleanup. */
  function Iteration(s: Spec, before: int, after: int): seq<Event>
  {
    [Tick(before), Call(s.name, ActionRole, s.action, Measure), Tick(after),
     Call(s.name, CleanupRole, NoOp, Measure)]
  }

  /** The first `n` timed iterations of a spec whose first reading is number `t0`. */
  function Measured(s: Spec, clock: nat -> int, t0: nat, n: nat): (r: seq<Event>)
    ensures |r| == 4 * n
  {
    if n == 0 then []
    else Measured(s, clock, t0, n - 1) + Iteration(s, clock(t0 + 2 * (n - 1)), clock(t0 + 2 * (n - 1) + 1))
  }

  function TotalIterations(specs: seq<Spec>): nat
  {
    if specs == [] then 0
    else TotalIterations(specs[..|specs| - 1]) + Times(specs[|specs| - 1].iterationCycles)
  }

  /** The number of the first clock reading the timed loop of `specs[i]` takes. */
  function FirstReading(specs: seq<Spec>, i: nat): nat
    requires i <= |specs|
  {
    2 * TotalIterations(specs[..i])
  }

  /** The second pass: spec by spec, the timed loop and then the division. */
  function Measures(specs: seq<Spec>, clock: nat -> int): seq<Event>
  {
    if specs == [] then []
    else
      var init, s := specs[..|specs| - 1], specs[|specs| - 1];
      Measures(init, clock) + Measured(s, clock, 2 * TotalIterations(init), Times(s.iterationCycles))
        + [Aggregate(s.name, s.iterationCycles)]
  }

  /** No spec asks for zero timed iterations (the division that closes its
      loop would be by zero). */
  predicate NoZeroCycles(specs: seq<Spec>)
  {
    forall i :: 0 <= i < |specs| ==> specs[i].iterationCycles != 0
  }

  /** Every event of a run that nothing interrupts. */
  function Scheduled(specs: seq<Spec>, clock: nat -> int, v: Variant): seq<Event>
  {
    Warmups(specs, v) + Measures(specs, clock)
  }

  // ---------------------------------------------------------------------
  // Failure. A run performs the events of `Scheduled` in order and stops at
  // the first one that throws: the runnable invoked as call number `failAt`
  // when it is a caller's lambda (the no-op cleanup cannot throw), or a
  // division by zero iterations. Runs are described by how many events of
  // `Scheduled` they performed.

  /** How many runnables the first `k` events of `t` invoke. */
  function CallsTo(t: seq<Event>, k: nat): nat
    requires k <= |t|
  {
    if k == 0 then 0 else CallsTo(t, k - 1) + if t[k - 1].Call? then 1 else 0
  }

  predicate IsFault(e: Event, call: nat, failAt: Option<nat>)
  {
    match e
    case Call(_, _, r, _) => r.User? && failAt == Some(call)
    case Tick(_) => false
    case Aggregate(_, n) => n == 0
  }

  /** Some event among the first `k` of `t` throws. */
  predicate FaultedTo(t: seq<Event>, k: nat, failAt: Option<nat>)
    requires k <= |t|
  {
    k > 0 && (FaultedTo(t, k - 1, failAt) || IsFault(t[k - 1], CallsTo(t, k - 1), failAt))
  }

  /** The exception a faulting event throws. */
  function ErrorOf(e: Event, call: nat, v: Variant): Error
  {
    if e.Call? then ActionThrew(call) else if v == Varlanv then NumberFormat else Arithmetic
  }

  /** A fault stays in every longer run. */
  lemma {:induction false} FaultedMono(t: seq<Event>, k: nat, m: nat, failAt: Option<nat>)
    requires k <= m <= |t| && FaultedTo(t, k, failAt)
    ensures FaultedTo(t, m, failAt)
    decreases m - k
  {
    if k < m {
      FaultedMono(t, k, m - 1, failAt);
    }
  }

  /** A run that has performed the first `pos` events of `full`, `trace`,
      without a fault, having made `calls` invocations. */
  ghost predicate PerformedTo(full: seq<Event>, pos: nat, calls: nat, trace: seq<Event>, failAt: Option<nat>)
  {
    pos <= |full| && calls == CallsTo(full, pos) && trace == full[..pos] && !FaultedTo(full, pos, failAt)
  }

  /** A run of `full` that threw `error` stopped at event `k`, the first
      fault of `full`, which throws `error`. */
  ghost predicate StoppedAt(full: seq<Event>, k: nat, failAt: Option<nat>, v: Variant, error: Error)
  {
    && k < |full| && !FaultedTo(full, k, failAt) && IsFault(full[k], CallsTo(full, k), failAt)
    && error == ErrorOf(full[k], CallsTo(full, k), v)
  }

  /** A faulting event after a clean start: the run stops there, and the
      whole of `full` holds a fault. */
  lemma StopHere(full: seq<Event>, k: nat, failAt: Option<nat>, v: Variant)
    requires k < |full| && !FaultedTo(full, k, failAt) && IsFault(full[k], CallsTo(full, k), failAt)
    ensures StoppedAt(full, k, failAt, v, ErrorOf(full[k], CallsTo(full, k), v))
    ensures FaultedTo(full, |full|, failAt)
  {
    FaultedMono(full, k + 1, |full|, failAt);
  }

  /** One step of a run: perform event `pos` of `full`, `e`, record it at the
      end of the events performed so far, and tell whether it throws. */
  method Emit(ghost full: seq<Event>, ghost pos: nat, calls: nat, trace: seq<Event>, e: Event, failAt: Option<nat>)
    returns (calls': nat, trace': seq<Event>, threw: bool)
    requires pos < |full| && full[pos] == e && calls == CallsTo(full, pos) && trace == full[..pos]
    ensures calls' == CallsTo(full, pos + 1)
    ensures trace' == trace + [e] && trace' == full[..pos + 1]
    ensures threw == IsFault(e, calls, failAt)
    ensures FaultedTo(full, pos + 1, failAt) <==> FaultedTo(full, pos, failAt) || threw
  {
    calls' := if e.Call? then calls + 1 else calls;
    trace' := trace + [e];
    assert full[..pos + 1] == full[..pos] + [full[pos]];
    threw := IsFault(e, calls, failAt);
  }

  // ---------------------------------------------------------------------
  // Where each partial trace of an engine lies inside `Scheduled`.

  lemma PrefixTrans(a: seq<Event>, b: seq<Event>, c: seq<Event>)
    requires a <= b && b <= c
    ensures a <= c
  {
    assert c[..|b|][..|a|] == c[..|a|];
  }

  lemma PrefixAppend(a: seq<Event>, b: seq<Event>, c: seq<Event>)
    requires b <= c
    ensures a + b <= a + c
  {
    assert (a + c)[..|a + b|] == a + c[..|b|];
  }

  lemma {:induction false} WarmupsPrefix(specs: seq<Spec>, m: nat, v: Variant)
    requires m <= |specs|
    ensures Warmups(specs[..m], v) <= Warmups(specs, v)
    decreases |specs|
  {
    if m < |specs| {
      var init := specs[..|specs| - 1];
      assert init[..m] == specs[..m];
      WarmupsPrefix(init, m, v);
      PrefixTrans(Warmups(specs[..m], v), Warmups(init, v), Warmups(specs, v));
    } else {
      assert specs[..m] == specs;
    }
  }

  lemma {:induction false} MeasuresPrefix(specs: seq<Spec>, m: nat, clock: nat -> int)
    requires m <= |specs|
    ensures Measures(specs[..m], clock) <= Measures(specs, clock)
    decreases |specs|
  {
    if m < |specs| {
      var init := specs[..|specs| - 1];
      assert init[..m] == specs[..m];
      MeasuresPrefix(init, m, clock);
      var s := specs[|specs| - 1];
      assert Measures(specs, clock) == Measures(init, clock)
        + (Measured(s, clock, 2 * TotalIterations(init), Times(s.iterationCycles)) + [Aggregate(s.name, s.iterationCycles)]);
      PrefixTrans(Measures(specs[..m], clock), Measures(init, clock), Measures(specs, clock));
    } else {
      assert specs[..m] == specs;
    }
  }

  /** After the warmup of `specs[i]`, whose cycles are `len` events long. */
  lemma WarmupDone(specs: seq<Spec>, i: nat, len: nat, v: Variant)
    requires i < |specs| && len == |WarmupCycle(specs[i], v)|
    ensures Warmups(specs[..i], v) + Repeat(WarmupCycle(specs[i], v), Times(specs[i].warmupCycles))
            == Warmups(specs[..i + 1], v)
    ensures |Warmups(specs[..i + 1], v)| == |Warmups(specs[..i], v)| + Times(specs[i].warmupCycles) * len
  {
    assert specs[..i + 1][..i] == specs[..i];
  }

  /** After the whole second pass. */
  lemma AfterMeasures(specs: seq<Spec>, clock: nat -> int, v: Variant)
    ensures Warmups(specs[..|specs|], v) == Warmups(specs, v)
    ensures Measures(specs[..|specs|], clock) == Measures(specs, clock)
  {
    assert specs[..|specs|] == specs;
  }

  /** After the division of `specs[i]`: the trace so far lies in `Scheduled`. */
  lemma ClosedPrefix(specs: seq<Spec>, i: nat, clock: nat -> int, v: Variant)
    requires i < |specs|
    ensures Warmups(specs, v) + Measures(specs[..i + 1], clock) <= Scheduled(specs, clock, v)
  {
    MeasuresPrefix(specs, i + 1, clock);
    PrefixAppend(Warmups(specs, v), Measures(specs[..i + 1], clock), Measures(specs, clock));
  }

  /** After the division that closes the timed loop of `specs[i]`. */
  lemma AfterMeasure(specs: seq<Spec>, i: nat, clock: nat -> int)
    requires i < |specs|
    ensures var s := specs[i];
      && Measures(specs[..i], clock) + Measured(s, clock, FirstReading(specs, i), Times(s.iterationCycles))
           + [Aggregate(s.name, s.iterationCycles)] == Measures(specs[..i + 1], clock)
      && FirstReading(specs, i + 1) == FirstReading(specs, i) + 2 * Times(s.iterationCycles)
  {
    assert specs[..i + 1][..i] == specs[..i];
  }

  // ---------------------------------------------------------------------
  // Which event `Scheduled` holds at each position.

  /** The length of the first pass once the warmups of `specs[..i]` are done. */
  function WarmedUp(specs: seq<Spec>, i: nat, v: Variant): (p: nat)
    requires i <= |specs|
    ensures p == |Warmups(specs[..i], v)| && p <= |Warmups(specs, v)|
  {
    WarmupsPrefix(specs, i, v);
    |Warmups(specs[..i], v)|
  }

  /** The length of the trace once the timed loops of `specs[..i]` are done. */
  function Timed(specs: seq<Spec>, i: nat, clock: nat -> int, v: Variant): (p: nat)
    requires i <= |specs|
    ensures p == |Warmups(specs, v)| + |Measures(specs[..i], clock)| && p <= |Scheduled(specs, clock, v)|
  {
    MeasuresPrefix(specs, i, clock);
    |Warmups(specs, v)| + |Measures(specs[..i], clock)|
  }

  /** Event `k` of cycle `w` of `n` repeats of a block `len` events long. */
  lemma {:induction false} RepeatAt(block: seq<Event>, len: nat, n: nat, w: nat, k: nat)
    requires len == |block| && w < n && k < len
    ensures w * len + k < n * len && Repeat(block, n)[w * len + k] == block[k]
  {
    assert n * len == (n - 1) * len + len;
    if w < n - 1 {
      RepeatAt(block, len, n - 1, w, k);
    } else {
      assert Repeat(block, n) == Repeat(block, n - 1) + block;
    }
  }

  /** Event `k` of cycle `w` in a trace that holds `n` repeats of a block
      from position `base` on. */
  lemma RepeatIn(full: seq<Event>, base: nat, block: seq<Event>, len: nat, n: nat, w: nat, k: nat)
    requires len == |block| && w < n && k < len
    requires base + n * len <= |full| && full[base..base + n * len] == Repeat(block, n)
    ensures base + w * len + k < |full| && full[base + w * len + k] == block[k]
  {
    RepeatAt(block, len, n, w, k);
    assert full[base + w * len + k] == full[base..base + n * len][w * len + k];
  }

  /** Where the warmup loop of `specs[i]`, whose cycles are `len` events
      long, lies in `Scheduled`. */
  lemma WarmupLoopIn(specs: seq<Spec>, i: nat, len: nat, clock: nat -> int, v: Variant)
    requires i < |specs| && len == |WarmupCycle(specs[i], v)|
    ensures var full, p, n := Scheduled(specs, clock, v), WarmedUp(specs, i, v), Times(specs[i].warmupCycles);
      && p + n * len <= |full|
      && full[p..p + n * len] == Repeat(WarmupCycle(specs[i], v), n)
      && p + n * len == WarmedUp(specs, i + 1, v)
  {
    var a, r := Warmups(specs[..i], v), Repeat(WarmupCycle(specs[i], v), Times(specs[i].warmupCycles));
    WarmupDone(specs, i, len, v);
    WarmupsPrefix(specs, i + 1, v);
    PrefixOfConcat(Warmups(specs, v), Measures(specs, clock));
    PrefixTrans(a + r, Warmups(specs, v), Scheduled(specs, clock, v));
    SliceOf(a, r, Scheduled(specs, clock, v));
  }

  lemma PrefixOfConcat(a: seq<Event>, b: seq<Event>)
    ensures a <= a + b
  {
    assert (a + b)[..|a|] == a;
  }

  /** The part `r` of a prefix `a + r` of `full`, located in `full`. */
  lemma SliceOf(a: seq<Event>, r: seq<Event>, full: seq<Event>)
    requires a + r <= full
    ensures |a| + |r| <= |full| && full[|a|..|a| + |r|] == r
  {
    assert full[..|a| + |r|] == a + r;
    assert full[|a|..|a| + |r|] == full[..|a| + |r|][|a|..];
    assert (a + r)[|a|..] == r;
  }

  /** `full` holds, from position `p` to position `q`, the warmup loop of
      `s`. */
  ghost predicate WarmupAt(full: seq<Event>, s: Spec, v: Variant, p: nat, q: nat)
  {
    var n, block := Times(s.warmupCycles), WarmupCycle(s, v);
    && q == p + n * |block| && q <= |full| && full[p..q] == Repeat(block, n)
  }

  /** `full` holds the warmup loop of each of `specs` from `marks[i]` to
      `marks[i + 1]`. */
  ghost predicate WarmupsAt(full: seq<Event>, specs: seq<Spec>, v: Variant, marks: seq<nat>)
  {
    && |marks| == |specs| + 1
    && forall i {:trigger WarmupAt(full, specs[i], v, marks[i], marks[i + 1])} ::
         0 <= i < |specs| ==> WarmupAt(full, specs[i], v, marks[i], marks[i + 1])
  }

  /** Where each spec's warmup loop starts in `Scheduled`, and where the
      first pass ends. */
  function Marks(specs: seq<Spec>, v: Variant): (marks: seq<nat>)
    ensures |marks| == |specs| + 1
    ensures forall i :: 0 <= i <= |specs| ==> marks[i] == WarmedUp(specs, i, v)
  {
    seq(|specs| + 1, i requires 0 <= i <= |specs| => WarmedUp(specs, i, v))
  }

  /** The first pass of `Scheduled`, loop by loop. */
  lemma WarmupsLaidOut(specs: seq<Spec>, clock: nat -> int, v: Variant)
    ensures WarmupsAt(Scheduled(specs, clock, v), specs, v, Marks(specs, v))
    ensures Marks(specs, v)[0] == 0 && Marks(specs, v)[|specs|] == Timed(specs, 0, clock, v)
  {
    var full, marks := Scheduled(specs, clock, v), Marks(specs, v);
    forall i | 0 <= i < |specs| ensures WarmupAt(full, specs[i], v, marks[i], marks[i + 1]) {
      WarmupLoopIn(specs, i, |WarmupCycle(specs[i], v)|, clock, v);
    }
    AfterMeasures(specs, clock, v);
    assert specs[..0] == [];
  }

  /** The events of timed iteration `j`, inside the first `n`. */
  lemma {:induction false} MeasuredAt(s: Spec, clock: nat -> int, t0: nat, n: nat, j: nat)
    requires j < n
    ensures var m := Measured(s, clock, t0, n);
      && m[4 * j] == Tick(clock(t0 + 2 * j))
      && m[4 * j + 1] == Call(s.name, ActionRole, s.action, Measure)
      && m[4 * j + 2] == Tick(clock(t0 + 2 * j + 1))
      && m[4 * j + 3] == Call(s.name, CleanupRole, NoOp, Measure)
    decreases n
  {
    if j < n - 1 {
      MeasuredAt(s, clock, t0, n - 1, j);
    }
  }

  /** The events of timed iteration `j` in a trace that holds the first
      `n` from position `base` on. */
  lemma MeasuredIn(full: seq<Event>, base: nat, s: Spec, clock: nat -> int, t0: nat, n: nat, j: nat)
    requires j < n && base + 4 * n <= |full| && full[base..base + 4 * n] == Measured(s, clock, t0, n)
    ensures var p := base + 4 * j;
      && p + 4 <= |full|
      && full[p] == Tick(clock(t0 + 2 * j))
      && full[p + 1] == Call(s.name, ActionRole, s.action, Measure)
      && full[p + 2] == Tick(clock(t0 + 2 * j + 1))
      && full[p + 3] == Call(s.name, CleanupRole, NoOp, Measure)
  {
    MeasuredAt(s, clock, t0, n, j);
    var m := full[base..base + 4 * n];
    assert full[base + 4 * j] == m[4 * j] && full[base + 4 * j + 1] == m[4 * j + 1];
    assert full[base + 4 * j + 2] == m[4 * j + 2] && full[base + 4 * j + 3] == m[4 * j + 3];
  }

  /** The four events of timed iteration `j` in a trace whose timed loop
      starts at position `base`. */
  function WindowOf(full: seq<Event>, base: nat, j: nat): seq<Event>
    requires base + 4 * j + 4 <= |full|
  {
    full[base + 4 * j..base + 4 * j + 4]
  }

  /** `full` holds, from position `base` on, `n` timed iterations of `s`
      whose first clock reading is number `t0`. */
  ghost predicate MeasuredFrom(full: seq<Event>, base: nat, s: Spec, clock: nat -> int, t0: nat, n: nat)
  {
    && base + 4 * n <= |full|
    && forall j :: 0 <= j < n ==>
         WindowOf(full, base, j) == Iteration(s, clock(t0 + 2 * j), clock(t0 + 2 * j + 1))
  }

  lemma MeasuredWindows(full: seq<Event>, base: nat, s: Spec, clock: nat -> int, t0: nat, n: nat)
    requires base + 4 * n <= |full| && full[base..base + 4 * n] == Measured(s, clock, t0, n)
    ensures MeasuredFrom(full, base, s, clock, t0, n)
  {
    forall j | 0 <= j < n
      ensures WindowOf(full, base, j) == Iteration(s, clock(t0 + 2 * j), clock(t0 + 2 * j + 1))
    {
      MeasuredIn(full, base, s, clock, t0, n, j);
    }
  }

  /** The timed loop of `specs[i]` and the division after it move the
      position by `4 * n + 1` and the clock by `2 * n` readings. */
  lemma TimedStep(specs: seq<Spec>, i: nat, clock: nat -> int, v: Variant)
    requires i < |specs|
    ensures var n := Times(specs[i].iterationCycles);
      && Timed(specs, i + 1, clock, v) == Timed(specs, i, clock, v) + 4 * n + 1
      && FirstReading(specs, i + 1) == FirstReading(specs, i) + 2 * n
  {
    AfterMeasure(specs, i, clock);
  }

  /** Where the events of the timed loop of `specs[i]` and the division
      after it lie in `Scheduled`. */
  lemma TimedSlice(specs: seq<Spec>, i: nat, clock: nat -> int, v: Variant)
    requires i < |specs|
    ensures var full, p, n := Scheduled(specs, clock, v), Timed(specs, i, clock, v), Times(specs[i].iterationCycles);
      && p + 4 * n < |full|
      && full[p..p + 4 * n] == Measured(specs[i], clock, FirstReading(specs, i), n)
      && full[p + 4 * n] == Aggregate(specs[i].name, specs[i].iterationCycles)
  {
    AfterMeasure(specs, i, clock);
    ClosedPrefix(specs, i, clock, v);
    InMiddle(Warmups(specs, v), Measures(specs[..i], clock),
             Measured(specs[i], clock, FirstReading(specs, i), Times(specs[i].iterationCycles)),
             Aggregate(specs[i].name, specs[i].iterationCycles), Measures(specs[..i + 1], clock),
             Scheduled(specs, clock, v), Timed(specs, i, clock, v), 4 * Times(specs[i].iterationCycles));
  }

  /** The timed loop of `specs[i]` in `Scheduled`, window by window. */
  lemma TimedLoopIn(specs: seq<Spec>, i: nat, clock: nat -> int, v: Variant)
    requires i < |specs|
    ensures var full, p, n := Scheduled(specs, clock, v), Timed(specs, i, clock, v), Times(specs[i].iterationCycles);
      && p + 4 * n < |full|
      && MeasuredFrom(full, p, specs[i], clock, FirstReading(specs, i), n)
      && full[p + 4 * n] == Aggregate(specs[i].name, specs[i].iterationCycles)
      && p + 4 * n + 1 == Timed(specs, i + 1, clock, v)
      && FirstReading(specs, i + 1) == FirstReading(specs, i) + 2 * n
  {
    TimedStep(specs, i, clock, v);
    TimedSlice(specs, i, clock, v);
    MeasuredWindows(Scheduled(specs, clock, v), Timed(specs, i, clock, v), specs[i], clock, FirstReading(specs, i),
                    Times(specs[i].iterationCycles));
  }

  /** The parts `m` and `g` of a prefix `w + (b + m + [g])` of `full`,
      located in `full`. */
  lemma InMiddle(w: seq<Event>, b: seq<Event>, m: seq<Event>, g: Event, c: seq<Event>, full: seq<Event>,
                 p: nat, k: nat)
    requires b + m + [g] == c && w + c <= full && p == |w| + |b| && k == |m|
    ensures p + k < |full| && full[p..p + k] == m && full[p + k] == g
  {
    var x := w + c;
    assert x == w + b + m + [g];
    assert full[..|x|] == x;
    assert full[p..p + |m|] == x[p..p + |m|];
    assert x[p..p + |m|] == m;
    assert x[p + |m|] == g;
  }

  /** `full` holds, from position `p` on, the timed loop of `s` with first
      clock reading number `t0`, then the division after it, which ends at
      position `q`. */
  ghost predicate LoopAt(full: seq<Event>, s: Spec, clock: nat -> int, t0: nat, p: nat, q: nat)
  {
    var n := Times(s.iterationCycles);
    && MeasuredFrom(full, p, s, clock, t0, n)
    && p + 4 * n < |full| && full[p + 4 * n] == Aggregate(s.name, s.iterationCycles)
    && q == p + 4 * n + 1
  }

  /** `full` holds the second pass over `specs`, spec `i` from position
      `starts[i]` on. */
  ghost predicate LoopsAt(full: seq<Event>, specs: seq<Spec>, clock: nat -> int, starts: seq<nat>)
  {
    && |starts| == |specs| + 1
    && forall i {:trigger LoopAt(full, specs[i], clock, FirstReading(specs, i), starts[i], starts[i + 1])} ::
         0 <= i < |specs| ==>
         && LoopAt(full, specs[i], clock, FirstReading(specs, i), starts[i], starts[i + 1])
         && FirstReading(specs, i + 1) == FirstReading(specs, i) + 2 * Times(specs[i].iterationCycles)
  }

  /** Where each spec's timed loop starts in `Scheduled`, and where the
      second pass ends. */
  function Starts(specs: seq<Spec>, clock: nat -> int, v: Variant): (starts: seq<nat>)
    ensures |starts| == |specs| + 1
    ensures forall i :: 0 <= i <= |specs| ==> starts[i] == Timed(specs, i, clock, v)
  {
    seq(|specs| + 1, i requires 0 <= i <= |specs| => Timed(specs, i, clock, v))
  }

  lemma LoopsLaidOut(specs: seq<Spec>, clock: nat -> int, v: Variant)
    ensures LoopsAt(Scheduled(specs, clock, v), specs, clock, Starts(specs, clock, v))
    ensures Starts(specs, clock, v)[|specs|] == |Scheduled(specs, clock, v)|
  {
    var full, starts := Scheduled(specs, clock, v), Starts(specs, clock, v);
    forall i | 0 <= i < |specs|
      ensures LoopAt(full, specs[i], clock, FirstReading(specs, i), starts[i], starts[i + 1])
      ensures FirstReading(specs, i + 1) == FirstReading(specs, i) + 2 * Times(specs[i].iterationCycles)
    {
      TimedLoopIn(specs, i, clock, v);
    }
    AfterMeasures(specs, clock, v);
  }
}
