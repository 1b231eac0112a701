/** What every run of either engine does, read off the trace `Scheduled`:
    the warmup pass comes first, each spec's runnables are invoked the number
    of times its counts say, the cleanup is always the no-op, the clock is
    read in order, and a run with no throwing action fails exactly when some
    spec asks for zero iterations. */
module TraceFacts {
  import opened Model
  import opened Schedule

  /** Every event of `t` has property `p`. */
  ghost predicate All(t: seq<Event>, p: Event -> bool)
  {
    forall k :: 0 <= k < |t| ==> p(t[k])
  }

  lemma AllAppend(a: seq<Event>, b: seq<Event>, p: Event -> bool)
    ensures All(a + b, p) <==> All(a, p) && All(b, p)
  {
    if All(a, p) && All(b, p) {
      forall k | 0 <= k < |a + b| ensures p((a + b)[k]) {
        if k >= |a| {
          assert (a + b)[k] == b[k - |a|];
        }
      }
    }
    if All(a + b, p) {
      forall k | 0 <= k < |a| ensures p(a[k]) {
        assert a[k] == (a + b)[k];
      }
      forall k | 0 <= k < |b| ensures p(b[k]) {
        assert b[k] == (a + b)[|a| + k];
      }
    }
  }

  lemma AllInit(t: seq<Event>, p: Event -> bool)
    requires t != [] && All(t, p)
    ensures All(t[..|t| - 1], p) && p(t[|t| - 1])
  {
    AllAppend(t[..|t| - 1], [t[|t| - 1]], p);
    assert t == t[..|t| - 1] + [t[|t| - 1]];
  }

  lemma {:induction false} AllRepeat(block: seq<Event>, n: nat, p: Event -> bool)
    requires All(block, p)
    ensures All(Repeat(block, n), p)
  {
    if n > 0 {
      AllRepeat(block, n - 1, p);
      AllAppend(Repeat(block, n - 1), block, p);
    }
  }

  lemma {:induction false} AllWarmups(specs: seq<Spec>, v: Variant, p: Event -> bool)
    requires forall i :: 0 <= i < |specs| ==> All(WarmupCycle(specs[i], v), p)
    ensures All(Warmups(specs, v), p)
    decreases |specs|
  {
    if specs != [] {
      var init, s := specs[..|specs| - 1], specs[|specs| - 1];
      assert forall i :: 0 <= i < |init| ==> init[i] == specs[i];
      AllWarmups(init, v, p);
      AllRepeat(WarmupCycle(s, v), Times(s.warmupCycles), p);
      AllAppend(Warmups(init, v), Repeat(WarmupCycle(s, v), Times(s.warmupCycles)), p);
    }
  }

  lemma {:induction false} AllMeasured(s: Spec, clock: nat -> int, t0: nat, n: nat, p: Event -> bool)
    requires forall j :: 0 <= j < n ==> All(Iteration(s, clock(t0 + 2 * j), clock(t0 + 2 * j + 1)), p)
    ensures All(Measured(s, clock, t0, n), p)
  {
    if n > 0 {
      AllMeasured(s, clock, t0, n - 1, p);
      AllAppend(Measured(s, clock, t0, n - 1), Iteration(s, clock(t0 + 2 * (n - 1)), clock(t0 + 2 * (n - 1) + 1)), p);
    }
  }

  lemma {:induction false} AllMeasures(specs: seq<Spec>, clock: nat -> int, p: Event -> bool)
    requires forall i, before, after :: 0 <= i < |specs| ==> All(Iteration(specs[i], before, after), p)
    requires forall i :: 0 <= i < |specs| ==> p(Aggregate(specs[i].name, specs[i].iterationCycles))
    ensures All(Measures(specs, clock), p)
    decreases |specs|
  {
    if specs != [] {
      var init, s := specs[..|specs| - 1], specs[|specs| - 1];
      assert forall i :: 0 <= i < |init| ==> init[i] == specs[i];
      AllMeasures(init, clock, p);
      var t0, n := 2 * TotalIterations(init), Times(s.iterationCycles);
      AllMeasured(s, clock, t0, n, p);
      AllAppend(Measures(init, clock), Measured(s, clock, t0, n), p);
      AllAppend(Measures(init, clock) + Measured(s, clock, t0, n), [Aggregate(s.name, s.iterationCycles)], p);
    }
  }

  predicate NotWarmup(e: Event) { !IsWarmup(e) }

  /** Every event before position `|Warmups|` is a warmup call and none
      after it is: all warmups, of every spec, come before the first timed
      event. */
  lemma WarmupsFirst(specs: seq<Spec>, clock: nat -> int, v: Variant)
    ensures var full := Scheduled(specs, clock, v);
      forall k :: 0 <= k < |full| ==> (IsWarmup(full[k]) <==> k < |Warmups(specs, v)|)
  {
    AllWarmups(specs, v, IsWarmup);
    AllMeasures(specs, clock, NotWarmup);
    var w, m := Warmups(specs, v), Measures(specs, clock);
    forall k | 0 <= k < |w + m| ensures IsWarmup((w + m)[k]) <==> k < |w| {
      if k >= |w| {
        assert (w + m)[k] == m[k - |w|];
      }
    }
  }

  predicate CleanupIsNoOp(e: Event) { e.Call? && e.role == CleanupRole ==> e.runnable == NoOp }

  /** Every cleanup in the reference trace is the default no-op
      (`RunFacts.VarlanvPerformed` and `RunFacts.ImplPerformed` carry this
      over to the events a run performs). */
  lemma OnlyNoOpCleanups(specs: seq<Spec>, clock: nat -> int, v: Variant)
    ensures All(Scheduled(specs, clock, v), CleanupIsNoOp)
  {
    AllWarmups(specs, v, CleanupIsNoOp);
    AllMeasures(specs, clock, CleanupIsNoOp);
    AllAppend(Warmups(specs, v), Measures(specs, clock), CleanupIsNoOp);
  }

  predicate IsAction(e: Event) { e.Call? && e.role == ActionRole }

  /** The plain engine's warmup pass invokes only actions, never a cleanup. */
  lemma ImplWarmupsOnlyActions(specs: seq<Spec>)
    ensures All(Warmups(specs, Impl), IsAction)
  {
    AllWarmups(specs, Impl, IsAction);
  }

  // ---------------------------------------------------------------------
  // How many times each runnable runs.

  predicate IsCallOf(e: Event, name: string, role: Role, phase: Phase)
  {
    e.Call? && e.subject == name && e.role == role && e.phase == phase
  }

  /** How many events of `t` invoke the `role` runnable of subject `name`
      in `phase`. */
  function CallsOf(t: seq<Event>, name: string, role: Role, phase: Phase): nat
  {
    if t == [] then 0
    else CallsOf(t[..|t| - 1], name, role, phase) + if IsCallOf(t[|t| - 1], name, role, phase) then 1 else 0
  }

  lemma {:induction false} CallsOfAppend(a: seq<Event>, b: seq<Event>, name: string, role: Role, phase: Phase)
    ensures CallsOf(a + b, name, role, phase) == CallsOf(a, name, role, phase) + CallsOf(b, name, role, phase)
    decreases |b|
  {
    if b == [] {
      assert a + b == a;
    } else {
      var init := b[..|b| - 1];
      assert (a + b)[..|a + b| - 1] == a + init;
      CallsOfAppend(a, init, name, role, phase);
    }
  }

  lemma {:induction false} CallsOfRepeat(block: seq<Event>, n: nat, name: string, role: Role, phase: Phase)
    ensures CallsOf(Repeat(block, n), name, role, phase) == n * CallsOf(block, name, role, phase)
  {
    if n > 0 {
      CallsOfRepeat(block, n - 1, name, role, phase);
      CallsOfAppend(Repeat(block, n - 1), block, name, role, phase);
      assert (n - 1) * CallsOf(block, name, role, phase) + CallsOf(block, name, role, phase)
             == n * CallsOf(block, name, role, phase);
    }
  }

  /** How many times one warmup cycle invokes each runnable of its own spec:
      the action once; the cleanup once in the calibrated engine and never
      in the plain one. */
  function CycleCalls(role: Role, v: Variant): nat
  {
    if role == ActionRole || v == Varlanv then 1 else 0
  }

  lemma CallsOfOne(e: Event, name: string, role: Role, phase: Phase)
    ensures CallsOf([e], name, role, phase) == if IsCallOf(e, name, role, phase) then 1 else 0
  {
    assert [e][..0] == [];
  }

  lemma CycleCallsOf(s: Spec, name: string, role: Role, v: Variant)
    ensures CallsOf(WarmupCycle(s, v), name, role, Warmup) == if name == s.name then CycleCalls(role, v) else 0
  {
    var c := WarmupCycle(s, v);
    CallsOfOne(c[0], name, role, Warmup);
    if v == Varlanv {
      assert c == [c[0]] + [c[1]];
      CallsOfOne(c[1], name, role, Warmup);
      CallsOfAppend([c[0]], [c[1]], name, role, Warmup);
    }
  }

  /** In the first pass, the runnables of the spec named `specs[i].name`
      run `warmupCycles` times `CycleCalls` times, when names are distinct. */
  lemma {:induction false} WarmupCounts(specs: seq<Spec>, i: nat, role: Role, v: Variant)
    requires i < |specs| && Distinct(Names(specs))
    ensures CallsOf(Warmups(specs, v), specs[i].name, role, Warmup)
            == Times(specs[i].warmupCycles) * CycleCalls(role, v)
    decreases |specs|
  {
    var init, s := specs[..|specs| - 1], specs[|specs| - 1];
    var name := specs[i].name;
    var rep := Repeat(WarmupCycle(s, v), Times(s.warmupCycles));
    CallsOfAppend(Warmups(init, v), rep, name, role, Warmup);
    CallsOfRepeat(WarmupCycle(s, v), Times(s.warmupCycles), name, role, Warmup);
    CycleCallsOf(s, name, role, v);
    if i == |specs| - 1 {
      NoWarmupCallsOf(init, name, role, v);
    } else {
      assert Names(init) == Names(specs)[..|specs| - 1];
      assert init[i] == specs[i];
      WarmupCounts(init, i, role, v);
      assert Names(specs)[i] != Names(specs)[|specs| - 1];
    }
  }

  lemma {:induction false} NoWarmupCallsOf(specs: seq<Spec>, name: string, role: Role, v: Variant)
    requires forall j :: 0 <= j < |specs| ==> specs[j].name != name
    ensures CallsOf(Warmups(specs, v), name, role, Warmup) == 0
    decreases |specs|
  {
    if specs != [] {
      var init, s := specs[..|specs| - 1], specs[|specs| - 1];
      assert forall j :: 0 <= j < |init| ==> init[j] == specs[j];
      NoWarmupCallsOf(init, name, role, v);
      CallsOfAppend(Warmups(init, v), Repeat(WarmupCycle(s, v), Times(s.warmupCycles)), name, role, Warmup);
      CallsOfRepeat(WarmupCycle(s, v), Times(s.warmupCycles), name, role, Warmup);
      CycleCallsOf(s, name, role, v);
    }
  }

  lemma IterationCalls(s: Spec, before: int, after: int, name: string, role: Role)
    ensures CallsOf(Iteration(s, before, after), name, role, Measure) == if name == s.name then 1 else 0
  {
    var it := Iteration(s, before, after);
    assert it == [it[0], it[1]] + [it[2], it[3]];
    assert [it[0], it[1]] == [it[0]] + [it[1]];
    assert [it[2], it[3]] == [it[2]] + [it[3]];
    CallsOfOne(it[0], name, role, Measure);
    CallsOfOne(it[1], name, role, Measure);
    CallsOfOne(it[2], name, role, Measure);
    CallsOfOne(it[3], name, role, Measure);
    CallsOfAppend([it[0]], [it[1]], name, role, Measure);
    CallsOfAppend([it[2]], [it[3]], name, role, Measure);
    CallsOfAppend([it[0], it[1]], [it[2], it[3]], name, role, Measure);
  }

  lemma {:induction false} MeasuredCalls(s: Spec, clock: nat -> int, t0: nat, n: nat, name: string, role: Role)
    ensures CallsOf(Measured(s, clock, t0, n), name, role, Measure) == if name == s.name then n else 0
  {
    if n > 0 {
      MeasuredCalls(s, clock, t0, n - 1, name, role);
      var it := Iteration(s, clock(t0 + 2 * (n - 1)), clock(t0 + 2 * (n - 1) + 1));
      CallsOfAppend(Measured(s, clock, t0, n - 1), it, name, role, Measure);
      IterationCalls(s, clock(t0 + 2 * (n - 1)), clock(t0 + 2 * (n - 1) + 1), name, role);
    }
  }

  /** The events the second pass has for the last of `specs`. */
  lemma MeasuresLast(specs: seq<Spec>, clock: nat -> int, name: string, role: Role)
    requires specs != []
    ensures var init, s := specs[..|specs| - 1], specs[|specs| - 1];
      CallsOf(Measures(specs, clock), name, role, Measure)
      == CallsOf(Measures(init, clock), name, role, Measure) + if name == s.name then Times(s.iterationCycles) else 0
  {
    var init, s := specs[..|specs| - 1], specs[|specs| - 1];
    var t0, n := 2 * TotalIterations(init), Times(s.iterationCycles);
    var m := Measures(init, clock) + Measured(s, clock, t0, n);
    CallsOfAppend(Measures(init, clock), Measured(s, clock, t0, n), name, role, Measure);
    MeasuredCalls(s, clock, t0, n, name, role);
    CallsOfAppend(m, [Aggregate(s.name, s.iterationCycles)], name, role, Measure);
    assert [Aggregate(s.name, s.iterationCycles)][..0] == [];
  }

  /** In the second pass, the action and the cleanup of each spec run
      `iterationCycles` times, when names are distinct. */
  lemma {:induction false} MeasureCounts(specs: seq<Spec>, i: nat, clock: nat -> int, role: Role)
    requires i < |specs| && Distinct(Names(specs))
    ensures CallsOf(Measures(specs, clock), specs[i].name, role, Measure) == Times(specs[i].iterationCycles)
    decreases |specs|
  {
    var init := specs[..|specs| - 1];
    MeasuresLast(specs, clock, specs[i].name, role);
    if i == |specs| - 1 {
      NoMeasureCallsOf(init, clock, specs[i].name, role);
    } else {
      assert Names(init) == Names(specs)[..|specs| - 1];
      assert init[i] == specs[i];
      MeasureCounts(init, i, clock, role);
      assert Names(specs)[i] != Names(specs)[|specs| - 1];
    }
  }

  lemma {:induction false} NoMeasureCallsOf(specs: seq<Spec>, clock: nat -> int, name: string, role: Role)
    requires forall j :: 0 <= j < |specs| ==> specs[j].name != name
    ensures CallsOf(Measures(specs, clock), name, role, Measure) == 0
    decreases |specs|
  {
    if specs != [] {
      var init := specs[..|specs| - 1];
      assert forall j :: 0 <= j < |init| ==> init[j] == specs[j];
      NoMeasureCallsOf(init, clock, name, role);
      MeasuresLast(specs, clock, name, role);
    }
  }

  predicate IsMeasure(e: Event) { e.Call? ==> e.phase == Measure }

  /** Each runnable of each spec, over the whole run: `warmupCycles` times
      `CycleCalls` in the first pass and `iterationCycles` times in the
      second. */
  lemma RunCounts(specs: seq<Spec>, i: nat, clock: nat -> int, role: Role, v: Variant)
    requires i < |specs| && Distinct(Names(specs))
    ensures var full, name := Scheduled(specs, clock, v), specs[i].name;
      && CallsOf(full, name, role, Warmup) == Times(specs[i].warmupCycles) * CycleCalls(role, v)
      && CallsOf(full, name, role, Measure) == Times(specs[i].iterationCycles)
  {
    WarmupCounts(specs, i, role, v);
    MeasureCounts(specs, i, clock, role);
    AllWarmups(specs, v, IsWarmup);
    AllMeasures(specs, clock, IsMeasure);
    PhaseCounts(Warmups(specs, v), Measures(specs, clock), specs[i].name, role);
  }

  /** The calls of a warmup pass followed by a timed pass, phase by phase. */
  lemma PhaseCounts(w: seq<Event>, m: seq<Event>, name: string, role: Role)
    requires All(w, IsWarmup) && All(m, IsMeasure)
    ensures CallsOf(w + m, name, role, Warmup) == CallsOf(w, name, role, Warmup)
    ensures CallsOf(w + m, name, role, Measure) == CallsOf(m, name, role, Measure)
  {
    CallsOfAppend(w, m, name, role, Warmup);
    CallsOfAppend(w, m, name, role, Measure);
    NoneOf(w, name, role, Measure);
    NoneOfWarmup(m, name, role);
  }

  lemma {:induction false} NoneOf(t: seq<Event>, name: string, role: Role, phase: Phase)
    requires All(t, IsWarmup) && phase == Measure
    ensures CallsOf(t, name, role, phase) == 0
    decreases |t|
  {
    if t != [] {
      AllInit(t, IsWarmup);
      NoneOf(t[..|t| - 1], name, role, phase);
    }
  }

  lemma {:induction false} NoneOfWarmup(t: seq<Event>, name: string, role: Role)
    requires All(t, IsMeasure)
    ensures CallsOf(t, name, role, Warmup) == 0
    decreases |t|
  {
    if t != [] {
      AllInit(t, IsMeasure);
      NoneOfWarmup(t[..|t| - 1], name, role);
    }
  }

  // ---------------------------------------------------------------------
  // The clock.

  /** The readings the `Tick` events of `t` record, in order. */
  function Readings(t: seq<Event>): seq<int>
  {
    if t == [] then []
    else Readings(t[..|t| - 1]) + if t[|t| - 1].Tick? then [t[|t| - 1].reading] else []
  }

  /** Readings `from` to `from + n - 1` of the clock. */
  function ClockFrom(clock: nat -> int, from: nat, n: nat): (r: seq<int>)
    ensures |r| == n && forall k :: 0 <= k < n ==> r[k] == clock(from + k)
  {
    seq(n, k requires 0 <= k < n => clock(from + k))
  }

  lemma ClockFromAppend(clock: nat -> int, from: nat, n: nat, mid: nat, m: nat)
    requires mid == from + n
    ensures ClockFrom(clock, from, n) + ClockFrom(clock, mid, m) == ClockFrom(clock, from, n + m)
  {
    var a, b, c := ClockFrom(clock, from, n), ClockFrom(clock, mid, m), ClockFrom(clock, from, n + m);
    forall k | 0 <= k < n + m
      ensures (a + b)[k] == c[k]
    {
      if k >= n {
        assert b[k - n] == clock(from + n + (k - n));
      }
    }
  }

  lemma {:induction false} ReadingsAppend(a: seq<Event>, b: seq<Event>)
    ensures Readings(a + b) == Readings(a) + Readings(b)
    decreases |b|
  {
    if b == [] {
      assert a + b == a;
    } else {
      var init := b[..|b| - 1];
      assert (a + b)[..|a + b| - 1] == a + init;
      ReadingsAppend(a, init);
    }
  }

  lemma {:induction false} NoReadings(t: seq<Event>)
    requires All(t, IsWarmup)
    ensures Readings(t) == []
    decreases |t|
  {
    if t != [] {
      AllInit(t, IsWarmup);
      NoReadings(t[..|t| - 1]);
    }
  }

  lemma ReadingsOne(e: Event)
    ensures Readings([e]) == if e.Tick? then [e.reading] else []
  {
    assert [e][..0] == [];
  }

  lemma IterationReadings(s: Spec, before: int, after: int)
    ensures Readings(Iteration(s, before, after)) == [before, after]
  {
    var it := Iteration(s, before, after);
    assert it == [it[0], it[1]] + [it[2], it[3]];
    assert [it[0], it[1]] == [it[0]] + [it[1]];
    assert [it[2], it[3]] == [it[2]] + [it[3]];
    ReadingsOne(it[0]);
    ReadingsOne(it[1]);
    ReadingsOne(it[2]);
    ReadingsOne(it[3]);
    ReadingsAppend([it[0]], [it[1]]);
    ReadingsAppend([it[2]], [it[3]]);
    ReadingsAppend([it[0], it[1]], [it[2], it[3]]);
  }

  lemma {:induction false} MeasuredReadings(s: Spec, clock: nat -> int, t0: nat, n: nat)
    ensures Readings(Measured(s, clock, t0, n)) == ClockFrom(clock, t0, 2 * n)
  {
    if n > 0 {
      MeasuredReadings(s, clock, t0, n - 1);
      var before, after := clock(t0 + 2 * (n - 1)), clock(t0 + 2 * (n - 1) + 1);
      ReadingsAppend(Measured(s, clock, t0, n - 1), Iteration(s, before, after));
      IterationReadings(s, before, after);
      assert ClockFrom(clock, t0, 2 * (n - 1)) + [before, after] == ClockFrom(clock, t0, 2 * n);
    }
  }

  lemma {:induction false} MeasuresReadings(specs: seq<Spec>, clock: nat -> int)
    ensures Readings(Measures(specs, clock)) == ClockFrom(clock, 0, 2 * TotalIterations(specs))
    decreases |specs|
  {
    if specs != [] {
      var init, s := specs[..|specs| - 1], specs[|specs| - 1];
      var t0, n := 2 * TotalIterations(init), Times(s.iterationCycles);
      var before, loop, g := Measures(init, clock), Measured(s, clock, t0, n), Aggregate(s.name, s.iterationCycles);
      assert Measures(specs, clock) == before + loop + [g];
      MeasuresReadings(init, clock);
      MeasuredReadings(s, clock, t0, n);
      calc {
        Readings(before + loop + [g]);
      == { ReadingsAppend(before + loop, [g]); ReadingsOne(g); }
        Readings(before + loop) + [];
      == { assert Readings(before + loop) + [] == Readings(before + loop); }
        Readings(before + loop);
      == { ReadingsAppend(before, loop); }
        ClockFrom(clock, 0, t0) + ClockFrom(clock, t0, 2 * n);
      == { ClockFromAppend(clock, 0, t0, t0, 2 * n); }
        ClockFrom(clock, 0, t0 + 2 * n);
      }
    }
  }

  /** A run reads the clock only in the timed loops, reading after reading:
      the `k`-th read returns `clock(k)`, two per timed iteration. */
  lemma ClockInOrder(specs: seq<Spec>, clock: nat -> int, v: Variant)
    ensures Readings(Scheduled(specs, clock, v)) == ClockFrom(clock, 0, 2 * TotalIterations(specs))
  {
    AllWarmups(specs, v, IsWarmup);
    NoReadings(Warmups(specs, v));
    MeasuresReadings(specs, clock);
    ReadingsAppend(Warmups(specs, v), Measures(specs, clock));
  }

  // ---------------------------------------------------------------------
  // When a run fails.

  /** With no throwing action, a run fails only at a division by zero
      iterations: it completes exactly when no spec asks for zero. */
  lemma CompletesIffNoZeroCycles(specs: seq<Spec>, clock: nat -> int, v: Variant)
    ensures var full := Scheduled(specs, clock, v);
      !FaultedTo(full, |full|, None) <==> NoZeroCycles(specs)
  {
    var full := Scheduled(specs, clock, v);
    if NoZeroCycles(specs) {
      AllWarmups(specs, v, Harmless);
      AllMeasures(specs, clock, Harmless);
      AllAppend(Warmups(specs, v), Measures(specs, clock), Harmless);
      NeverFaults(full, |full|);
    } else {
      var i :| 0 <= i < |specs| && specs[i].iterationCycles == 0;
      ZeroCyclesFault(specs, i, clock, v, None);
    }
  }

  predicate Harmless(e: Event) { e.Aggregate? ==> e.cycles != 0 }

  lemma {:induction false} NeverFaults(full: seq<Event>, k: nat)
    requires k <= |full| && All(full, Harmless)
    ensures !FaultedTo(full, k, None)
  {
    if k > 0 {
      NeverFaults(full, k - 1);
      assert Harmless(full[k - 1]);
    }
  }

  /** A spec with zero iterations makes every run fail, whichever action
      throws. */
  lemma ZeroCyclesFault(specs: seq<Spec>, i: nat, clock: nat -> int, v: Variant, failAt: Option<nat>)
    requires i < |specs| && specs[i].iterationCycles == 0
    ensures var full := Scheduled(specs, clock, v); FaultedTo(full, |full|, failAt)
  {
    var full := Scheduled(specs, clock, v);
    TimedLoopIn(specs, i, clock, v);
    var p := Timed(specs, i, clock, v);
    assert full[p] == Aggregate(specs[i].name, 0);
    assert FaultedTo(full, p + 1, failAt);
    FaultedMono(full, p + 1, |full|, failAt);
  }
}
