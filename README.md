# Micro-benchmark harness: a verified model

The harness times a caller's actions. Two variants live side by side, one per
`Bench.java` file:

- `com.varlanv.bench.Bench`, called the calibrated engine here. It subtracts a
  measured timer overhead from each average, and it runs the cleanup after the
  action during warmup too.
- `impl.Bench`, called the plain engine here. Its average is a `long`
  division with no overhead correction, and it runs the action alone during
  warmup.

Both files share the same builder and registry code:

- The staged builder runs `named` → `withWarmupCycles` → `withIterations` →
  `withAction` and checks each argument as it arrives.
- `Bench`, `BenchWithOneSubject` and `BenchWithManySubjects` register the
  specs; `BenchWithManySubjects` keeps them in an insertion-ordered map.
- `run` makes two passes. The first runs every spec's warmup, in
  registration order. The second runs each spec's timed loop: read the clock,
  run the action, read the clock, fold the duration into sum, minimum and
  maximum, run the cleanup. A division by `iterationCycles` then closes each
  spec's loop.

The builder and registry text is identical in the two files (for example
`impl/Bench.java` lines 13-84 and 178-256 match `com/varlanv/bench/Bench.java`
lines 15-86 and 212-290). The model therefore has one `Builder` module and one
`Registry` module, and two engine modules, `VarlanvEngine` and `ImplEngine`.

How a run is modelled:

- The clock is a function from the number of a `System.nanoTime()` reading to
  the value it returns.
- A caller's runnable is a `User(id)` value. Which invocation throws is a
  parameter, `failAt`: the number of the call, counted over the whole run. The
  default no-op cleanup never throws.
- `Schedule.Scheduled` is the reference trace of an uninterrupted run. Its
  events are runnable calls, clock readings and the closing divisions.
- Each engine's loops perform events one at a time through `Schedule.Emit`,
  which appends the event to the run's trace of performed events. `Run`
  returns that trace. Its `Ran` predicate ties the trace and the outcome to
  the reference trace:
  - the performed events are the first events of the reference trace;
  - the run throws exactly when the reference trace holds a fault;
  - it then stops at the first fault, with that fault's exception;
  - otherwise it has performed the whole reference trace and returns the
    result map given by `Results` or `StatsList`.
- Facts about the reference trace are lemmas: event order, call counts per
  spec, clock-reading order, and when a run completes. The `RunFacts` module
  carries them over to the events that a run performs.

Where the code does something a reader would not expect, the model follows
the code:

- The calibrated engine invokes the cleanup after every warmup action.
- A spec with zero iterations makes the run throw, and no result map is
  returned. The plain engine divides a `long` by zero (`ArithmeticException`).
  The calibrated engine computes `0.0 / 0`, which is NaN, and
  `BigDecimal.valueOf(NaN)` throws `NumberFormatException`.
- `withCleanupFunction` has no effect. `extended()` returns a new
  `ExtendedSpec` on every call, so the assignment lands on a holder that
  nothing keeps, and every cleanup a run invokes is the default no-op.

Java's `long` division rounds toward zero (section 15.17.2 of the Java Language
Specification). `Measurement.JavaDiv` is that operator, stated through its
remainder.

## Model

| member | source | states |
|---|---|---|
| `Builder.Named` | src/main/java/com/varlanv/bench/Bench.java:214-219 | throws `IllegalArgumentException("fieldName must not be empty")` exactly when the name is empty; otherwise the next stage carries that exact name |
| `Builder.WithWarmupCycles` | src/main/java/com/varlanv/bench/Bench.java:244-249 | throws exactly when the count is negative, with the source's message; otherwise the next stage carries the count and its parent stage |
| `Builder.WithIterations` | src/main/java/com/varlanv/bench/Bench.java:262-267 | throws exactly when the count is negative, with the source's message; otherwise the next stage carries the count and its parent stage |
| `Builder.WithAction` | src/main/java/com/varlanv/bench/Bench.java:280-289 | throws `NullPointerException` exactly when the action is null; otherwise the spec holds the name, warmup count and iteration count of the earlier stages, and the action |
| `Builder.WithCleanupFunction` | src/main/java/com/varlanv/bench/Bench.java:230-233 | returns the stage unchanged: the spec it carries is the same as before the call |
| `Builder.Build` | src/main/java/impl/Bench.java:180-255 | the whole chain succeeds exactly when the name is non-empty, both counts are non-negative and the action is present; the spec then carries exactly those arguments and is well formed; otherwise the exception is that of the first failing stage |
| `Model.ExtendedSpec.constructor` | src/main/java/com/varlanv/bench/Bench.java:23-27 | a new holder's cleanup is the no-op |
| `Model.Extended` | src/main/java/com/varlanv/bench/Bench.java:207-209 | every call returns a fresh holder whose cleanup is the no-op, whatever an earlier holder was given |
| `LinkedMaps.PutEntry` | src/main/java/impl/Bench.java:39-41 | `put` keeps keys distinct; it appends a new key at the end and replaces the value of a present key in its place, leaving every other entry as it was |
| `LinkedMaps.LinkedMap.constructor` | src/main/java/com/varlanv/bench/Bench.java:112 | a new map is empty |
| `LinkedMaps.LinkedMap.Copy` | src/main/java/com/varlanv/bench/Bench.java:83 | the copy holds the same entries in the same order, as a new object |
| `LinkedMaps.LinkedMap.Put` | src/main/java/com/varlanv/bench/Bench.java:84 | the new entries are `PutEntry` of the old ones |
| `LinkedMaps.LinkedMap.ContainsKey` | src/main/java/com/varlanv/bench/Bench.java:80 | true exactly when some entry has the key |
| `LinkedMaps.LinkedMap.Values` | src/main/java/com/varlanv/bench/Bench.java:111 | the values, entry by entry, in insertion order |
| `Registry.BenchWithManySubjects.OfMap` | src/main/java/com/varlanv/bench/Bench.java:65-67 | keeps the very map it is given |
| `Registry.BenchWithManySubjects.OfSpec` | src/main/java/com/varlanv/bench/Bench.java:69-72 | a fresh map holding exactly the one spec under its name |
| `Registry.BenchWithManySubjects.constructor` | src/main/java/com/varlanv/bench/Bench.java:74-76 | a fresh empty map |
| `Registry.BenchWithManySubjects.Specs` | src/main/java/impl/Bench.java:87 | the registered specs, in registration order, with distinct names |
| `Registry.BenchWithManySubjects.AddSubject` | src/main/java/com/varlanv/bench/Bench.java:78-86 | the caller's exception propagates; a name already present throws `IllegalArgumentException("Subject already exists: " + name)`; otherwise a new registry, over a new map, holds the old entries in order followed by the new spec; the receiver's entries never change |
| `Registry.BenchWithOneSubject.constructor` | src/main/java/com/varlanv/bench/Bench.java:33-35 | keeps the subject |
| `Registry.BenchWithOneSubject.AddSubject` | src/main/java/impl/Bench.java:35-43 | the caller's exception propagates; otherwise a new map holds `[first, second]` in that order, with no duplicate check: equal names leave one entry holding the second spec |
| `Registry.Bench.Create` | src/main/java/com/varlanv/bench/Bench.java:11-13 | `bench()` returns a new entry point |
| `Registry.Bench.AddSubject` | src/main/java/com/varlanv/bench/Bench.java:15-21 | the caller's exception propagates; otherwise a new one-subject registry holds the finished spec |
| `Measurement.LeastIsLeast` | src/main/java/com/varlanv/bench/Bench.java:124-133 | `min`, starting at 0, ends at most 0 and at most every duration, and it is 0 or one of the durations |
| `Measurement.GreatestIsGreatest` | src/main/java/com/varlanv/bench/Bench.java:125-134 | `max`, starting at 0, ends at least 0 and at least every duration, and it is 0 or one of the durations |
| `Measurement.TotalBounds` | src/main/java/com/varlanv/bench/Bench.java:132-134 | the sum of `n` durations lies between `n * min` and `n * max` |
| `Measurement.MinIsZeroOnMonotoneClock` | src/main/java/impl/Bench.java:105 | on a clock that never goes backwards, the reported minimum is always 0 |
| `Measurement.JavaDiv` | src/main/java/impl/Bench.java:109 | `long` division: the remainder is smaller than the divisor in magnitude and never has the opposite sign of the dividend |
| `Schedule.FaultedMono` | src/main/java/com/varlanv/bench/Bench.java:145-147 | once an event has thrown, a longer run still holds that fault |
| `Schedule.StopHere` | src/main/java/impl/Bench.java:111-113 | the first faulting event ends the run with its own exception, and the whole trace then counts as failed |
| `TraceFacts.WarmupsFirst` | src/main/java/com/varlanv/bench/Bench.java:113-136 | every warmup call, of every spec, comes before the first timed event, and no warmup call comes after it |
| `TraceFacts.WarmupCounts` | src/main/java/com/varlanv/bench/Bench.java:114-121 | with distinct names, the first pass runs each spec's action `warmupCycles` times; its cleanup runs `warmupCycles` times in the calibrated engine and never in the plain one |
| `TraceFacts.ImplWarmupsOnlyActions` | src/main/java/impl/Bench.java:90-94 | the plain engine's first pass invokes only actions, never a cleanup |
| `TraceFacts.OnlyNoOpCleanups` | src/main/java/impl/Bench.java:196-199 | every cleanup in the reference trace is the default no-op |
| `TraceFacts.MeasureCounts` | src/main/java/impl/Bench.java:95-108 | with distinct names, the second pass runs each spec's action and its cleanup exactly `iterationCycles` times |
| `TraceFacts.RunCounts` | src/main/java/com/varlanv/bench/Bench.java:113-136 | across the whole run, each runnable of each spec runs its warmup count of times in the warmup phase and `iterationCycles` times in the measure phase |
| `TraceFacts.ClockInOrder` | src/main/java/com/varlanv/bench/Bench.java:128-131 | the clock is read only in the timed loops, two readings per iteration, spec after spec: the readings of a run are `clock(0)`, `clock(1)`, … in order |
| `TraceFacts.CompletesIffNoZeroCycles` | src/main/java/com/varlanv/bench/Bench.java:137-143 | with no throwing action, a run holds a fault exactly when some spec asks for zero iterations |
| `TraceFacts.ZeroCyclesFault` | src/main/java/impl/Bench.java:109 | one spec with zero iterations makes every run fail, whichever action throws |
| `VarlanvEngine.ResultBounds` | src/main/java/com/varlanv/bench/Bench.java:123-143 | the average is the duration sum over `iterationCycles` less the overhead; `min` and `max` bound 0 and every duration, and each is 0 or a duration; with at least one iteration, average plus overhead lies between `min` and `max` |
| `VarlanvEngine.ResultsAt` | src/main/java/com/varlanv/bench/Bench.java:137-143 | entry `i` of the result map is spec `i`'s name and result, measured over the readings that follow the earlier specs' readings |
| `VarlanvEngine.WarmUpCycle` | src/main/java/com/varlanv/bench/Bench.java:118-119 | one warmup cycle performs the action, then the cleanup; it stops at the action's throw with that exception |
| `VarlanvEngine.WarmUpSubject` | src/main/java/com/varlanv/bench/Bench.java:115-120 | performs the spec's `warmupCycles` cycles in order, or stops at the first throw |
| `VarlanvEngine.WarmUpPass` | src/main/java/com/varlanv/bench/Bench.java:114-121 | performs every spec's warmup in registration order, or stops at the first throw |
| `VarlanvEngine.WarmUpAll` | src/main/java/com/varlanv/bench/Bench.java:113-121 | the first pass performs exactly the warmup part of the reference trace, or stops at its first fault |
| `VarlanvEngine.TimeIteration` | src/main/java/com/varlanv/bench/Bench.java:129-135 | reads the clock, runs the action, reads the clock, folds the duration into sum, min and max, runs the cleanup; it stops at the action's throw |
| `VarlanvEngine.TimeSubject` | src/main/java/com/varlanv/bench/Bench.java:123-136 | the timed loop leaves the duration sum, min and max of `iterationCycles` iterations and uses two clock readings per iteration, or stops at the first throw |
| `VarlanvEngine.MeasureSubject` | src/main/java/com/varlanv/bench/Bench.java:122-143 | the timed loop and then the division; with zero iterations it throws `NumberFormatException`; otherwise the result is `ResultOf` the spec |
| `VarlanvEngine.MeasureAndRecord` | src/main/java/com/varlanv/bench/Bench.java:137-143 | measures one spec and appends its entry to the result map, which stays equal to the results of the specs so far |
| `VarlanvEngine.MeasureAll` | src/main/java/com/varlanv/bench/Bench.java:122-144 | the second pass either stops at its first fault, with that exception and no map, or returns `Results` of all specs |
| `VarlanvEngine.Run` | src/main/java/com/varlanv/bench/Bench.java:111-148 | `Ran`: the returned events are the events the loops performed, and they are the first events of the reference trace; the run throws exactly when the reference trace holds a fault, and then its last event is the first fault and the exception is that fault's; otherwise it has performed the whole trace and returns `Results` |
| `VarlanvEngine.RunMany` | src/main/java/com/varlanv/bench/Bench.java:88-149 | `Ran` over the registered specs, in registration order |
| `VarlanvEngine.RunOne` | src/main/java/com/varlanv/bench/Bench.java:47-53 | the one-spec run performs a prefix of its reference trace and either stops at its first fault or performs all of it and returns that spec's result |
| `ImplEngine.Result.constructor` | src/main/java/impl/Bench.java:258-262 | the three `long` fields start at 0 |
| `ImplEngine.StatsBounds` | src/main/java/impl/Bench.java:104-109 | `average * iterationCycles` is the duration sum up to a remainder of the sum's sign and smaller than `iterationCycles`; `min` and `max` bound 0 and every duration, each being 0 or a duration; with at least one iteration the average lies between `min` and `max` |
| `ImplEngine.StatsListAt` | src/main/java/impl/Bench.java:95-110 | entry `i` of the result map is spec `i`'s name and figures, measured over the readings that follow the earlier specs' readings |
| `ImplEngine.WarmUpSubject` | src/main/java/impl/Bench.java:91-93 | performs the action alone `warmupCycles` times, or stops at its first throw |
| `ImplEngine.WarmUpPass` | src/main/java/impl/Bench.java:90-94 | performs every spec's warmup in registration order, or stops at the first throw |
| `ImplEngine.WarmUpAll` | src/main/java/impl/Bench.java:87-94 | the first pass performs exactly the warmup part of the reference trace, or stops at its first fault |
| `ImplEngine.TimeIteration` | src/main/java/impl/Bench.java:101-107 | reads the clock, runs the action, reads the clock, folds the duration into the `Result` fields in place, runs the cleanup; it stops at the action's throw |
| `ImplEngine.TimeSubject` | src/main/java/impl/Bench.java:100-108 | the timed loop leaves the duration sum in `average`, and the minimum and maximum in `min` and `max`, or stops at the first throw |
| `ImplEngine.TimeAndDivide` | src/main/java/impl/Bench.java:98-109 | the timed loop and then `average /= iterationCycles`; with zero iterations it throws `ArithmeticException`; otherwise the fields hold `StatsOf` the spec |
| `ImplEngine.MeasureAndRecord` | src/main/java/impl/Bench.java:96-109 | `computeIfAbsent` puts a new `Result` under the spec's name and the spec is measured into it; the result map's figures stay equal to those of the specs so far |
| `ImplEngine.MeasureAll` | src/main/java/impl/Bench.java:95-110 | the second pass either stops at its first fault, with that exception and no map, or returns a map whose figures are `StatsList` of all specs |
| `ImplEngine.Run` | src/main/java/impl/Bench.java:86-115 | `Ran`: the returned events are the events the loops performed, and they are the first events of the reference trace; the run throws exactly when the reference trace holds a fault, and then its last event is the first fault and the exception is that fault's; otherwise it has performed the whole trace and its map holds `StatsList` |
| `ImplEngine.RunMany` | src/main/java/impl/Bench.java:86-114 | `Ran` over the registered specs, in registration order |
| `ImplEngine.RunOne` | src/main/java/impl/Bench.java:45-51 | the one-spec run performs a prefix of its reference trace and either stops at its first fault or performs all of it and returns that spec's `Result`, holding `StatsOf` the spec |
| `RunFacts.VarlanvCompletion` | src/main/java/com/varlanv/bench/Bench.java:113-148 | with no throwing action, the calibrated run completes exactly when no spec asks for zero iterations, and it otherwise throws `NumberFormatException` |
| `RunFacts.ImplCompletion` | src/main/java/impl/Bench.java:89-114 | with no throwing action, the plain run completes exactly when no spec asks for zero iterations, and it otherwise throws `ArithmeticException` |
| `RunFacts.VarlanvPerformed` | src/main/java/com/varlanv/bench/Bench.java:113-136 | whether it completes or throws, every cleanup the calibrated run performs is the no-op, and every event it performs before the timed pass is a warmup event and none after |
| `RunFacts.VarlanvCompletedRun` | src/main/java/com/varlanv/bench/Bench.java:113-136 | a completed calibrated run has invoked each spec's action and cleanup `warmupCycles` times in the warmup pass and `iterationCycles` times in the timed pass, and its clock readings are `clock(0)`, `clock(1)`, … in order, two per iteration |
| `RunFacts.ImplPerformed` | src/main/java/impl/Bench.java:89-108 | whether it completes or throws, every cleanup the plain run performs is the no-op, its warmup events all come before its timed pass, and each of them is an action call |
| `RunFacts.ImplCompletedRun` | src/main/java/impl/Bench.java:89-108 | a completed plain run has invoked each spec's action `warmupCycles` times and its cleanup never in the warmup pass, each runnable `iterationCycles` times in the timed pass, and its clock readings are `clock(0)`, `clock(1)`, … in order |
| `RunFacts.VarlanvKeys` | src/main/java/com/varlanv/bench/Bench.java:112-148 | the keys of the calibrated engine's result map are the subject names, in registration order |
| `RunFacts.ImplKeys` | src/main/java/impl/Bench.java:88-97 | the keys of the plain engine's result map are the subject names, in registration order |
| `RunFacts.VarlanvMinIsZero` | src/main/java/com/varlanv/bench/Bench.java:124-133 | on a clock that never goes backwards, every `min` the calibrated engine reports is 0 |
| `RunFacts.ImplMinIsZero` | src/main/java/impl/Bench.java:104-106 | on a clock that never goes backwards, every `min` the plain engine reports is 0 |

## Left out

- The calibration loops of the calibrated engine (`com/varlanv/bench/Bench.java` lines 89-109) are not modelled. They time timer reads against an empty loop, so the result depends on the clock. `averageNanoTime` is the `overhead` parameter, and the clock function models only the reads in the timed loops.
- VarlanvEngine.MeasureSubject: the average is kept as a `Mean` (duration sum, divisor, overhead) with its exact value `sum / iterationCycles - overhead`. The model does not reproduce the `double` arithmetic or the `BigDecimal` rounding to two places, `HALF_UP`. It keeps the zero-iteration path exactly: a NaN that `BigDecimal.valueOf` rejects.
- Durations, sums and counts are unbounded integers. The 64-bit overflow of `long` is not modelled.
- `System.gc()` (`impl/Bench.java` line 96) is a runtime hook with no effect on the model's state, so it is not modelled.
- Not modelled, since they are console output and boilerplate: `runAndPrintResult`, and `toString`, `equals`, `hashCode` of `Result`.
- The adapters `ThrowingRunnable`, `ThrowingConsumer` and `ThrowingFunction`, and the sneaky rethrow `hide`, are not modelled. Failure is a tagged `Outcome`, and an action's exception is `ActionThrew` with the number of the call that threw.
- Specs need not pass the builder's checks. `BenchWithManySubjects.addSubject` (`com/varlanv/bench/Bench.java` line 78) takes a function that returns any `Spec`. The public constructor `new BenchWithManySubjects()` (line 74) lets every subject, the first included, be added that way. So any spec may be written by the caller. The stage constructors `AddWarmup`, `AddCycles` and `AddIterations` are public as well (lines 240, 257 and 275), so even an `AddEnd` can carry a spec that was never checked. Caller-written specs are modelled as fixed values: their name, counts and action read as constant, and `extended()` reads as a fresh holder with the no-op cleanup, since the holder's field is private (line 25). No registry operation in the model requires a spec to be well formed. So a spec may have an empty name or a negative count, which the builder rejects. The builder does accept a zero count, and a spec with zero iterations makes the run throw. A negative count runs its loop zero times.
- Null is not modelled, apart from the null action that `withAction` rejects. This leaves out a null name, a null cleanup function, and a caller's function that returns null.
- The present-key branch of `computeIfAbsent` is not modelled. Registry names are distinct, so that branch never runs, and the model puts a new `Result` every time.
- `src/main/java/Main.java` and `src/main/resources/sample/Main.java` are demo entry points; they are not part of this model.
