/** The arithmetic of the timed loop: durations between paired clock readings,
    and the running sum, minimum and maximum, where minimum and maximum start
    at 0 (the initial `long min = 0, max = 0` and the field defaults of the
    plain engine's `Result`). The clock is a function from the number of a
    `System.nanoTime()` reading to the value it returns. */
module Measurement {

  /** The duration `nanoAfter - nanoBefore` of timed iteration `j` of a loop
      whose first reading is number `t0`: the iteration reads `t0 + 2j`
      before its action and `t0 + 2j + 1` after it. */
  function Duration(clock: nat -> int, t0: nat, j: nat): int
  {
    clock(t0 + 2 * j + 1) - clock(t0 + 2 * j)
  }

  /** `sum += d` over the first `n` iterations. */
  function Total(clock: nat -> int, t0: nat, n: nat): int
  {
    if n == 0 then 0 else Total(clock, t0, n - 1) + Duration(clock, t0, n - 1)
  }

  function Min(a: int, b: int): int { if a <= b then a else b }
  function Max(a: int, b: int): int { if a >= b then a else b }

  /** `min = Math.min(min, d)` over the first `n` iterations, from 0. */
  function Least(clock: nat -> int, t0: nat, n: nat): int
  {
    if n == 0 then 0 else Min(Least(clock, t0, n - 1), Duration(clock, t0, n - 1))
  }

  /** `max = Math.max(max, d)` over the first `n` iterations, from 0. */
  function Greatest(clock: nat -> int, t0: nat, n: nat): int
  {
    if n == 0 then 0 else Max(Greatest(clock, t0, n - 1), Duration(clock, t0, n - 1))
  }

  /** One timed iteration with readings `before` and `after` folded into
      the sum, the minimum and the maximum. */
  lemma FoldStep(clock: nat -> int, t0: nat, j: nat, before: int, after: int)
    requires before == clock(t0 + 2 * j) && after == clock(t0 + 2 * j + 1)
    ensures Total(clock, t0, j + 1) == Total(clock, t0, j) + (after - before)
    ensures Least(clock, t0, j + 1) == Min(Least(clock, t0, j), after - before)
    ensures Greatest(clock, t0, j + 1) == Max(Greatest(clock, t0, j), after - before)
  {
  }

  /** The minimum is the least of 0 and every duration. */
  lemma {:induction false} LeastIsLeast(clock: nat -> int, t0: nat, n: nat)
    ensures var m := Least(clock, t0, n);
      && m <= 0 && (forall j :: 0 <= j < n ==> m <= Duration(clock, t0, j))
      && (m == 0 || exists j :: 0 <= j < n && m == Duration(clock, t0, j))
  {
    if n > 0 {
      LeastIsLeast(clock, t0, n - 1);
    }
  }

  /** The maximum is the greatest of 0 and every duration. */
  lemma {:induction false} GreatestIsGreatest(clock: nat -> int, t0: nat, n: nat)
    ensures var m := Greatest(clock, t0, n);
      && m >= 0 && (forall j :: 0 <= j < n ==> Duration(clock, t0, j) <= m)
      && (m == 0 || exists j :: 0 <= j < n && m == Duration(clock, t0, j))
  {
    if n > 0 {
      GreatestIsGreatest(clock, t0, n - 1);
    }
  }

  /** The sum lies between `n` times the minimum and `n` times the maximum. */
  lemma {:induction false} TotalBounds(clock: nat -> int, t0: nat, n: nat)
    ensures n * Least(clock, t0, n) <= Total(clock, t0, n) <= n * Greatest(clock, t0, n)
  {
    if n > 0 {
      var m := n - 1;
      TotalBounds(clock, t0, m);
      var lo, hi := Least(clock, t0, m), Greatest(clock, t0, m);
      var s, d := Total(clock, t0, m), Duration(clock, t0, m);
      assert Least(clock, t0, n) == Min(lo, d);
      assert Greatest(clock, t0, n) == Max(hi, d);
      assert Total(clock, t0, n) == s + d;
      StepLow(m, n, Min(lo, d), lo, s, d);
      StepHigh(m, n, Max(hi, d), hi, s, d);
    }
  }

  /** One step of the induction above: from `m * lo <= s` and a new element
      `d`, with `lo'` at most both, `(m + 1) * lo' <= s + d`. */
  lemma StepLow(m: nat, n: nat, lo': int, lo: int, s: int, d: int)
    requires n == m + 1 && lo' <= lo && lo' <= d && m * lo <= s
    ensures n * lo' <= s + d
  {
    MulMono(m, lo', lo);
    assert n * lo' == m * lo' + lo';
  }

  /** The same step for the maximum. */
  lemma StepHigh(m: nat, n: nat, hi': int, hi: int, s: int, d: int)
    requires n == m + 1 && hi <= hi' && d <= hi' && s <= m * hi
    ensures s + d <= n * hi'
  {
    MulMono(m, hi, hi');
    assert n * hi' == m * hi' + hi';
  }

  lemma MulMono(n: nat, a: int, b: int)
    requires a <= b
    ensures n * a <= n * b
  {
  }

  /** With a clock that never goes back every duration is at least 0, so the
      minimum the harness reports is always 0. */
  lemma MinIsZeroOnMonotoneClock(clock: nat -> int, t0: nat, n: nat)
    requires forall k: nat :: clock(k) <= clock(k + 1)
    ensures Least(clock, t0, n) == 0
  {
    forall j | 0 <= j < n ensures Duration(clock, t0, j) >= 0 {
      assert clock(t0 + 2 * j) <= clock(t0 + 2 * j + 1);
    }
    LeastIsLeast(clock, t0, n);
  }

  function Abs(a: int): nat { if a < 0 then -a else a }

  /** Java's `long` division `a / b`, which rounds toward zero (section
      15.17.2 of the Java Language Specification): the remainder `a - q*b`
      is smaller than `b` in magnitude and never has the opposite sign of `a`. */
  function JavaDiv(a: int, b: int): (q: int)
    requires b != 0
    ensures Abs(a - q * b) < Abs(b)
    ensures a >= 0 ==> a - q * b >= 0
    ensures a <= 0 ==> a - q * b <= 0
  {
    var q' := if (a < 0) == (b < 0) then Abs(a) / Abs(b) else -(Abs(a) / Abs(b));
    TruncatedRemainder(a, b, q', Abs(a) % Abs(b));
    q'
  }

  lemma TruncatedRemainder(a: int, b: int, q': int, r: int)
    requires b != 0
    requires r == Abs(a) % Abs(b)
    requires q' == if (a < 0) == (b < 0) then Abs(a) / Abs(b) else -(Abs(a) / Abs(b))
    ensures a - q' * b == if a < 0 then -r else r
    ensures 0 <= r < Abs(b)
    ensures Abs(a - q' * b) < Abs(b)
    ensures a >= 0 ==> a - q' * b >= 0
    ensures a <= 0 ==> a - q' * b <= 0
  {
    var q := Abs(a) / Abs(b);
    var m := q * Abs(b);
    assert Abs(a) == m + r;
    MulSigns(q, b);
    assert q' * b == if a < 0 then -m else m;
  }

  /** Multiplying by `Abs(b)` or by a negated factor, in terms of `q * b`. */
  lemma MulSigns(q: int, b: int)
    ensures q * Abs(b) == if b < 0 then -(q * b) else q * b
    ensures (-q) * b == -(q * b)
  {
  }
}
