/**
 * Execution policies: retry with exponential backoff, time budgets,
 * idempotency and concurrency. Plain immutable records; the defaults of the
 * constructors are the record defaults of the system.
 */
module Policies {
  import opened Values

  /** Retry policy. */
  datatype RetryPolicy = RetryPolicy(
    maxRetries: int := 3,
    initialBackoffMs: int := 100,
    maxBackoffMs: int := 5000,
    backoffMultiplier: real := 2.0)
  {
    /**
     * Delay in milliseconds to wait before the attempt numbered
     * `attemptNumber` (0 is the first attempt, which never waits):
     * `initialBackoffMs * backoffMultiplier^(attemptNumber - 1)`, truncated
     * to an integer and capped at `maxBackoffMs`. No jitter.
     */
    function BackoffMs(attemptNumber: nat): (r: int)
      ensures attemptNumber == 0 ==> r == 0
      // a retry waits at most the cap, and no longer than the exact exponential delay
      ensures attemptNumber >= 1 ==> r <= maxBackoffMs
      ensures attemptNumber >= 1 && Uncapped(attemptNumber - 1) >= 0.0 ==>
                r as real <= Uncapped(attemptNumber - 1)
      // below the cap the delay is the exponential delay, truncated to whole milliseconds
      ensures attemptNumber >= 1 && r < maxBackoffMs ==> r == Trunc(Uncapped(attemptNumber - 1))
      // the cap is reached only when the truncated delay reaches it
      ensures attemptNumber >= 1 && r == maxBackoffMs ==> Trunc(Uncapped(attemptNumber - 1)) >= maxBackoffMs
    {
      if attemptNumber == 0 then 0
      else Min(Trunc(Uncapped(attemptNumber - 1)), maxBackoffMs)
    }

    /** The delay before truncation and cap: `initialBackoffMs * backoffMultiplier^e`, exactly. */
    function Uncapped(e: nat): real
    {
      initialBackoffMs as real * Pow(backoffMultiplier, e)
    }

    /**
     * The intended constraints on a retry policy, not checked by the code:
     * no negative retry count, an initial delay between zero and the cap,
     * and a multiplier of at least one.
     */
    predicate Valid()
    {
      maxRetries >= 0 && 0 <= initialBackoffMs <= maxBackoffMs && backoffMultiplier >= 1.0
    }
  }

  /** Time budgets. Only `maxTotalTimeMs` is enforced by the orchestrator. */
  datatype TimeoutPolicy = TimeoutPolicy(
    timeoutPerActionMs: int := 5000,
    maxTotalTimeMs: int := 30000)
  {
    predicate Valid()
    {
      timeoutPerActionMs > 0 && maxTotalTimeMs > 0
    }
  }

  /** Idempotency: a reserved extension point; `keyGenerator` names a strategy. */
  datatype IdempotencyPolicy = IdempotencyPolicy(
    enabled: bool := false,
    keyGenerator: Option<string> := None)

  /** The complete policy handed to one execution. */
  datatype ExecutionPolicy = ExecutionPolicy(
    retry: RetryPolicy := RetryPolicy(),
    timeout: TimeoutPolicy := TimeoutPolicy(),
    idempotency: IdempotencyPolicy := IdempotencyPolicy(),
    maxConcurrency: int := 1)
  {
    predicate Valid()
    {
      retry.Valid() && timeout.Valid() && maxConcurrency >= 1
    }
  }

  function Min(a: int, b: int): int
  {
    if a <= b then a else b
  }

  /** `b` raised to a natural power, on exact reals. */
  function Pow(b: real, e: nat): real
  {
    if e == 0 then 1.0 else b * Pow(b, e - 1)
  }

  /** Conversion of a number to an integer by truncation toward zero, as `int(x)` does. */
  function Trunc(x: real): (r: int)
    ensures 0.0 <= x ==> r as real <= x < r as real + 1.0
    ensures x < 0.0 ==> r as real - 1.0 < x <= r as real
  {
    if x >= 0.0 then x.Floor else -((-x).Floor)
  }

  /** The record defaults satisfy every intended constraint on a policy (`ExecutionPolicy.Valid`). */
  lemma DefaultPolicyValid()
    ensures ExecutionPolicy().Valid()
    ensures ExecutionPolicy().retry == RetryPolicy(3, 100, 5000, 2.0)
    ensures ExecutionPolicy().timeout == TimeoutPolicy(5000, 30000)
    ensures !ExecutionPolicy().idempotency.enabled && ExecutionPolicy().idempotency.keyGenerator == None
    ensures ExecutionPolicy().maxConcurrency == 1
  {
  }

  lemma {:induction false} PowAtLeastOne(b: real, e: nat)
    requires b >= 1.0
    ensures Pow(b, e) >= 1.0
  {
    if e > 0 {
      PowAtLeastOne(b, e - 1);
    }
  }

  lemma {:induction false} PowNonNegative(b: real, e: nat)
    requires b >= 0.0
    ensures Pow(b, e) >= 0.0
  {
    if e > 0 {
      PowNonNegative(b, e - 1);
    }
  }

  /** For a base of at least one, powers grow with the exponent. */
  lemma {:induction false} PowMonotone(b: real, d: nat, e: nat)
    requires b >= 1.0 && d <= e
    ensures Pow(b, d) <= Pow(b, e)
  {
    if d < e {
      PowMonotone(b, d, e - 1);
      PowAtLeastOne(b, e - 1);
      assert Pow(b, e) == b * Pow(b, e - 1);
      assert Pow(b, e - 1) <= b * Pow(b, e - 1);
    }
  }

  /** The first attempt never waits; the first retry waits the initial backoff, capped. */
  lemma BackoffFirstTwo(p: RetryPolicy)
    ensures p.BackoffMs(0) == 0
    ensures p.BackoffMs(1) == Min(p.initialBackoffMs, p.maxBackoffMs)
  {
    assert p.Uncapped(0) == p.initialBackoffMs as real;
  }

  /**
   * Every retry delay is at most the cap; with a non-negative initial delay,
   * cap and multiplier no delay is negative.
   */
  lemma BackoffBounds(p: RetryPolicy, n: nat)
    ensures n == 0 ==> p.BackoffMs(n) == 0
    ensures n >= 1 ==> p.BackoffMs(n) <= p.maxBackoffMs
    ensures p.initialBackoffMs >= 0 && p.maxBackoffMs >= 0 && p.backoffMultiplier >= 0.0
            ==> p.BackoffMs(n) >= 0
  {
    if n >= 1 && p.initialBackoffMs >= 0 && p.backoffMultiplier >= 0.0 {
      PowNonNegative(p.backoffMultiplier, n - 1);
      ScaleMonotone(p.initialBackoffMs as real, 0.0, Pow(p.backoffMultiplier, n - 1));
      assert p.Uncapped(n - 1) >= 0.0;
    }
  }

  /** With a positive initial delay and cap and a multiplier of at least one, every retry waits. */
  lemma BackoffPositive(p: RetryPolicy, n: nat)
    requires p.initialBackoffMs >= 1 && p.maxBackoffMs >= 1 && p.backoffMultiplier >= 1.0
    requires n >= 1
    ensures p.BackoffMs(n) >= 1
  {
    PowAtLeastOne(p.backoffMultiplier, n - 1);
    ScaleMonotone(p.initialBackoffMs as real, 1.0, Pow(p.backoffMultiplier, n - 1));
    assert p.Uncapped(n - 1) >= 1.0;
  }

  /**
   * The multiplier must be non-negative for the delays to be: with a negative
   * multiplier even powers flip the sign and `int(...)` keeps it.
   */
  lemma NegativeMultiplierGivesNegativeBackoff()
    ensures RetryPolicy(3, 100, 5000, -2.0).BackoffMs(2) == -200
  {
    assert Pow(-2.0, 1) == -2.0;
    assert RetryPolicy(3, 100, 5000, -2.0).Uncapped(1) == -200.0;
  }

  /** With a non-negative initial delay and a multiplier of at least one, delays never shrink. */
  lemma BackoffMonotone(p: RetryPolicy, m: nat, n: nat)
    requires p.initialBackoffMs >= 0 && p.backoffMultiplier >= 1.0
    requires m <= n
    requires m == 0 ==> p.maxBackoffMs >= 0
    ensures p.BackoffMs(m) <= p.BackoffMs(n)
  {
    if m == 0 {
      BackoffBounds(p, n);
    } else {
      UncappedMonotone(p, m - 1, n - 1);
      TruncMonotone(p.Uncapped(m - 1), p.Uncapped(n - 1));
    }
  }

  /** The exact delay is non-negative and grows with the exponent. */
  lemma UncappedMonotone(p: RetryPolicy, d: nat, e: nat)
    requires p.initialBackoffMs >= 0 && p.backoffMultiplier >= 1.0 && d <= e
    ensures 0.0 <= p.Uncapped(d) <= p.Uncapped(e)
  {
    PowMonotone(p.backoffMultiplier, d, e);
    PowAtLeastOne(p.backoffMultiplier, d);
    ScaleMonotone(p.initialBackoffMs as real, Pow(p.backoffMultiplier, d), Pow(p.backoffMultiplier, e));
  }

  lemma ScaleMonotone(c: real, x: real, y: real)
    requires 0.0 <= c && 0.0 <= x <= y
    ensures 0.0 <= c * x <= c * y
  {
  }

  lemma TruncMonotone(x: real, y: real)
    requires 0.0 <= x <= y
    ensures Trunc(x) <= Trunc(y)
  {
  }

  /**
   * With the default policy the delays before attempts 0, 1, 2, ... are
   * 0, 100, 200, 400, 800, 1600, 3200 and 5000 from then on.
   */
  lemma DefaultBackoffSchedule(n: nat)
    ensures n <= 6 ==> RetryPolicy().BackoffMs(n) == [0, 100, 200, 400, 800, 1600, 3200][n]
    ensures n >= 7 ==> RetryPolicy().BackoffMs(n) == 5000
  {
    var p := RetryPolicy();
    if n >= 7 {
      assert Pow(2.0, 6) == 64.0;
      PowMonotone(2.0, 6, n - 1);
      ScaleMonotone(100.0, 64.0, Pow(2.0, n - 1));
      assert p.Uncapped(n - 1) >= 6400.0;
    } else if n >= 1 {
      assert Pow(2.0, 0) == 1.0;
      assert Pow(2.0, 1) == 2.0;
      assert Pow(2.0, 2) == 4.0;
      assert Pow(2.0, 3) == 8.0;
      assert Pow(2.0, 4) == 16.0;
      assert Pow(2.0, 5) == 32.0;
      assert p.Uncapped(n - 1) == [1.0, 2.0, 4.0, 8.0, 16.0, 32.0][n - 1] * 100.0;
    }
  }
}
