/** Exponential backoff with jitter. Durations are in nanoseconds; the float64 arithmetic is modelled on reals. */
module EventRetry {
  import opened Wrappers

  datatype RetryPolicy = RetryPolicy(maxAttempts: int, initialDelay: int, maxDelay: int, backoffFactor: real)

  const SECOND: int := 1_000_000_000

  const DEFAULT_POLICY := RetryPolicy(5, 1_000_000_000, 300_000_000_000, 2.0)

  function Power(base: real, n: nat): real {
    if n == 0 then 1.0 else Power(base, n - 1) * base
  }

  /** The product loop behind the backoff. */
  method Pow(base: real, n: int) returns (result: real)
    ensures result == Power(base, Max(n, 0))
  {
    result := 1.0;
    var i := 0;
    while i < n
      invariant 0 <= i <= Max(n, 0)
      invariant result == Power(base, i)
    {
      result := result * base;
      i := i + 1;
    }
  }

  /** Conversion of a float64 to an integer, towards zero. */
  function Truncate(x: real): int {
    if x >= 0.0 then x.Floor else -(-x).Floor
  }

  function Clamp(p: RetryPolicy, attempt: int): int {
    var a := Max(attempt, 1);
    if a > p.maxAttempts then p.maxAttempts else a
  }

  function Scaled(p: RetryPolicy, power: real): int {
    Truncate(p.initialDelay as real * power)
  }

  /** The delay before jitter. */
  function Base(p: RetryPolicy, attempt: int): int {
    Min(Scaled(p, Power(p.backoffFactor, Max(Clamp(p, attempt) - 1, 0))), p.maxDelay)
  }

  /** A random tenth on top; None is the panic of rand.Int63n on an empty range. */
  method Jittered(factor: int) returns (d: Option<int>)
    ensures d.None? <==> factor < 10
    ensures d.Some? ==> factor <= d.value < factor + factor / 10
  {
    if factor < 10 { return None; }
    var range := factor / 10;
    assert 0 < range;
    var jitter: int :| 0 <= jitter < range;
    return Some(factor + jitter);
  }

  method ComputeDelay(p: RetryPolicy, attempt: int) returns (d: Option<int>)
    ensures d.None? <==> Base(p, attempt) < 10
    ensures d.Some? ==> Base(p, attempt) <= d.value < Base(p, attempt) + Base(p, attempt) / 10
  {
    var a := attempt;
    if a < 1 { a := 1; }
    if a > p.maxAttempts { a := p.maxAttempts; }
    var power := Pow(p.backoffFactor, a - 1);
    var factor := Scaled(p, power);
    if factor > p.maxDelay { factor := p.maxDelay; }
    d := Jittered(factor);
  }

  lemma {:induction false} PowerGrows(base: real, m: nat, n: nat)
    requires base >= 1.0 && m <= n
    ensures 1.0 <= Power(base, m) <= Power(base, n)
    decreases n
  {
    if m < n {
      PowerGrows(base, m, n - 1);
      AtLeast(Power(base, n - 1), base);
    } else if n > 0 {
      PowerGrows(base, m - 1, n - 1);
      AtLeast(Power(base, n - 1), base);
    }
  }

  lemma AtLeast(x: real, k: real)
    requires x >= 1.0 && k >= 1.0
    ensures x * k >= x
  {
    assert x * k - x == x * (k - 1.0);
  }

  /** A later attempt never waits a shorter base, and no base exceeds the cap. */
  lemma BaseIsMonotone(p: RetryPolicy, a: int, b: int)
    requires p.backoffFactor >= 1.0 && p.initialDelay >= 0 && a <= b
    ensures Base(p, a) <= Base(p, b) <= p.maxDelay
  {
    var m, n := Max(Clamp(p, a) - 1, 0), Max(Clamp(p, b) - 1, 0);
    PowerGrows(p.backoffFactor, m, n);
    var d := p.initialDelay as real;
    assert d * Power(p.backoffFactor, n) - d * Power(p.backoffFactor, m)
        == d * (Power(p.backoffFactor, n) - Power(p.backoffFactor, m)) >= 0.0;
    assert d * Power(p.backoffFactor, m) >= 0.0;
  }

  /** The policy the store uses doubles from 1 s to 16 s over the first five attempts, so it never panics. */
  lemma DefaultBase(attempt: int)
    ensures SECOND <= Base(DEFAULT_POLICY, attempt) <= 16 * SECOND
    ensures 1 <= attempt <= 4 ==> Base(DEFAULT_POLICY, attempt + 1) == 2 * Base(DEFAULT_POLICY, attempt)
  {
    assert Power(2.0, 0) == 1.0 && Power(2.0, 1) == 2.0;
    assert Power(2.0, 2) == 4.0;
    assert Power(2.0, 3) == 8.0;
    assert Power(2.0, 4) == 16.0;
  }
}
