/** The circuit breaker a token client keeps per audience, and the load it lets through in an outage. */
module TokenBreaker {
  import opened Timeline
  import opened Arith

  datatype Policy = Policy(failureThreshold: int, openFor: int)

  datatype Breaker = Breaker(failures: int, openUntil: int)

  const CLOSED := Breaker(0, 0)

  /** Closed, or past openUntil: a half-open breaker lets every attempt through until one fails. */
  predicate Allows(p: Policy, b: Breaker, now: int) {
    b.failures < p.failureThreshold || now >= b.openUntil
  }

  function AfterFailure(p: Policy, b: Breaker, now: int): Breaker {
    Breaker(b.failures + 1, if b.failures + 1 >= p.failureThreshold then now + p.openFor else b.openUntil)
  }

  class Circuits {
    const policy: Policy
    var breakers: map<string, Breaker>

    constructor (policy: Policy)
      ensures this.policy == policy && breakers == map[]
    {
      this.policy, breakers := policy, map[];
    }

    /** The breaker of an audience; one that was never used is closed. */
    function Of(aud: string): Breaker
      reads this
    {
      if aud in breakers then breakers[aud] else CLOSED
    }

    /** Creates the audience's breaker when it is missing, which changes no breaker's state. */
    method Allow(aud: string, now: int) returns (allowed: bool)
      modifies this
      ensures allowed == Allows(policy, Of(aud), now)
      ensures forall a :: Of(a) == old(Of(a))
    {
      if aud !in breakers { breakers := breakers[aud := CLOSED]; }
      allowed := breakers[aud].failures < policy.failureThreshold || !(now < breakers[aud].openUntil);
    }

    method RecordFailure(aud: string, now: int)
      modifies this
      ensures forall a :: Of(a) == if a == aud then AfterFailure(policy, old(Of(aud)), now) else old(Of(a))
    {
      var b := Of(aud);
      b := b.(failures := b.failures + 1);
      if b.failures >= policy.failureThreshold { b := b.(openUntil := now + policy.openFor); }
      breakers := breakers[aud := b];
    }

    method RecordSuccess(aud: string)
      modifies this
      ensures forall a :: Of(a) == if a == aud then CLOSED else old(Of(a))
    {
      breakers := breakers[aud := CLOSED];
    }
  }

  /** The breaker after attempts that started at these instants and all failed, one after another. */
  function AfterFailures(p: Policy, b: Breaker, starts: seq<int>): Breaker {
    if starts == [] then b
    else AfterFailure(p, AfterFailures(p, b, starts[..|starts| - 1]), starts[|starts| - 1])
  }

  /** Attempts that do not overlap, each let through by the breaker and each failing. */
  ghost predicate Outage(p: Policy, b: Breaker, starts: seq<int>) {
    starts != [] ==>
      var front := starts[..|starts| - 1];
      Outage(p, b, front) && Allows(p, AfterFailures(p, b, front), starts[|starts| - 1])
  }

  lemma {:induction false} AfterFailuresState(p: Policy, b: Breaker, starts: seq<int>)
    ensures var last := AfterFailures(p, b, starts);
            && last.failures == b.failures + |starts|
            && (starts != [] && last.failures >= p.failureThreshold ==>
                  last.openUntil == starts[|starts| - 1] + p.openFor)
            && (last.failures < p.failureThreshold ==> last.openUntil == b.openUntil)
  {
    if starts != [] { AfterFailuresState(p, b, starts[..|starts| - 1]); }
  }

  /** Once the threshold is reached, attempts are at least openFor apart. */
  lemma {:induction false} OutageSpacing(p: Policy, b: Breaker, starts: seq<int>, k: nat)
    requires Outage(p, b, starts) && b.failures >= 0 && p.failureThreshold >= 1
    requires p.failureThreshold <= k < |starts|
    ensures starts[k] >= starts[k - 1] + p.openFor
  {
    var n := |starts| - 1;
    if k == n {
      AfterFailuresState(p, b, starts[..n]);
    } else {
      OutageSpacing(p, b, starts[..n], k);
    }
  }

  lemma {:induction false} SpacedSpan(starts: seq<int>, i: nat, n: nat, gap: int)
    requires i + n < |starts|
    requires forall k :: 0 < k < |starts| ==> starts[k] >= starts[k - 1] + gap
    ensures starts[i + n] - starts[i] >= n * gap
  {
    if n > 0 {
      SpacedSpan(starts, i, n - 1, gap);
      assert n * gap == (n - 1) * gap + gap;
      assert starts[i + n] >= starts[i + n - 1] + gap;
    }
  }

  lemma {:induction false} SpacedCount(starts: seq<int>, lo: int, length: nat, gap: int)
    requires gap > 0
    requires forall k :: 0 < k < |starts| ==> starts[k] >= starts[k - 1] + gap
    ensures Count(starts, lo, lo + length + 1) <= length / gap + 1
  {
    if Count(starts, lo, lo + length + 1) > 0 {
      SpacedIsOrdered(starts, gap);
      var i, j := CountSpan(starts, lo, lo + length + 1);
      SpacedSpan(starts, i, j - i, gap);
      AtMost(j - i, length, gap);
    } else {
      AtMost(0, length, gap);
    }
  }

  lemma SpacedIsOrdered(starts: seq<int>, gap: int)
    requires gap > 0 && forall k :: 0 < k < |starts| ==> starts[k] >= starts[k - 1] + gap
    ensures Ordered(starts)
  {
    forall i, j | 0 <= i < j < |starts|
      ensures starts[i] <= starts[j]
    {
      SpacedSpan(starts, i, j - i, gap);
      assert (j - i) * gap >= 0;
    }
  }

  lemma {:induction false} CountSplits(a: seq<int>, b: seq<int>, lo: int, hi: int)
    ensures Count(a + b, lo, hi) == Count(a, lo, hi) + Count(b, lo, hi)
    ensures Count(a, lo, hi) <= |a|
  {
    if b == [] {
      assert a + b == a;
      if a != [] {
        CountSplits(a[..|a| - 1], [], lo, hi);
      }
    } else {
      var front, x := b[..|b| - 1], b[|b| - 1];
      assert a + b == (a + front) + [x];
      CountSplits(a, front, lo, hi);
      CountAppend(a + front, x, lo, hi);
    }
  }

  /** In an outage, attempts started in any interval number at most threshold + floor(length / openFor). */
  lemma OutageBound(p: Policy, b: Breaker, starts: seq<int>, lo: int, length: nat)
    requires Outage(p, b, starts) && b.failures >= 0
    requires p.failureThreshold >= 1 && p.openFor > 0
    ensures Count(starts, lo, lo + length + 1) <= p.failureThreshold + length / p.openFor
  {
    AtMost(0, length, p.openFor);
    var m := p.failureThreshold - 1;
    if |starts| <= m {
      CountSplits(starts, [], lo, lo + length + 1);
    } else {
      var head, tail := starts[..m], starts[m..];
      assert starts == head + tail;
      CountSplits(head, tail, lo, lo + length + 1);
      forall k | 0 < k < |tail|
        ensures tail[k] >= tail[k - 1] + p.openFor
      {
        OutageSpacing(p, b, starts, m + k);
      }
      SpacedCount(tail, lo, length, p.openFor);
    }
  }
}
