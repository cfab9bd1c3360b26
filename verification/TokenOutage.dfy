/** What an IAM outage does to a lawful journal: how many exchanges start, and when the circuit reopens. */
module TokenOutage {
  import opened Wrappers
  import opened Timeline
  import opened TokenBreaker
  import opened TokenEntry
  import opened TokenJournal

  /** The starts of the exchanges for an audience from position n on. */
  function Attempts(j: Journal, aud: string, n: nat): seq<int> {
    if |j| <= n then []
    else
      var m := j[|j| - 1];
      Attempts(j[..|j| - 1], aud, n) + if m.Launched? && m.target.aud == aud then [m.now] else []
  }

  ghost predicate Idle(j: Journal, aud: string) {
    forall t: Target :: t.aud == aud ==> Open(j, t).None?
  }

  /** From position n on, exchanges for the audience do not overlap and each fails in a way that trips the breaker. */
  ghost predicate Down(j: Journal, aud: string, n: nat) {
    |j| > n ==>
      var front, m := j[..|j| - 1], j[|j| - 1];
      && Down(front, aud, n)
      && (m.target.aud == aud && m.Launched? ==> Idle(front, aud))
      && (m.target.aud == aud && m.Settled? ==> m.outcome.Refused? && TripsBreaker(m.outcome.reason))
  }

  // Where an outage stands: between two exchanges, or inside one for t.
  ghost predicate BetweenFailures(c: Config, j: Journal, aud: string, b: Breaker, starts: seq<int>) {
    Idle(j, aud) && BreakerOf(c, j, aud) == AfterFailures(c.policy, b, starts)
  }

  ghost predicate InFailure(c: Config, j: Journal, t: Target, b: Breaker, starts: seq<int>) {
    && |starts| > 0
    && Open(j, t) == Some(starts[|starts| - 1])
    && (forall u: Target :: u.aud == t.aud && u != t ==> Open(j, u).None?)
    && BreakerOf(c, j, t.aud) == AfterFailures(c.policy, b, starts[..|starts| - 1])
  }

  ghost predicate Ongoing(c: Config, j: Journal, aud: string, b: Breaker, starts: seq<int>) {
    BetweenFailures(c, j, aud, b, starts) || exists t: Target :: t.aud == aud && InFailure(c, j, t, b, starts)
  }

  lemma OpenAppend(j: Journal, m: Mark)
    ensures forall t: Target :: Open(j + [m], t) == if m.target == t then OpenAfter(m, Open(j, t)) else Open(j, t)
  {
    assert (j + [m])[..|j|] == j;
  }

  lemma AttemptsAppend(j: Journal, m: Mark, aud: string, n: nat)
    requires n <= |j|
    ensures Attempts(j + [m], aud, n)
            == Attempts(j, aud, n) + if m.Launched? && m.target.aud == aud then [m.now] else []
  {
    assert (j + [m])[..|j|] == j;
  }

  lemma LaunchGoesOn(c: Config, j: Journal, t: Target, now: int, b: Breaker, starts: seq<int>)
    requires BetweenFailures(c, j, t.aud, b, starts) && Outage(c.policy, b, starts)
    requires LawfulMark(c, j, Launched(t, now))
    ensures Outage(c.policy, b, starts + [now]) && InFailure(c, j + [Launched(t, now)], t, b, starts + [now])
  {
    OpenAppend(j, Launched(t, now));
    Extend(c, j, Launched(t, now), t, t.aud);
    assert (starts + [now])[..|starts|] == starts;
  }

  lemma FailureGoesOn(c: Config, j: Journal, t: Target, now: int, o: Outcome, b: Breaker, starts: seq<int>)
    requires Ongoing(c, j, t.aud, b, starts) && LawfulMark(c, j, Settled(t, now, o))
    requires o.Refused? && TripsBreaker(o.reason)
    ensures BetweenFailures(c, j + [Settled(t, now, o)], t.aud, b, starts)
  {
    OpenAppend(j, Settled(t, now, o));
    Extend(c, j, Settled(t, now, o), t, t.aud);
    assert InFailure(c, j, t, b, starts);
  }

  lemma RestGoesOn(c: Config, j: Journal, m: Mark, aud: string, b: Breaker, starts: seq<int>)
    requires Ongoing(c, j, aud, b, starts)
    requires m.target.aud != aud || m.Pulled? || m.Cleared?
    ensures Ongoing(c, j + [m], aud, b, starts)
  {
    OpenAppend(j, m);
    Extend(c, j, m, m.target, aud);
    if !BetweenFailures(c, j, aud, b, starts) {
      var t: Target :| t.aud == aud && InFailure(c, j, t, b, starts);
      assert InFailure(c, j + [m], t, b, starts);
    }
  }

  lemma {:induction false} DownIsOutage(c: Config, j: Journal, aud: string, n: nat, b: Breaker)
    requires Lawful(c, j) && n <= |j| && Down(j, aud, n)
    requires Idle(j[..n], aud) && b == BreakerOf(c, j[..n], aud)
    ensures Outage(c.policy, b, Attempts(j, aud, n)) && Ongoing(c, j, aud, b, Attempts(j, aud, n))
    decreases |j|
  {
    if |j| == n {
      assert j[..n] == j;
    } else {
      var front, m := j[..|j| - 1], j[|j| - 1];
      assert front[..n] == j[..n] && j == front + [m];
      DownIsOutage(c, front, aud, n, b);
      AttemptsAppend(front, m, aud, n);
      var starts := Attempts(front, aud, n);
      assert starts + [] == starts;
      if m.target.aud == aud && m.Launched? {
        LaunchGoesOn(c, front, m.target, m.now, b, starts);
      } else if m.target.aud == aud && m.Settled? {
        FailureGoesOn(c, front, m.target, m.now, m.outcome, b, starts);
      } else {
        RestGoesOn(c, front, m, aud, b, starts);
      }
    }
  }

  lemma {:induction false} FailuresAreCounted(c: Config, j: Journal, aud: string)
    ensures BreakerOf(c, j, aud).failures >= 0
  {
    if j != [] { FailuresAreCounted(c, j[..|j| - 1], aud); }
  }

  /** While IAM is down, exchanges that do not overlap keep to threshold + floor(length / openFor) in any interval. */
  lemma OutageLoad(c: Config, j: Journal, aud: string, n: nat, lo: int, length: nat)
    requires Lawful(c, j) && n <= |j| && Down(j, aud, n) && Idle(j[..n], aud)
    requires c.policy.failureThreshold >= 1 && c.policy.openFor > 0
    ensures Count(Attempts(j, aud, n), lo, lo + length + 1) <= c.policy.failureThreshold + length / c.policy.openFor
  {
    var b := BreakerOf(c, j[..n], aud);
    FailuresAreCounted(c, j[..n], aud);
    DownIsOutage(c, j, aud, n, b);
    OutageBound(c.policy, b, Attempts(j, aud, n), lo, length);
  }

  // ---- how many exchanges are in flight ----

  /** The targets of an audience with an exchange under way. */
  function Flying(j: Journal, aud: string): set<Target> {
    if j == [] then {}
    else
      var f, m := Flying(j[..|j| - 1], aud), j[|j| - 1];
      if m.target.aud != aud then f
      else if m.Launched? then f + {m.target}
      else if m.Settled? then f - {m.target}
      else f
  }

  lemma {:induction false} FlyingIsOpen(j: Journal, aud: string)
    ensures forall t: Target :: t in Flying(j, aud) <==> t.aud == aud && Open(j, t).Some?
  {
    if j != [] { FlyingIsOpen(j[..|j| - 1], aud); }
  }

  lemma FlyingAppend(j: Journal, m: Mark, aud: string)
    ensures m.target.aud == aud && m.Launched? ==> Flying(j + [m], aud) == Flying(j, aud) + {m.target}
    ensures m.target.aud == aud && m.Settled? ==> Flying(j + [m], aud) == Flying(j, aud) - {m.target}
    ensures m.target.aud != aud || m.Pulled? || m.Cleared? ==> Flying(j + [m], aud) == Flying(j, aud)
  {
    assert (j + [m])[..|j|] == j;
  }

  /** From position n on, never more than cap exchanges of the audience are in flight. */
  ghost predicate Capped(j: Journal, aud: string, n: nat, cap: nat) {
    |Flying(j, aud)| <= cap && (|j| > n ==> Capped(j[..|j| - 1], aud, n, cap))
  }

  /** From position n on, every exchange of the audience that ends fails in a way that trips the breaker. */
  ghost predicate Failing(j: Journal, aud: string, n: nat) {
    |j| > n ==>
      var m := j[|j| - 1];
      && Failing(j[..|j| - 1], aud, n)
      && (m.target.aud == aud && m.Settled? ==> m.outcome.Refused? && TripsBreaker(m.outcome.reason))
  }

  /** A cap of one keeps exchanges from overlapping. */
  lemma {:induction false} AloneIsDown(c: Config, j: Journal, aud: string, n: nat, cap: nat)
    requires Lawful(c, j) && Failing(j, aud, n) && Capped(j, aud, n, cap) && cap <= 1
    ensures Down(j, aud, n)
  {
    if |j| > n {
      var front, m := j[..|j| - 1], j[|j| - 1];
      AloneIsDown(c, front, aud, n, cap);
      if m.target.aud == aud && m.Launched? {
        FlyingIsOpen(front, aud);
        assert Flying(j, aud) == Flying(front, aud) + {m.target} && m.target !in Flying(front, aud);
        assert |Flying(front, aud)| == 0;
      }
    }
  }

  /** With at most one exchange of an audience in flight, an outage keeps to the breaker's bound. */
  lemma CappedLoad(c: Config, j: Journal, aud: string, n: nat, cap: nat, lo: int, length: nat)
    requires Lawful(c, j) && n <= |j| && Idle(j[..n], aud) && Failing(j, aud, n) && Capped(j, aud, n, cap) && cap <= 1
    requires c.policy.failureThreshold >= 1 && c.policy.openFor > 0
    ensures Count(Attempts(j, aud, n), lo, lo + length + 1) <= c.policy.failureThreshold + length / c.policy.openFor
  {
    AloneIsDown(c, j, aud, n, cap);
    OutageLoad(c, j, aud, n, lo, length);
  }

  // ---- when the circuit reopens ----

  /** The starts of the failures from position n on, in the order in which they are recorded. */
  function Failures(j: Journal, aud: string, n: nat): seq<int> {
    if |j| <= n then []
    else
      var m := j[|j| - 1];
      Failures(j[..|j| - 1], aud, n) + if m.Settled? && m.target.aud == aud then [m.now] else []
  }

  lemma FailuresAppend(j: Journal, m: Mark, aud: string, n: nat)
    requires n <= |j|
    ensures Failures(j + [m], aud, n) == Failures(j, aud, n) + if m.Settled? && m.target.aud == aud then [m.now] else []
  {
    assert (j + [m])[..|j|] == j;
  }

  lemma OneMoreFailure(p: Policy, b: Breaker, starts: seq<int>, now: int)
    ensures AfterFailures(p, b, starts + [now]) == AfterFailure(p, AfterFailures(p, b, starts), now)
  {
    assert (starts + [now])[..|starts|] == starts;
  }

  /** Under an outage the breaker is what the failures make of it, in the order in which they are recorded. */
  lemma {:induction false} BreakerIsFailures(c: Config, j: Journal, aud: string, n: nat)
    requires n <= |j| && Failing(j, aud, n)
    ensures BreakerOf(c, j, aud) == AfterFailures(c.policy, BreakerOf(c, j[..n], aud), Failures(j, aud, n))
    decreases |j|
  {
    if |j| == n {
      assert j[..n] == j;
    } else {
      var front, m := j[..|j| - 1], j[|j| - 1];
      assert front[..n] == j[..n];
      BreakerIsFailures(c, front, aud, n);
      FailuresAppend(front, m, aud, n);
      Extend(c, front, m, m.target, aud);
      assert j == front + [m];
      var starts := Failures(front, aud, n);
      if m.Settled? && m.target.aud == aud {
        OneMoreFailure(c.policy, BreakerOf(c, j[..n], aud), starts, m.now);
      } else {
        assert starts + [] == starts;
      }
    }
  }

  /** From position n on, the instant at which the circuit reopens never moves back. */
  ghost predicate NeverEarlier(c: Config, j: Journal, aud: string, n: nat) {
    |j| > n ==>
      var front := j[..|j| - 1];
      NeverEarlier(c, front, aud, n) && BreakerOf(c, front, aud).openUntil <= BreakerOf(c, j, aud).openUntil
  }

  // Each failure that opens the circuit again started no earlier than the one before it.
  ghost predicate InStartOrder(starts: seq<int>, threshold: int) {
    starts != [] ==>
      var last := |starts| - 1;
      && InStartOrder(starts[..last], threshold)
      && (last >= threshold && last >= 1 ==> starts[last - 1] <= starts[last])
  }

  lemma {:induction false} InStartOrderIff(starts: seq<int>, threshold: int)
    requires threshold >= 1
    ensures InStartOrder(starts, threshold)
            <==> forall i, k :: threshold - 1 <= i < k < |starts| ==> starts[i] <= starts[k]
  {
    if starts != [] {
      var front, last := starts[..|starts| - 1], |starts| - 1;
      InStartOrderIff(front, threshold);
      if InStartOrder(starts, threshold) {
        forall i, k | threshold - 1 <= i < k < |starts|
          ensures starts[i] <= starts[k]
        {
          if k == last && i < last - 1 { assert front[i] <= front[last - 1]; }
          if k < last { assert front[i] <= front[k]; }
        }
      } else if InStartOrder(front, threshold) {
        assert starts[last - 1] > starts[last];
      } else {
        var i, k :| threshold - 1 <= i < k < |front| && front[i] > front[k];
        assert starts[i] > starts[k];
      }
    }
  }

  lemma {:induction false} NeverEarlierIsOrder(c: Config, j: Journal, aud: string, n: nat)
    requires Lawful(c, j) && n <= |j| && Failing(j, aud, n) && BreakerOf(c, j[..n], aud) == CLOSED
    requires c.policy.failureThreshold >= 1 && c.policy.openFor >= 0
    ensures NeverEarlier(c, j, aud, n) <==> InStartOrder(Failures(j, aud, n), c.policy.failureThreshold)
    decreases |j|
  {
    if |j| > n {
      var front, m := j[..|j| - 1], j[|j| - 1];
      assert front[..n] == j[..n] && j == front + [m];
      NeverEarlierIsOrder(c, front, aud, n);
      BreakerIsFailures(c, front, aud, n);
      BreakerIsFailures(c, j, aud, n);
      FailuresAppend(front, m, aud, n);
      var starts := Failures(front, aud, n);
      if m.Settled? && m.target.aud == aud {
        OneFailureLater(c.policy, starts, m.now);
      } else {
        assert starts + [] == starts;
      }
    }
  }

  // What one more failure does to the order, and to the instant of reopening.
  lemma OneFailureLater(p: Policy, starts: seq<int>, now: int)
    requires Reading(now) && p.failureThreshold >= 1 && p.openFor >= 0
    ensures InStartOrder(starts + [now], p.failureThreshold)
            <==> InStartOrder(starts, p.failureThreshold)
                 && AfterFailures(p, CLOSED, starts).openUntil <= AfterFailures(p, CLOSED, starts + [now]).openUntil
  {
    assert (starts + [now])[..|starts|] == starts;
    AfterFailuresState(p, CLOSED, starts);
    AfterFailuresState(p, CLOSED, starts + [now]);
  }

  /**
   * A failure is recorded with the start of its exchange. From a closed circuit on, the instant of reopening never
   * moves back exactly when the failures that open the circuit are recorded in the order in which they started.
   */
  lemma ReopeningMovesBackIffOutOfOrder(c: Config, j: Journal, aud: string, n: nat)
    requires Lawful(c, j) && n <= |j| && Failing(j, aud, n) && BreakerOf(c, j[..n], aud) == CLOSED
    requires c.policy.failureThreshold >= 1 && c.policy.openFor >= 0
    ensures var starts := Failures(j, aud, n);
            NeverEarlier(c, j, aud, n)
            <==> forall i, k :: c.policy.failureThreshold - 1 <= i < k < |starts| ==> starts[i] <= starts[k]
  {
    NeverEarlierIsOrder(c, j, aud, n);
    InStartOrderIff(Failures(j, aud, n), c.policy.failureThreshold);
  }

  lemma {:induction false} BelowThresholdIsClosed(c: Config, j: Journal, aud: string)
    requires c.policy.failureThreshold >= 1
    ensures BreakerOf(c, j, aud).failures < c.policy.failureThreshold ==> BreakerOf(c, j, aud).openUntil == 0
  {
    if j != [] { BelowThresholdIsClosed(c, j[..|j| - 1], aud); }
  }

  /** One by one, failures never move the instant of reopening back. */
  lemma {:induction false} AloneNeverEarlier(c: Config, j: Journal, aud: string, n: nat)
    requires Lawful(c, j) && n <= |j| && Down(j, aud, n) && Idle(j[..n], aud)
    requires c.policy.failureThreshold >= 1 && c.policy.openFor >= 0
    ensures NeverEarlier(c, j, aud, n)
    decreases |j|
  {
    if |j| > n {
      var front, m := j[..|j| - 1], j[|j| - 1];
      var b := BreakerOf(c, j[..n], aud);
      assert front[..n] == j[..n] && j == front + [m];
      AloneNeverEarlier(c, front, aud, n);
      Extend(c, front, m, m.target, aud);
      if m.target.aud == aud && m.Settled? {
        DownIsOutage(c, front, aud, n, b);
        BelowThresholdIsClosed(c, front, aud);
        FailureReopensLater(c, front, m.target, m.now, b, Attempts(front, aud, n));
      }
    }
  }

  lemma FailureReopensLater(c: Config, j: Journal, t: Target, now: int, b: Breaker, starts: seq<int>)
    requires Ongoing(c, j, t.aud, b, starts) && Outage(c.policy, b, starts) && Open(j, t) == Some(now) && Reading(now)
    requires c.policy.openFor >= 0
    requires BreakerOf(c, j, t.aud).failures < c.policy.failureThreshold ==> BreakerOf(c, j, t.aud).openUntil == 0
    ensures BreakerOf(c, j, t.aud).openUntil <= AfterFailure(c.policy, BreakerOf(c, j, t.aud), now).openUntil
  {
    assert InFailure(c, j, t, b, starts);
    assert starts[|starts| - 1] == now;
  }
}
