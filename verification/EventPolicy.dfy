/** When callers of the event store may count on oldest-first polls, and on the backoff they configured. */
module EventPolicy {
  import opened Wrappers
  import opened EventStore
  import opened EventRetry

  // ---- which events a poll takes ----

  /** The ids a poll may take: the store visits events in any order and stops when the batch is full. */
  ghost predicate Choice(events: map<string, Stored>, ids: set<string>, eventType: string, now: int, limit: nat) {
    var due := DueIds(events, eventType, now);
    ids <= due && |ids| == Min(limit, |due|)
  }

  lemma {:induction false} IdsAreCounted(batch: seq<Event>)
    requires Distinct(batch)
    ensures |IdsOf(batch)| == |batch|
  {
    if batch != [] {
      var front, e := batch[..|batch| - 1], batch[|batch| - 1];
      IdsAreCounted(front);
      assert batch == front + [e];
      IdsAppend(front, e);
      assert e.id !in IdsOf(front);
    } else {
      assert IdsOf(batch) == {};
    }
  }

  /** Every batch the store's contract allows is such a choice. */
  lemma PollIsChoice(batch: seq<Event>, events: map<string, Stored>, eventType: string, now: int, limit: nat)
    requires Batch(batch, IdsOf(batch), events, eventType, now) && |batch| <= limit
    requires forall id :: id in events ==> events[id].event.id == id
    requires |batch| < limit ==> IdsOf(batch) == DueIds(events, eventType, now)
    ensures Choice(events, IdsOf(batch), eventType, now, limit)
  {
    var due := DueIds(events, eventType, now);
    IdsAreCounted(batch);
    assert IdsOf(batch) <= due;
    SubsetIsSmaller(IdsOf(batch), due);
  }

  lemma {:induction false} SubsetIsSmaller(a: set<string>, b: set<string>)
    requires a <= b
    ensures |a| <= |b|
  {
    if a != {} {
      var x :| x in a;
      SubsetIsSmaller(a - {x}, b - {x});
    }
  }

  /** No event that is due and left behind is older than one that is taken. */
  ghost predicate OldestFirst(events: map<string, Stored>, ids: set<string>, due: set<string>)
    requires ids <= due <= events.Keys
  {
    forall x, y :: x in due && x !in ids && y in ids ==> events[x].event.occurredAt >= events[y].event.occurredAt
  }

  ghost predicate SameInstant(events: map<string, Stored>, due: set<string>)
    requires due <= events.Keys
  {
    forall x, y :: x in due && y in due ==> events[x].event.occurredAt == events[y].event.occurredAt
  }

  lemma {:induction false} SomeSubset(s: set<string>, must: string, size: nat)
    requires must in s && 1 <= size <= |s|
    ensures exists t :: must in t && t <= s && |t| == size
  {
    if size == 1 {
      assert |{must}| == 1 && {must} <= s;
    } else {
      SomeSubset(s, must, size - 1);
      var t :| must in t && t <= s && |t| == size - 1;
      SubsetIsSmaller(t, s);
      assert s != t;
      var x :| x in s && x !in t;
      assert |t + {x}| == size && t + {x} <= s;
    }
  }

  /**
   * Every choice a poll may make is oldest-first exactly when the batch has room for all due events, or they all
   * occurred at one instant.
   */
  lemma PollIsOldestFirstIff(events: map<string, Stored>, eventType: string, now: int, limit: nat)
    requires limit >= 1
    ensures var due := DueIds(events, eventType, now);
            (forall ids :: Choice(events, ids, eventType, now, limit) ==> OldestFirst(events, ids, due))
            <==> |due| <= limit || SameInstant(events, due)
  {
    var due := DueIds(events, eventType, now);
    if |due| <= limit {
      forall ids | Choice(events, ids, eventType, now, limit)
        ensures OldestFirst(events, ids, due)
      {
        SubsetIsAll(ids, due);
      }
    } else if !SameInstant(events, due) {
      var y, x :| x in due && y in due && events[x].event.occurredAt < events[y].event.occurredAt;
      WithoutOne(due, x);
      SomeSubset(due - {x}, y, limit);
      var ids :| y in ids && ids <= due - {x} && |ids| == limit;
      assert Choice(events, ids, eventType, now, limit) && !OldestFirst(events, ids, due);
    }
  }

  lemma {:induction false} SubsetIsAll(a: set<string>, b: set<string>)
    requires a <= b && |a| == |b|
    ensures a == b
  {
    if x :| x in b && x !in a {
      SubsetIsSmaller(a, b - {x});
      WithoutOne(b, x);
      assert false;
    }
  }

  lemma WithoutOne(s: set<string>, x: string)
    requires x in s
    ensures |s - {x}| == |s| - 1
  {}

  // ---- whose backoff a failed event gets ----

  function Doubled(j: nat): int {
    if j == 0 then SECOND else 2 * Doubled(j - 1)
  }

  lemma DefaultIsDoubled(attempt: int)
    requires attempt >= 1
    ensures Base(DEFAULT_POLICY, attempt) == Doubled(Min(attempt, 5) - 1)
    ensures Doubled(4) == 16 * SECOND && Doubled(3) == 8 * SECOND && Doubled(2) == 4 * SECOND
            && Doubled(1) == 2 * SECOND && Doubled(0) == SECOND
  {
    assert Doubled(1) == 2 * SECOND;
    assert Doubled(2) == 4 * SECOND;
    assert Doubled(3) == 8 * SECOND;
    assert Doubled(4) == 16 * SECOND;
    assert Power(2.0, 0) == 1.0 && Power(2.0, 1) == 2.0;
    assert Power(2.0, 2) == 4.0;
    assert Power(2.0, 3) == 8.0;
    assert Power(2.0, 4) == 16.0;
  }

  // One second after j growths by the factor.
  function Grown(factor: real, j: nat): real {
    SECOND as real * Power(factor, j)
  }

  /** The factor overshoots doubling by less than a nanosecond after j growths. */
  predicate Close(factor: real, j: nat) {
    Grown(factor, j) < Doubled(j) as real + 1.0
  }

  lemma Times(x: real, factor: real)
    requires x >= 0.0 && factor >= 2.0
    ensures x * factor >= 2.0 * x
  {
    assert x * (factor - 2.0) >= 0.0;
  }

  lemma GrownSteps(factor: real, j: nat)
    requires j >= 1
    ensures Grown(factor, j) == Grown(factor, j - 1) * factor
  {
    var x, s := Power(factor, j - 1), SECOND as real;
    assert s * (x * factor) == (s * x) * factor;
  }

  lemma {:induction false} GrowsAsDoubled(factor: real, j: nat)
    requires factor >= 2.0
    ensures Grown(factor, j) >= Doubled(j) as real >= SECOND as real
  {
    if j > 0 {
      GrowsAsDoubled(factor, j - 1);
      GrownSteps(factor, j);
      Times(Grown(factor, j - 1), factor);
    }
  }

  lemma {:induction false} CloseBefore(factor: real, i: nat, j: nat)
    requires factor >= 2.0 && i <= j && Close(factor, j)
    ensures Close(factor, i)
    decreases j
  {
    if i < j {
      GrowsAsDoubled(factor, j - 1);
      GrownSteps(factor, j);
      Times(Grown(factor, j - 1), factor);
      CloseBefore(factor, i, j - 1);
    }
  }

  lemma BaseIs(p: RetryPolicy, attempt: int)
    requires 1 <= attempt < p.maxAttempts && p.initialDelay == SECOND
    ensures Base(p, attempt) == Min(Truncate(Grown(p.backoffFactor, attempt - 1)), p.maxDelay)
  {}

  /** One attempt: the delay doubles exactly when the cap allows it and cuts off, or the factor does not overshoot. */
  lemma BaseDoublesIff(p: RetryPolicy, attempt: int)
    requires 1 <= attempt < p.maxAttempts && p.initialDelay == SECOND && p.backoffFactor >= 2.0
    ensures var j := attempt - 1;
            Base(p, attempt) == Doubled(j)
            <==> p.maxDelay == Doubled(j) || (p.maxDelay > Doubled(j) && Close(p.backoffFactor, j))
  {
    BaseIs(p, attempt);
    GrowsAsDoubled(p.backoffFactor, attempt - 1);
  }

  /** Every re-queued attempt waits what the configured policy asks for, within the same bounds. */
  ghost predicate Coincides(p: RetryPolicy) {
    forall attempt :: 1 <= attempt < p.maxAttempts ==> Base(p, attempt) == Base(DEFAULT_POLICY, attempt)
  }

  /** What the configuration must say for that, by how many attempts are ever re-queued. */
  predicate LikeDefault(p: RetryPolicy) {
    if p.maxAttempts <= 1 then true
    else if p.maxAttempts == 2 then Min(p.initialDelay, p.maxDelay) == SECOND
    else
      var top := Min(p.maxAttempts - 1, 5);
      && p.initialDelay == SECOND && p.backoffFactor >= 2.0 && p.maxDelay >= Doubled(top - 1)
      && Close(p.backoffFactor, top - 2)
      && (p.maxDelay == Doubled(top - 1) || (p.maxAttempts <= 6 && Close(p.backoffFactor, top - 1)))
  }

  lemma FirstBase(p: RetryPolicy)
    requires p.maxAttempts >= 2
    ensures Base(p, 1) == Min(p.initialDelay, p.maxDelay)
  {
    assert Power(p.backoffFactor, 0) == 1.0;
  }

  lemma SecondBase(p: RetryPolicy)
    requires p.maxAttempts >= 3 && Base(p, 1) == SECOND && Base(p, 2) == 2 * SECOND
    ensures p.initialDelay == SECOND && p.backoffFactor >= 2.0
  {
    FirstBase(p);
    BaseIs(p, 2);
    assert Power(p.backoffFactor, 1) == p.backoffFactor by { assert Power(p.backoffFactor, 0) == 1.0; }
  }

  lemma SixthBase(p: RetryPolicy, attempt: int)
    requires 6 <= attempt < p.maxAttempts && p.initialDelay == SECOND && p.backoffFactor >= 2.0
    ensures Base(p, attempt) == 16 * SECOND <==> p.maxDelay == 16 * SECOND
  {
    BaseIs(p, attempt);
    GrowsAsDoubled(p.backoffFactor, attempt - 1);
    DoubledGrows(5, attempt - 1);
    DefaultIsDoubled(5);
  }

  lemma {:induction false} DoubledGrows(i: nat, j: nat)
    requires i <= j
    ensures SECOND <= Doubled(i) <= Doubled(j)
    decreases j
  {
    if i < j {
      DoubledGrows(i, j - 1);
    } else if i > 0 {
      DoubledGrows(i - 1, i - 1);
    }
  }

  lemma CoincidingIsLikeDefault(p: RetryPolicy)
    requires Coincides(p)
    ensures LikeDefault(p)
  {
    if p.maxAttempts >= 2 {
      FirstBase(p);
      DefaultIsDoubled(1);
    }
    if p.maxAttempts >= 3 {
      var top := Min(p.maxAttempts - 1, 5);
      DefaultIsDoubled(2);
      SecondBase(p);
      DefaultIsDoubled(top);
      DefaultIsDoubled(top - 1);
      BaseDoublesIff(p, top);
      BaseDoublesIff(p, top - 1);
      DoubledGrows(top - 2, top - 1);
      assert Doubled(top - 1) == 2 * Doubled(top - 2);
      if p.maxAttempts >= 7 {
        DefaultIsDoubled(6);
        SixthBase(p, 6);
      }
    }
  }

  lemma LikeDefaultCoincides(p: RetryPolicy, attempt: int)
    requires LikeDefault(p) && 1 <= attempt < p.maxAttempts
    ensures Base(p, attempt) == Base(DEFAULT_POLICY, attempt)
  {
    DefaultIsDoubled(attempt);
    if p.maxAttempts == 2 {
      FirstBase(p);
    } else if attempt >= 6 {
      SixthBase(p, attempt);
    } else {
      var top := Min(p.maxAttempts - 1, 5);
      BaseDoublesIff(p, attempt);
      DoubledGrows(attempt - 1, top - 1);
      if attempt < top { CloseBefore(p.backoffFactor, attempt - 1, top - 2); }
    }
  }

  /** The store's delays are the configured ones, attempt by attempt, exactly for configurations like the default. */
  lemma BackoffIsConfiguredIff(p: RetryPolicy)
    ensures Coincides(p) <==> LikeDefault(p)
  {
    if Coincides(p) { CoincidingIsLikeDefault(p); }
    if LikeDefault(p) {
      forall attempt | 1 <= attempt < p.maxAttempts
        ensures Base(p, attempt) == Base(DEFAULT_POLICY, attempt)
      {
        LikeDefaultCoincides(p, attempt);
      }
    }
  }

  /** The default configuration of the use case, with its cap of 60 s, is one of them. */
  lemma DefaultConfigIsServed()
    ensures Coincides(RetryPolicy(5, SECOND, 60 * SECOND, 2.0))
  {
    var p := RetryPolicy(5, SECOND, 60 * SECOND, 2.0);
    DefaultIsDoubled(4);
    assert Power(2.0, 0) == 1.0 && Power(2.0, 1) == 2.0;
    assert Power(2.0, 2) == 4.0;
    assert Power(2.0, 3) == 8.0;
    BackoffIsConfiguredIff(p);
  }
}
