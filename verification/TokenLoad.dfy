/**
 * How many exchanges an outage can start when several of an audience are in flight. The bound is the breaker's own for
 * one at a time, and grows with the square of the number in flight: each slow failure that is recorded late reopens
 * the circuit for as many exchanges as are not slow themselves.
 */
module TokenLoad {
  import opened Wrappers
  import opened Timeline
  import opened Arith
  import opened TokenBreaker
  import opened TokenJournal
  import opened TokenOutage

  /** 1 + 2 + ... + n. */
  function Triangle(n: int): (t: nat)
    ensures n >= 1 ==> t >= n
  {
    if n <= 0 then 0 else Triangle(n - 1) + n
  }

  lemma {:induction false} TriangleGrows(a: int, b: int)
    requires a <= b
    ensures Triangle(a) <= Triangle(b)
    decreases b - a
  {
    if a < b { TriangleGrows(a, b - 1); }
  }

  // ---- exchanges in flight, by when they started ----

  // Before a window, in it, or after it.
  datatype Phase = Old | Current | Beyond

  function PhaseOf(w: int, length: int, start: int): Phase {
    if start < w then Old else if start < w + length then Current else Beyond
  }

  function Aloft(j: Journal, aud: string, w: int, length: int, p: Phase): set<Target> {
    set t | t in Flying(j, aud) && Open(j, t).Some? && PhaseOf(w, length, Open(j, t).value) == p
  }

  lemma AloftAppend(j: Journal, m: Mark, aud: string, w: int, length: int, p: Phase)
    requires m.Launched? ==> Open(j, m.target).None?
    requires m.Settled? ==> Open(j, m.target) == Some(m.now)
    ensures var before, after := Aloft(j, aud, w, length, p), Aloft(j + [m], aud, w, length, p);
            if m.target.aud == aud && m.Launched? && PhaseOf(w, length, m.now) == p
            then after == before + {m.target} && m.target !in before
            else if m.target.aud == aud && m.Settled? && PhaseOf(w, length, m.now) == p
            then before == after + {m.target} && m.target !in after
            else after == before
  {
    OpenAppend(j, m);
    FlyingAppend(j, m, aud);
    FlyingIsOpen(j, aud);
    FlyingIsOpen(j + [m], aud);
  }

  function Aboard(j: Journal, aud: string, w: int, length: int, p: Phase): nat {
    |Aloft(j, aud, w, length, p)|
  }

  lemma AboardAppend(j: Journal, m: Mark, aud: string, w: int, length: int, p: Phase)
    requires m.Launched? ==> Open(j, m.target).None?
    requires m.Settled? ==> Open(j, m.target) == Some(m.now)
    ensures Aboard(j + [m], aud, w, length, p)
            == Aboard(j, aud, w, length, p)
               + if m.target.aud != aud || m.Pulled? || m.Cleared? || PhaseOf(w, length, m.now) != p then 0
                 else if m.Launched? then 1 else -1
  {
    AloftAppend(j, m, aud, w, length, p);
  }

  lemma AloftFit(j: Journal, aud: string, w: int, length: int)
    ensures Aboard(j, aud, w, length, Old) + Aboard(j, aud, w, length, Current) <= |Flying(j, aud)|
  {
    var past, current := Aloft(j, aud, w, length, Old), Aloft(j, aud, w, length, Current);
    assert past !! current;
    assert |past + current| == |past| + |current|;
    Fewer(past + current, Flying(j, aud));
  }

  lemma Fewer(a: set<Target>, b: set<Target>)
    requires a <= b
    ensures |a| <= |b|
  {
    assert b == a + (b - a);
  }

  // ---- failures that leave the circuit closed ----

  /** The starts of the failures that left the breaker below its threshold. */
  function EarlyFailures(c: Config, j: Journal, aud: string, n: nat): seq<int> {
    if |j| <= n then []
    else
      var m := j[|j| - 1];
      EarlyFailures(c, j[..|j| - 1], aud, n)
      + if m.Settled? && m.target.aud == aud && BreakerOf(c, j, aud).failures < c.policy.failureThreshold then [m.now]
        else []
  }

  lemma EarlyAppend(c: Config, j: Journal, m: Mark, aud: string, n: nat)
    requires n <= |j|
    ensures EarlyFailures(c, j + [m], aud, n)
            == EarlyFailures(c, j, aud, n)
               + if m.Settled? && m.target.aud == aud
                    && BreakerOf(c, j + [m], aud).failures < c.policy.failureThreshold then [m.now] else []
  {
    assert (j + [m])[..|j|] == j;
  }

  lemma {:induction false} EarlyAreFew(c: Config, j: Journal, aud: string, n: nat)
    requires n <= |j| && Failing(j, aud, n) && c.policy.failureThreshold >= 1
    ensures |EarlyFailures(c, j, aud, n)| <= Min(BreakerOf(c, j, aud).failures, c.policy.failureThreshold - 1)
    decreases |j|
  {
    if |j| == n {
      FailuresAreCounted(c, j, aud);
    } else {
      var front, m := j[..|j| - 1], j[|j| - 1];
      assert j == front + [m];
      EarlyAreFew(c, front, aud, n);
      EarlyAppend(c, front, m, aud, n);
      Extend(c, front, m, m.target, aud);
    }
  }

  // ---- one window of length openFor ----

  // Where a window stands: starts in it, early failures in it, exchanges in flight that are older and that started
  // in it, and whether the breaker may still let an exchange of the window through.
  datatype Account = Account(starts: int, early: int, past: int, current: int, open: bool)

  predicate MayPass(p: Policy, b: Breaker, w: int) {
    b.failures < p.failureThreshold || b.openUntil < w + p.openFor
  }

  function One(b: bool): int { if b then 1 else 0 }

  /** The account after a mark of the audience that left the breaker at b. */
  function Advance(p: Policy, a: Account, m: Mark, b: Breaker, w: int): Account
    requires m.Launched? || m.Settled?
  {
    var phase := PhaseOf(w, p.openFor, m.now);
    if m.Launched? then
      a.(starts := a.starts + One(phase.Current?), past := a.past + One(phase.Old?),
         current := a.current + One(phase.Current?))
    else
      Account(a.starts, a.early + One(phase.Current? && b.failures < p.failureThreshold),
              a.past - One(phase.Old?), a.current - One(phase.Current?), MayPass(p, b, w))
  }

  predicate Counted(m: Mark, aud: string) {
    m.target.aud == aud && (m.Launched? || m.Settled?)
  }

  function AccountOf(c: Config, j: Journal, aud: string, n: nat, w: int): Account {
    if |j| <= n then Account(0, 0, 0, 0, MayPass(c.policy, BreakerOf(c, j, aud), w))
    else
      var a, m := AccountOf(c, j[..|j| - 1], aud, n, w), j[|j| - 1];
      if Counted(m, aud) then Advance(c.policy, a, m, BreakerOf(c, j, aud), w) else a
  }

  lemma {:induction false} StartsAreCounted(c: Config, j: Journal, aud: string, n: nat, w: int)
    requires n <= |j|
    ensures AccountOf(c, j, aud, n, w).starts == Count(Attempts(j, aud, n), w, w + c.policy.openFor)
    decreases |j|
  {
    if |j| > n {
      var front, m := j[..|j| - 1], j[|j| - 1];
      StartsAreCounted(c, front, aud, n, w);
      CountMaybe(Attempts(front, aud, n), m.Launched? && m.target.aud == aud, m, w, w + c.policy.openFor);
    }
  }

  lemma CountMaybe(starts: seq<int>, added: bool, m: Mark, lo: int, hi: int)
    requires added ==> !m.Cleared?
    ensures Count(starts + if added then [m.now] else [], lo, hi)
            == Count(starts, lo, hi) + One(added && lo <= m.now < hi)
  {
    if added { CountAppend(starts, m.now, lo, hi); } else { assert starts + [] == starts; }
  }

  lemma {:induction false} EarlyAreCounted(c: Config, j: Journal, aud: string, n: nat, w: int)
    requires n <= |j|
    ensures AccountOf(c, j, aud, n, w).early == Count(EarlyFailures(c, j, aud, n), w, w + c.policy.openFor)
    decreases |j|
  {
    if |j| > n {
      var front, m := j[..|j| - 1], j[|j| - 1];
      EarlyAreCounted(c, front, aud, n, w);
      var early := m.Settled? && m.target.aud == aud && BreakerOf(c, j, aud).failures < c.policy.failureThreshold;
      CountMaybe(EarlyFailures(c, front, aud, n), early, m, w, w + c.policy.openFor);
    }
  }

  lemma {:induction false} OpenIsTold(c: Config, j: Journal, aud: string, n: nat, w: int)
    requires n <= |j|
    ensures AccountOf(c, j, aud, n, w).open == MayPass(c.policy, BreakerOf(c, j, aud), w)
    decreases |j|
  {
    if |j| > n { OpenIsTold(c, j[..|j| - 1], aud, n, w); }
  }

  lemma {:induction false} FlightsAreCounted(c: Config, j: Journal, aud: string, n: nat, w: int)
    requires n <= |j| && Lawful(c, j) && Idle(j[..n], aud)
    ensures AccountOf(c, j, aud, n, w).past == Aboard(j, aud, w, c.policy.openFor, Old)
    ensures AccountOf(c, j, aud, n, w).current == Aboard(j, aud, w, c.policy.openFor, Current)
    decreases |j|
  {
    if |j| > n {
      var front, m := j[..|j| - 1], j[|j| - 1];
      assert front[..n] == j[..n] && j == front + [m];
      FlightsAreCounted(c, front, aud, n, w);
      AboardAppend(front, m, aud, w, c.policy.openFor, Old);
      AboardAppend(front, m, aud, w, c.policy.openFor, Current);
    } else {
      assert j[..n] == j;
      FlyingIsOpen(j, aud);
      assert forall p :: Aloft(j, aud, w, c.policy.openFor, p) == {};
    }
  }

  /** The starts so far, against what the failures so far allow. */
  ghost predicate Bounded(a: Account, cap: nat) {
    && 0 <= a.past && 0 <= a.current && a.past + a.current <= cap && 0 <= a.early
    && a.starts <= a.early + if a.open then Triangle(cap - a.past - 1) + a.current else Triangle(cap - a.past)
  }

  ghost predicate Sound(a: Account, cap: nat) {
    0 <= a.past && 0 <= a.current && a.past + a.current <= cap && 0 <= a.early
  }

  lemma LaunchIsBounded(p: Policy, a: Account, m: Mark, b: Breaker, w: int, cap: nat)
    requires m.Launched? && Bounded(a, cap) && Sound(Advance(p, a, m, b, w), cap)
    requires PhaseOf(w, p.openFor, m.now).Current? ==> a.open
    requires PhaseOf(w, p.openFor, m.now).Old? ==> a.starts == 0
    ensures Bounded(Advance(p, a, m, b, w), cap)
  {}

  lemma FailureIsBounded(p: Policy, a: Account, m: Mark, before: Breaker, w: int, cap: nat)
    requires m.Settled? && Bounded(a, cap) && Sound(Advance(p, a, m, AfterFailure(p, before, m.now), w), cap)
    requires a.open == MayPass(p, before, w) && p.openFor > 0
    ensures Bounded(Advance(p, a, m, AfterFailure(p, before, m.now), w), cap)
  {
    var free := cap - a.past;
    TriangleGrows(free - 1, free);
    TriangleGrows(free, free + 1);
    assert Triangle(free) >= free;
    assert free >= 1 ==> Triangle(free) == Triangle(free - 1) + free;
  }

  /** An outage with at most cap exchanges in flight, each started in the order of their clock readings. */
  ghost predicate Crowd(c: Config, j: Journal, aud: string, n: nat, cap: nat) {
    && n <= |j| && Idle(j[..n], aud) && Failing(j, aud, n) && Capped(j, aud, n, cap)
    && Ordered(Attempts(j, aud, n))
  }

  lemma AccountIsSound(c: Config, j: Journal, aud: string, n: nat, cap: nat, w: int)
    requires Lawful(c, j) && Crowd(c, j, aud, n, cap)
    ensures Sound(AccountOf(c, j, aud, n, w), cap)
  {
    FlightsAreCounted(c, j, aud, n, w);
    EarlyAreCounted(c, j, aud, n, w);
    AloftFit(j, aud, w, c.policy.openFor);
  }

  lemma CrowdBefore(c: Config, j: Journal, aud: string, n: nat, cap: nat)
    requires Crowd(c, j, aud, n, cap) && |j| > n
    ensures Crowd(c, j[..|j| - 1], aud, n, cap)
  {
    var front := j[..|j| - 1];
    assert front[..n] == j[..n];
    assert Attempts(front, aud, n) == Attempts(j, aud, n)[..|Attempts(front, aud, n)|];
  }

  /** In such an outage every window keeps its account. */
  lemma {:induction false} WindowIsBounded(c: Config, j: Journal, aud: string, n: nat, cap: nat, w: int)
    requires Lawful(c, j) && Crowd(c, j, aud, n, cap) && c.policy.openFor > 0
    ensures Bounded(AccountOf(c, j, aud, n, w), cap)
    decreases |j|
  {
    AccountIsSound(c, j, aud, n, cap, w);
    if |j| > n {
      var front, m := j[..|j| - 1], j[|j| - 1];
      CrowdBefore(c, j, aud, n, cap);
      WindowIsBounded(c, front, aud, n, cap, w);
      var a := AccountOf(c, front, aud, n, w);
      OpenIsTold(c, front, aud, n, w);
      if Counted(m, aud) && m.Launched? {
        if m.now < w { OldComeFirst(c, j, aud, n, w); }
        LaunchIsBounded(c.policy, a, m, BreakerOf(c, j, aud), w, cap);
      } else if Counted(m, aud) {
        FailureIsBounded(c.policy, a, m, BreakerOf(c, front, aud), w, cap);
      }
    }
  }

  /** In order, no exchange of the window has started when an older one starts. */
  lemma OldComeFirst(c: Config, j: Journal, aud: string, n: nat, w: int)
    requires |j| > n && Ordered(Attempts(j, aud, n))
    requires var m := j[|j| - 1]; m.Launched? && m.target.aud == aud && m.now < w
    ensures AccountOf(c, j[..|j| - 1], aud, n, w).starts == 0
  {
    var front := j[..|j| - 1];
    StartsAreCounted(c, front, aud, n, w);
    NothingYet(Attempts(front, aud, n), j[|j| - 1].now, w, w + c.policy.openFor);
  }

  lemma NothingYet(starts: seq<int>, now: int, lo: int, hi: int)
    requires Ordered(starts + [now]) && now < lo
    ensures Count(starts, lo, hi) == 0
  {
    forall k | 0 <= k < |starts|
      ensures !(lo <= starts[k] < hi)
    {
      assert (starts + [now])[k] <= (starts + [now])[|starts|];
    }
    NothingCounted(starts, lo, hi);
  }

  lemma BoundedStarts(a: Account, cap: nat)
    requires Bounded(a, cap)
    ensures a.starts <= a.early + Triangle(cap)
  {
    TriangleGrows(cap - a.past, cap);
  }

  // ---- any interval ----

  lemma {:induction false} CountJoins(h: seq<int>, lo: int, mid: int, hi: int)
    requires lo <= mid <= hi
    ensures Count(h, lo, hi) == Count(h, lo, mid) + Count(h, mid, hi)
    ensures Count(h, lo, hi) <= |h|
  {
    if h != [] { CountJoins(h[..|h| - 1], lo, mid, hi); }
  }

  lemma OneWindow(c: Config, j: Journal, aud: string, n: nat, cap: nat, w: int)
    requires Lawful(c, j) && Crowd(c, j, aud, n, cap) && c.policy.openFor > 0
    ensures Count(Attempts(j, aud, n), w, w + c.policy.openFor)
            <= Count(EarlyFailures(c, j, aud, n), w, w + c.policy.openFor) + Triangle(cap)
  {
    WindowIsBounded(c, j, aud, n, cap, w);
    StartsAreCounted(c, j, aud, n, w);
    EarlyAreCounted(c, j, aud, n, w);
    BoundedStarts(AccountOf(c, j, aud, n, w), cap);
  }

  ghost predicate Within(starts: seq<int>, early: seq<int>, d: nat, each: nat, w: int) {
    Count(starts, w, w + d) <= Count(early, w, w + d) + each
  }

  lemma {:induction false} WindowsAddUp(starts: seq<int>, early: seq<int>, d: nat, each: nat, lo: int, k: nat)
    requires forall w :: Within(starts, early, d, each, w)
    ensures Count(starts, lo, lo + k * d) <= Count(early, lo, lo + k * d) + k * each
  {
    if k == 0 {
      NothingCounted(starts, lo, lo);
    } else {
      WindowsAddUp(starts, early, d, each, lo, k - 1);
      Successor(k - 1, d);
      Successor(k - 1, each);
      var w := lo + (k - 1) * d;
      assert w + d == lo + k * d && w >= lo by { Forward(k - 1, d); }
      assert Within(starts, early, d, each, w);
      CountJoins(starts, lo, w, w + d);
      CountJoins(early, lo, w, w + d);
    }
  }

  lemma Forward(k: nat, d: nat)
    ensures k * d >= 0
  {}

  /**
   * With at most cap exchanges of an audience in flight, an outage starts at most
   * threshold - 1 + (floor(length / openFor) + 1) * (1 + 2 + ... + cap) of them in any interval.
   */
  lemma CrowdedLoad(c: Config, j: Journal, aud: string, n: nat, cap: nat, lo: int, length: nat)
    requires Lawful(c, j) && Crowd(c, j, aud, n, cap) && c.policy.failureThreshold >= 1 && c.policy.openFor > 0
    ensures Count(Attempts(j, aud, n), lo, lo + length + 1)
            <= c.policy.failureThreshold - 1 + (length / c.policy.openFor + 1) * Triangle(cap)
  {
    var d, starts, early := c.policy.openFor, Attempts(j, aud, n), EarlyFailures(c, j, aud, n);
    forall w
      ensures Within(starts, early, d, Triangle(cap), w)
    {
      OneWindow(c, j, aud, n, cap, w);
    }
    var k := length / d + 1;
    Cover(length, d);
    WindowsAddUp(starts, early, d, Triangle(cap), lo, k);
    CountJoins(starts, lo, lo + length + 1, lo + k * d);
    CountJoins(early, lo, lo, lo + k * d);
    EarlyAreFew(c, j, aud, n);
  }

  lemma Cover(length: nat, d: nat)
    requires d > 0
    ensures (length / d + 1) * d > length
  {}
}
