/** What overlap of exchanges costs in an outage: tight bounds, the runs that reach them, and the exact cap. */
module TokenOutageRuns {
  import opened Wrappers
  import opened Timeline
  import opened Arith
  import opened TokenBreaker
  import opened TokenEntry
  import opened TokenJournal
  import opened TokenOutage
  import opened TokenLoad
  import opened TokenSteps
  import opened TokenRuns
  import opened TokenPlays

  // ---- a crowd that loads IAM to the bound ----

  // The starts so far are in order and not ahead of the clock, and count of them lie in [lo, hi).
  ghost predicate Started(x: Scene, lo: int, hi: int, count: int) {
    Ordered(x.starts) && (forall at :: at in x.starts ==> at <= x.clock) && Count(x.starts, lo, hi) == count
  }

  function Hits(at: int, lo: int, hi: int): int { if lo <= at < hi then 1 else 0 }

  lemma StartsOneMore(x: Scene, y: Scene, lo: int, hi: int, count: int)
    requires Started(x, lo, hi, count) && y.starts == x.starts + [x.clock] && y.clock == x.clock
    ensures Started(y, lo, hi, count + Hits(x.clock, lo, hi))
  {
    CountAppend(x.starts, x.clock, lo, hi);
    forall i | 0 <= i < |x.starts|
      ensures x.starts[i] <= x.clock
    {
      assert x.starts[i] in x.starts;
    }
  }

  ghost predicate StartedBy(f: Fleet, now: int) {
    forall id :: id in f.flying ==> f.flying[id] <= now
  }

  /** g is f with more exchanges in flight, all of them started now. */
  ghost predicate Joined(f: Fleet, g: Fleet, now: int) {
    && (forall id :: id in f.flying ==> id in g.flying && g.flying[id] == f.flying[id])
    && (forall id :: id in g.flying && id !in f.flying ==> g.flying[id] == now)
  }

  lemma {:induction false} TakeOffs(s: Stage, deeds: seq<Deed>, x: Scene, k: nat, lo: int, hi: int, count: int)
    returns (more: seq<Deed>, y: Scene)
    requires Plays(s, deeds, x) && |x.f.flying| + k <= s.cap && Allows(s.p, x.b, x.clock) && Started(x, lo, hi, count)
    ensures Plays(s, more, y) && y == Scene(y.f, x.clock, x.b, y.starts)
    ensures |y.f.flying| == |x.f.flying| + k && Joined(x.f, y.f, x.clock)
    ensures Started(y, lo, hi, count + k * Hits(x.clock, lo, hi))
    decreases k
  {
    more, y := deeds, x;
    if k > 0 {
      var hits := Hits(x.clock, lo, hi);
      more, y := TakesOff(s, deeds, x);
      StartsOneMore(x, y, lo, hi, count);
      more, y := TakeOffs(s, more, y, k - 1, lo, hi, count + hits);
      Successor(k - 1, hits);
    }
  }

  /** All that joined crash again. */
  lemma {:induction false} AllCrash(s: Stage, deeds: seq<Deed>, x: Scene, keep: Fleet)
    returns (more: seq<Deed>, y: Scene)
    requires Plays(s, deeds, x) && Joined(keep, x.f, x.clock)
    ensures Plays(s, more, y) && y.f.flying == keep.flying && y.clock == x.clock && y.starts == x.starts
    decreases |x.f.flying|
  {
    if id :| id in x.f.flying && id !in keep.flying {
      more, y := Crashes(s, deeds, x, id);
      more, y := AllCrash(s, more, y, keep);
    } else {
      assert x.f.flying == keep.flying;
      more, y := deeds, x;
    }
  }

  /** An exchange started one openFor ago crashes, which opens the circuit to attempts. */
  lemma OldCrashes(s: Stage, deeds: seq<Deed>, x: Scene) returns (more: seq<Deed>, y: Scene)
    requires Plays(s, deeds, x) && |x.f.flying| > 0 && StartedBy(x.f, x.clock - s.p.openFor)
    ensures Plays(s, more, y) && y.clock == x.clock && y.starts == x.starts
    ensures |y.f.flying| == |x.f.flying| - 1 && StartedBy(y.f, x.clock - s.p.openFor)
    ensures Allows(s.p, y.b, y.clock)
  {
    assert |x.f.flying.Keys| == |x.f.flying|;
    var id :| id in x.f.flying.Keys;
    more, y := Crashes(s, deeds, x, id);
  }

  /**
   * With old exchanges in flight and the circuit open to attempts: fill up, let the new ones fail, which closes it,
   * and then an old one, which opens it again, and so on.
   */
  lemma {:induction false} Burst(s: Stage, deeds: seq<Deed>, x: Scene, lo: int, hi: int, count: int)
    returns (more: seq<Deed>, y: Scene)
    requires Plays(s, deeds, x) && |x.f.flying| < s.cap && s.p.openFor > 0 && Started(x, lo, hi, count)
    requires StartedBy(x.f, x.clock - s.p.openFor) && Allows(s.p, x.b, x.clock) && lo <= x.clock < hi
    ensures Plays(s, more, y) && |y.f.flying| == s.cap && StartedBy(y.f, y.clock) && y.clock == x.clock
    ensures Started(y, lo, hi, count + Triangle(s.cap) - Triangle(s.cap - |x.f.flying| - 1))
    decreases |x.f.flying|
  {
    var k := s.cap - |x.f.flying|;
    more, y := TakeOffs(s, deeds, x, k, lo, hi, count);
    if |x.f.flying| > 0 {
      more, y := AllCrash(s, more, y, x.f);
      more, y := OldCrashes(s, more, y);
      more, y := Burst(s, more, y, lo, hi, count + k);
    }
  }

  /** k calls one after another, each of which finds IAM unreachable. */
  lemma {:induction false} FailuresInSequence(s: Stage, deeds: seq<Deed>, x: Scene, k: nat,
                                              lo: int, hi: int, count: int)
    returns (more: seq<Deed>, y: Scene)
    requires Plays(s, deeds, x) && |x.f.flying| < s.cap && x.b.failures + k < s.p.failureThreshold
    requires Started(x, lo, hi, count)
    ensures Plays(s, more, y) && y.f.flying == x.f.flying && y.clock == x.clock
    ensures y.b.failures == x.b.failures + k && Started(y, lo, hi, count + k * Hits(x.clock, lo, hi))
    decreases k
  {
    more, y := deeds, x;
    if k > 0 {
      var hits := Hits(x.clock, lo, hi);
      more, y := TakesOff(s, deeds, x);
      StartsOneMore(x, y, lo, hi, count);
      more, y := Crashes(s, more, y, x.f.next);
      assert y.f.flying == x.f.flying;
      more, y := FailuresInSequence(s, more, y, k - 1, lo, hi, count + hits);
      Successor(k - 1, hits);
    }
  }

  // A full crowd at an instant, and the count then.
  ghost predicate Full(s: Stage, deeds: seq<Deed>, y: Scene, clock: int, lo: int, hi: int, count: int) {
    && Plays(s, deeds, y) && y.clock == clock && StartedBy(y.f, clock) && |y.f.flying| == s.cap
    && Started(y, lo, hi, count)
  }

  ghost predicate Sensible(s: Stage) {
    s.p.openFor > 0 && s.p.failureThreshold >= 1 && s.cap >= 1
  }

  /** All but one of a crowd start one openFor before `now`; at `now` failures come to the threshold, and it bursts. */
  lemma FirstLoad(s: Stage, now: int, hi: int) returns (deeds: seq<Deed>, y: Scene)
    requires Sensible(s) && s.first == Opening(now - s.p.openFor) && now < hi
    ensures Full(s, deeds, y, now, now, hi, s.p.failureThreshold - 1 + Triangle(s.cap))
  {
    deeds, y := BeforeLoad(s, now, hi);
    deeds, y := FailuresInSequence(s, deeds, y, s.p.failureThreshold - 1, now, hi, 0);
    deeds, y := Burst(s, deeds, y, now, hi, s.p.failureThreshold - 1);
  }

  lemma BeforeLoad(s: Stage, now: int, hi: int) returns (deeds: seq<Deed>, y: Scene)
    requires Sensible(s) && s.first == Opening(now - s.p.openFor) && now < hi
    ensures Plays(s, deeds, y) && y.clock == now && y.b == CLOSED && Started(y, now, hi, 0)
    ensures |y.f.flying| == s.cap - 1 && StartedBy(y.f, now - s.p.openFor)
  {
    assert Plays(s, [], s.first) && Started(s.first, now, hi, 0);
    deeds, y := TakeOffs(s, [], s.first, s.cap - 1, now, hi, 0);
    assert (s.cap - 1) * Hits(s.first.clock, now, hi) == 0;
    deeds, y := Waits(s, deeds, y, now);
  }

  /** One openFor later the whole crowd is old: one of it crashes, and the rest bursts. */
  lemma NextLoad(s: Stage, deeds: seq<Deed>, x: Scene, clock: int, lo: int, hi: int, count: int)
    returns (more: seq<Deed>, y: Scene)
    requires Sensible(s) && Full(s, deeds, x, clock, lo, hi, count) && lo <= clock && clock + s.p.openFor < hi
    ensures Full(s, more, y, clock + s.p.openFor, lo, hi, count + Triangle(s.cap))
  {
    more, y := Waits(s, deeds, x, clock + s.p.openFor);
    more, y := OldCrashes(s, more, y);
    more, y := Burst(s, more, y, lo, hi, count);
  }

  /** base, and n steps of d on. */
  function Slot(base: int, d: int, n: nat): int {
    if n == 0 then base else Slot(base, d, n - 1) + d
  }

  lemma {:induction false} SlotsGrow(base: int, d: int, m: nat, n: nat)
    requires m < n && d > 0
    ensures Slot(base, d, m) + d <= Slot(base, d, n)
    decreases n
  {
    if m < n - 1 { SlotsGrow(base, d, m, n - 1); }
  }

  lemma {:induction false} SlotIsProduct(base: int, d: int, n: nat)
    ensures Slot(base, d, n) == base + n * d
  {
    if n > 0 {
      SlotIsProduct(base, d, n - 1);
      Successor(n - 1, d);
    }
  }

  // After k periods of openFor.
  ghost predicate FullAfter(s: Stage, deeds: seq<Deed>, y: Scene, now: int, hi: int, k: nat, each: nat) {
    Full(s, deeds, y, Slot(now, s.p.openFor, k), now, hi, Slot(s.p.failureThreshold - 1 + each, each, k))
  }

  lemma {:induction false} FullLoad(s: Stage, now: int, hi: int, k: nat, each: nat)
    returns (deeds: seq<Deed>, y: Scene)
    requires Sensible(s) && s.first == Opening(now - s.p.openFor) && Slot(now, s.p.openFor, k) < hi
    requires each == Triangle(s.cap)
    ensures FullAfter(s, deeds, y, now, hi, k, each)
  {
    if k == 0 {
      deeds, y := FirstLoad(s, now, hi);
    } else {
      deeds, y := FullLoad(s, now, hi, k - 1, each);
      deeds, y := LoadAgain(s, deeds, y, now, hi, k - 1, each);
    }
  }

  lemma LoadAgain(s: Stage, deeds: seq<Deed>, x: Scene, now: int, hi: int, k: nat, each: nat)
    returns (more: seq<Deed>, y: Scene)
    requires Sensible(s) && FullAfter(s, deeds, x, now, hi, k, each) && each == Triangle(s.cap)
    requires Slot(now, s.p.openFor, k + 1) < hi
    ensures FullAfter(s, more, y, now, hi, k + 1, each)
  {
    if k > 0 { SlotsGrow(now, s.p.openFor, 0, k); }
    more, y := NextLoad(s, deeds, x, Slot(now, s.p.openFor, k), now, hi,
                        Slot(s.p.failureThreshold - 1 + each, each, k));
  }

  // ---- the exact load ----

  /** A run in which, from an idle point on, every exchange of the audience fails and at most cap are in flight. */
  ghost predicate OutageFrom(c: Config, st: State, aud: string, n: nat, cap: nat) {
    && Reached(c, st) && n <= |st.journal| && Idle(st.journal[..n], aud)
    && Failing(st.journal, aud, n) && Capped(st.journal, aud, n, cap)
  }

  /**
   * With at most cap in flight, an outage whose exchanges start in the order of their clock readings starts at most
   * threshold - 1 + (floor(length / openFor) + 1) * (1 + ... + cap) of them in any interval.
   */
  lemma CrowdKeepsBound(c: Config, st: State, aud: string, n: nat, cap: nat, lo: int, length: nat)
    requires OutageFrom(c, st, aud, n, cap) && Ordered(Attempts(st.journal, aud, n)) && c.renewBefore >= 0
    requires c.policy.failureThreshold >= 1 && c.policy.openFor > 0
    ensures Count(Attempts(st.journal, aud, n), lo, lo + length + 1)
            <= c.policy.failureThreshold - 1 + (length / c.policy.openFor + 1) * Triangle(cap)
  {
    JournalIsLawful(c, st);
    CrowdedLoad(c, st.journal, aud, n, cap, lo, length);
  }

  /** An outage from the start on that starts that many exchanges in [lo, hi). */
  ghost predicate Fills(c: Config, st: State, aud: string, cap: nat, lo: int, hi: int, count: int) {
    && OutageFrom(c, st, aud, 0, cap) && Ordered(Attempts(st.journal, aud, 0))
    && Count(Attempts(st.journal, aud, 0), lo, hi) == count
  }

  lemma PlayFills(c: Config, aud: string, s: Stage, deeds: seq<Deed>, y: Scene, lo: int, hi: int, count: int)
    requires Plays(s, deeds, y) && Started(y, lo, hi, count) && s.p == c.policy && c.renewBefore >= 0
    requires s.first == Opening(s.first.clock) && Reading(s.first.clock)
    ensures exists st :: Fills(c, st, aud, s.cap, lo, hi, count)
  {
    var st := Shown(c, aud, s, deeds, y);
    assert Fills(c, st, aud, s.cap, lo, hi, count);
  }

  /** The run behind a play. */
  lemma Shown(c: Config, aud: string, s: Stage, deeds: seq<Deed>, y: Scene) returns (st: State)
    requires Plays(s, deeds, y) && s.p == c.policy && c.renewBefore >= 0
    requires s.first == Opening(s.first.clock) && Reading(s.first.clock)
    ensures Shows(c, st, aud, s.cap, y) && OutageFrom(c, st, aud, 0, s.cap)
  {
    PlaysHappen(c, aud, s, deeds, y);
    st :| Shows(c, st, aud, s.cap, y);
    assert st.journal[..0] == [];
  }

  /** That many are reached, for every cap and every number of openFor periods. */
  lemma CrowdReachesBound(c: Config, aud: string, now: int, cap: nat, k: nat, hi: int, count: int)
    requires Reading(now - c.policy.openFor) && c.renewBefore >= 0 && cap >= 1
    requires c.policy.failureThreshold >= 1 && c.policy.openFor > 0
    requires hi == now + k * c.policy.openFor + 1 && count == c.policy.failureThreshold - 1 + (k + 1) * Triangle(cap)
    ensures exists st :: Fills(c, st, aud, cap, now, hi, count)
  {
    SlotIsProduct(now, c.policy.openFor, k);
    SlotIsProduct(c.policy.failureThreshold - 1 + Triangle(cap), Triangle(cap), k);
    Successor(k, Triangle(cap));
    LoadHappens(c, aud, Stage(c.policy, cap, Opening(now - c.policy.openFor)), now, k, hi, Triangle(cap), count);
  }

  lemma LoadHappens(c: Config, aud: string, s: Stage, now: int, k: nat, hi: int, each: nat, count: int)
    requires Sensible(s) && s.first == Opening(now - s.p.openFor) && Slot(now, s.p.openFor, k) < hi
    requires s.p == c.policy && c.renewBefore >= 0 && Reading(now - s.p.openFor)
    requires each == Triangle(s.cap) && count == Slot(s.p.failureThreshold - 1 + each, each, k)
    ensures exists st :: Fills(c, st, aud, s.cap, now, hi, count)
  {
    var deeds, y := FullLoad(s, now, hi, k, each);
    FullFills(c, aud, s, deeds, y, now, hi, k, each, count);
  }

  lemma FullFills(c: Config, aud: string, s: Stage, deeds: seq<Deed>, y: Scene, now: int, hi: int, k: nat,
                  each: nat, count: int)
    requires FullAfter(s, deeds, y, now, hi, k, each) && count == Slot(s.p.failureThreshold - 1 + each, each, k)
    requires s.p == c.policy && c.renewBefore >= 0 && s.first == Opening(s.first.clock) && Reading(s.first.clock)
    ensures exists st :: Fills(c, st, aud, s.cap, now, hi, count)
  {
    PlayFills(c, aud, s, deeds, y, now, hi, count);
  }

  /** Exchanges started in any interval of length T number at most threshold + floor(T / openFor). */
  ghost predicate LoadKept(c: Config, j: Journal, aud: string, n: nat)
    requires c.policy.openFor > 0
  {
    forall lo: int, hi: int :: lo < hi ==>
      Count(Attempts(j, aud, n), lo, hi) <= c.policy.failureThreshold + (hi - 1 - lo) / c.policy.openFor
  }

  lemma CrowdBreaksLoad(c: Config, aud: string, cap: nat)
    requires c.renewBefore >= 0 && c.policy.failureThreshold >= 1 && c.policy.openFor > 0 && cap >= 2
    ensures exists st :: OutageFrom(c, st, aud, 0, cap) && !LoadKept(c, st.journal, aud, 0)
  {
    var now := MIN_REISSUE_AGE + c.policy.openFor;
    var count := c.policy.failureThreshold - 1 + Triangle(cap);
    CrowdReachesBound(c, aud, now, cap, 0, now + 1, count);
    var st :| Fills(c, st, aud, cap, now, now + 1, count);
    FilledBreaksLoad(c, st, aud, cap, now, count);
  }

  lemma FilledBreaksLoad(c: Config, st: State, aud: string, cap: nat, now: int, count: int)
    requires Fills(c, st, aud, cap, now, now + 1, count) && c.policy.openFor > 0 && cap >= 2
    requires count == c.policy.failureThreshold - 1 + Triangle(cap)
    ensures OutageFrom(c, st, aud, 0, cap) && !LoadKept(c, st.journal, aud, 0)
  {
    TriangleGrows(2, cap);
    assert Triangle(2) == 3;
    assert (now + 1 - 1 - now) / c.policy.openFor == 0;
  }

  /**
   * The breaker keeps every outage to its bound exactly when at most one exchange of an audience is in flight at
   * a time, which nothing but the callers can see to.
   */
  lemma LoadIsKeptIffAlone(c: Config, aud: string, cap: nat)
    requires c.renewBefore >= 0 && c.policy.failureThreshold >= 1 && c.policy.openFor > 0
    ensures (forall st, n :: OutageFrom(c, st, aud, n, cap) ==> LoadKept(c, st.journal, aud, n)) <==> cap <= 1
  {
    if cap <= 1 {
      forall st, n | OutageFrom(c, st, aud, n, cap)
        ensures LoadKept(c, st.journal, aud, n)
      {
        JournalIsLawful(c, st);
        forall lo: int, hi: int | lo < hi
          ensures Count(Attempts(st.journal, aud, n), lo, hi)
                  <= c.policy.failureThreshold + (hi - 1 - lo) / c.policy.openFor
        {
          CappedLoad(c, st.journal, aud, n, cap, lo, hi - 1 - lo);
        }
      }
    } else {
      CrowdBreaksLoad(c, aud, cap);
    }
  }

  // ---- calls that start late ----

  // The calls from number i on to n are still to start, with readings one openFor apart.
  ghost predicate Stale(s: Stage, x: Scene, base: int, i: nat, n: nat) {
    && i <= n && x.clock == Slot(base, s.p.openFor, n) && x.f.flying == map[] && n <= x.f.next
    && (forall id :: i <= id < n ==> id in x.f.ready && x.f.ready[id] == Slot(base, s.p.openFor, id))
    && (x.b.failures < s.p.failureThreshold || x.b.openUntil <= Slot(base, s.p.openFor, i))
    && Count(x.starts, x.clock, x.clock + 1) == i
  }

  // n calls have read the clock, one openFor apart, and nothing has started.
  ghost predicate Lined(x: Scene, base: int, d: int, n: nat) {
    && x.f.next == n && x.f.flying == map[] && x.clock == Slot(base, d, n) && x.b == CLOSED && x.starts == []
    && (forall id :: 0 <= id < n ==> id in x.f.ready && x.f.ready[id] == Slot(base, d, id))
  }

  lemma {:induction false} Readings(s: Stage, base: int, n: nat) returns (deeds: seq<Deed>, y: Scene)
    requires s.p.openFor > 0 && s.first == Opening(base)
    ensures Plays(s, deeds, y) && Lined(y, base, s.p.openFor, n)
  {
    if n == 0 {
      deeds, y := [], s.first;
    } else {
      deeds, y := Readings(s, base, n - 1);
      deeds, y := OneReading(s, deeds, y, base, n - 1);
    }
  }

  lemma OneReading(s: Stage, deeds: seq<Deed>, x: Scene, base: int, n: nat) returns (more: seq<Deed>, y: Scene)
    requires s.p.openFor > 0 && Plays(s, deeds, x) && Lined(x, base, s.p.openFor, n)
    ensures Plays(s, more, y) && Lined(y, base, s.p.openFor, n + 1)
  {
    more, y := Next(s, deeds, x, Read);
    more, y := Waits(s, more, y, Slot(base, s.p.openFor, n + 1));
  }

  // A new exchange and an old one are in flight, the new one's number and the old one's with it.
  ghost predicate Paired(x: Scene, newer: nat, older: nat, start: int) {
    newer != older && x.f.flying == map[newer := x.clock, older := start]
  }

  /** Call i starts with its old reading, and a new one beside it. */
  lemma StaleStart(s: Stage, deeds: seq<Deed>, x: Scene, base: int, i: nat, n: nat)
    returns (more: seq<Deed>, y: Scene, newer: nat)
    requires Sensible(s) && s.cap >= 2 && Plays(s, deeds, x) && Stale(s, x, base, i, n) && i < n
    ensures Plays(s, more, y) && Paired(y, newer, i, Slot(base, s.p.openFor, i))
    ensures y.clock == x.clock && y.b == x.b && n <= y.f.next && y.f.ready == x.f.ready - {i}
    ensures y.starts == x.starts + [Slot(base, s.p.openFor, i)] + [x.clock]
  {
    SlotsGrow(base, s.p.openFor, i, n);
    more, y := Next(s, deeds, x, Off(i));
    assert y.f.flying == map[i := Slot(base, s.p.openFor, i)];
    newer := y.f.next;
    more, y := TakesOff(s, more, y);
  }

  lemma PairCrashes(s: Stage, deeds: seq<Deed>, x: Scene, newer: nat, older: nat, start: int)
    returns (more: seq<Deed>, y: Scene)
    requires Plays(s, deeds, x) && Paired(x, newer, older, start)
    ensures Plays(s, more, y) && y.f == x.f.(flying := map[]) && y.clock == x.clock && y.starts == x.starts
    ensures y.b == AfterFailure(s.p, AfterFailure(s.p, x.b, x.clock), start)
  {
    more, y := Crashes(s, deeds, x, newer);
    more, y := Crashes(s, more, y, older);
    assert y.f.flying == map[];
  }

  lemma StillStale(s: Stage, x: Scene, y: Scene, base: int, i: nat, n: nat, start: int)
    requires Sensible(s) && Stale(s, x, base, i, n) && i < n && start == Slot(base, s.p.openFor, i)
    requires y.clock == x.clock && y.f.flying == map[] && n <= y.f.next && y.f.ready == x.f.ready - {i}
    requires y.starts == x.starts + [start] + [x.clock]
    requires y.b == AfterFailure(s.p, AfterFailure(s.p, x.b, x.clock), start)
    ensures Stale(s, y, base, i + 1, n)
  {
    SlotsGrow(base, s.p.openFor, i, n);
    CountAppend(x.starts, start, x.clock, x.clock + 1);
    CountAppend(x.starts + [start], x.clock, x.clock, x.clock + 1);
  }

  /** Both fail, the old one last, which leaves the circuit open to the next old reading. */
  lemma StaleRound(s: Stage, deeds: seq<Deed>, x: Scene, base: int, i: nat, n: nat)
    returns (more: seq<Deed>, y: Scene)
    requires Sensible(s) && s.cap >= 2 && Plays(s, deeds, x) && Stale(s, x, base, i, n) && i < n
    ensures Plays(s, more, y) && Stale(s, y, base, i + 1, n)
  {
    var start, newer := Slot(base, s.p.openFor, i), 0;
    more, y, newer := StaleStart(s, deeds, x, base, i, n);
    more, y := PairCrashes(s, more, y, newer, i, start);
    StillStale(s, x, y, base, i, n, start);
  }

  lemma {:induction false} StaleRounds(s: Stage, base: int, i: nat, n: nat) returns (deeds: seq<Deed>, y: Scene)
    requires Sensible(s) && s.cap >= 2 && s.first == Opening(base) && i <= n
    ensures Plays(s, deeds, y) && Stale(s, y, base, i, n)
  {
    if i == 0 {
      deeds, y := Readings(s, base, n);
    } else {
      deeds, y := StaleRounds(s, base, i - 1, n);
      deeds, y := StaleRound(s, deeds, y, base, i - 1, n);
    }
  }

  /** An outage from the start on, with that many starts at one instant. */
  ghost predicate Crowded(c: Config, st: State, aud: string, cap: nat, now: int, count: int) {
    OutageFrom(c, st, aud, 0, cap) && Count(Attempts(st.journal, aud, 0), now, now + 1) == count
  }

  /** Without order there is no bound: with two in flight, calls that stall can make any number start at one instant. */
  lemma StaleReadingsAddUp(c: Config, aud: string, cap: nat, n: nat)
    requires c.renewBefore >= 0 && c.policy.failureThreshold >= 1 && c.policy.openFor > 0 && cap >= 2
    ensures exists st, now :: Crowded(c, st, aud, cap, now, n)
  {
    var s := Stage(c.policy, cap, Opening(MIN_REISSUE_AGE));
    var deeds, y := StaleRounds(s, MIN_REISSUE_AGE, n, n);
    var st := Shown(c, aud, s, deeds, y);
    assert Crowded(c, st, aud, cap, y.clock, n);
  }

  /** In every reachable outage, at most that many exchanges start at one instant. */
  ghost predicate Limited(c: Config, aud: string, cap: nat, bound: int) {
    forall st, now, count :: Crowded(c, st, aud, cap, now, count) ==> count <= bound
  }

  /** Some number bounds them exactly when at most one exchange is in flight at a time. */
  lemma LoadIsLimitedIffAlone(c: Config, aud: string, cap: nat)
    requires c.renewBefore >= 0 && c.policy.failureThreshold >= 1 && c.policy.openFor > 0
    ensures (exists bound :: Limited(c, aud, cap, bound)) <==> cap <= 1
  {
    if cap <= 1 {
      forall st, now, count | Crowded(c, st, aud, cap, now, count)
        ensures count <= c.policy.failureThreshold
      {
        JournalIsLawful(c, st);
        CappedLoad(c, st.journal, aud, 0, cap, now, 0);
      }
      assert Limited(c, aud, cap, c.policy.failureThreshold);
    } else {
      forall bound
        ensures !Limited(c, aud, cap, bound)
      {
        var n := Max(bound, 0) + 1;
        StaleReadingsAddUp(c, aud, cap, n);
      }
    }
  }

  // ---- when the circuit reopens ----

  /** Two exchanges overlap: the first starts at now, the second delay later, and fails first. */
  lemma Crossing(s: Stage, now: int, delay: nat) returns (deeds: seq<Deed>, y: Scene, id: nat)
    requires s.first == Opening(now) && s.p.failureThreshold >= 1 && s.cap >= 2
    ensures Plays(s, deeds, y) && id in y.f.flying && y.f.flying[id] == now
    ensures y.b == Breaker(s.p.failureThreshold, now + delay + s.p.openFor)
  {
    assert Plays(s, [], s.first) && Started(s.first, 0, 0, 0);
    deeds, y := FailuresInSequence(s, [], s.first, s.p.failureThreshold - 1, 0, 0, 0);
    id := y.f.next;
    deeds, y := TakesOff(s, deeds, y);
    deeds, y := Waits(s, deeds, y, now + delay);
    var second := y.f.next;
    deeds, y := TakesOff(s, deeds, y);
    deeds, y := Crashes(s, deeds, y, second);
  }

  /** The last failure recorded moved the instant of reopening back, from late to early. */
  ghost predicate MovesBack(c: Config, st: State, aud: string, late: int, early: int) {
    && |st.journal| > 0 && BreakerOf(c, st.journal[..|st.journal| - 1], aud).openUntil == late
    && BreakerAt(st, aud).openUntil == early
  }

  /** A slow failure reopens the circuit early, by as much as its exchange started before the last one recorded. */
  lemma SlowFailureReopensEarly(c: Config, aud: string, now: int, delay: nat, cap: nat)
    requires Reading(now) && c.renewBefore >= 0 && c.policy.failureThreshold >= 1 && cap >= 2
    ensures var late, early := now + delay + c.policy.openFor, now + c.policy.openFor;
            exists st :: OutageFrom(c, st, aud, 0, cap) && MovesBack(c, st, aud, late, early)
  {
    var s := Stage(c.policy, cap, Opening(now));
    var deeds, x, id := Crossing(s, now, delay);
    var before := Shown(c, aud, s, deeds, x);
    LateFailure(c, before, aud, cap, x, id);
  }

  lemma LateFailure(c: Config, before: State, aud: string, cap: nat, x: Scene, id: nat)
    requires Shows(c, before, aud, cap, x) && id in x.f.flying && c.renewBefore >= 0
    requires x.b.failures >= c.policy.failureThreshold
    ensures var late, early := x.b.openUntil, x.f.flying[id] + c.policy.openFor;
            exists st :: OutageFrom(c, st, aud, 0, cap) && MovesBack(c, st, aud, late, early)
  {
    var st := Crash(c, before, aud, cap, x.f, id);
    BreakerIsTold(c, before, aud);
    assert st.journal[..|st.journal| - 1] == before.journal;
    assert st.journal[..0] == [];
    assert OutageFrom(c, st, aud, 0, cap) && MovesBack(c, st, aud, x.b.openUntil, x.f.flying[id] + c.policy.openFor);
  }

  /** The instant of reopening never moves back in an outage exactly when at most one exchange is in flight. */
  lemma ReopeningIsKeptIffAlone(c: Config, aud: string, cap: nat)
    requires c.renewBefore >= 0 && c.policy.failureThreshold >= 1 && c.policy.openFor >= 0
    ensures (forall st, n :: OutageFrom(c, st, aud, n, cap) ==> NeverEarlier(c, st.journal, aud, n)) <==> cap <= 1
  {
    if cap <= 1 {
      forall st, n | OutageFrom(c, st, aud, n, cap)
        ensures NeverEarlier(c, st.journal, aud, n)
      {
        JournalIsLawful(c, st);
        AloneIsDown(c, st.journal, aud, n, cap);
        AloneNeverEarlier(c, st.journal, aud, n);
      }
    } else {
      var early := MIN_REISSUE_AGE + c.policy.openFor;
      SlowFailureReopensEarly(c, aud, MIN_REISSUE_AGE, 1, cap);
      var st :| OutageFrom(c, st, aud, 0, cap) && MovesBack(c, st, aud, early + 1, early);
      BreakerIsTold(c, st, aud);
      assert !NeverEarlier(c, st.journal, aud, 0);
    }
  }
}
