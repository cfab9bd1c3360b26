/**
 * Runs of the token client in which IAM does not answer, told as plays: calls read the clock, start exchanges and
 * find IAM unreachable, and time passes. Every play is a run of the step system.
 */
module TokenPlays {
  import opened Wrappers
  import opened TokenBreaker
  import opened TokenEntry
  import opened TokenJournal
  import opened TokenOutage
  import opened TokenSteps
  import opened TokenRuns

  // ---- runs of one call ----

  lemma RunAppend(c: Config, st: State, steps: seq<Step>, s: Step)
    ensures Run(c, st, steps + [s]) == Apply(c, Run(c, st, steps), s)
  {
    assert (steps + [s])[..|steps|] == steps;
  }

  lemma TameAppend(steps: seq<Step>, s: Step)
    requires AllTame(steps) && Tame(s)
    ensures AllTame(steps + [s])
  {
    assert forall x :: x in steps + [s] ==> x in steps || x == s;
  }

  lemma ReachedStep(c: Config, st: State, s: Step)
    requires Reached(c, st) && Tame(s)
    ensures Reached(c, Apply(c, st, s))
  {
    var clock: int, steps :| Reading(clock) && AllTame(steps) && st == Run(c, Start(clock), steps);
    RunAppend(c, Start(clock), steps, s);
    TameAppend(steps, s);
  }

  // The state after a move, spelled out.
  ghost predicate Moves(st: State, after: State, id: nat, t: Target, m: Moved) {
    && after.clock == st.clock && after.journal == st.journal + m.marks
    && after.threads == st.threads[id := m.thread]
    && after.owner == (match m.lock case Same => st.owner case Take => st.owner[t := id] case Drop => st.owner - {t})
    && (forall u: Target :: EntryAt(after, u) == if u == t then m.entry else EntryAt(st, u))
    && (forall a: string :: BreakerAt(after, a) == if a == t.aud then m.breaker else BreakerAt(st, a))
  }

  lemma CommitMoves(st: State, id: nat, t: Target, m: Moved)
    ensures Moves(st, Commit(st, id, t, m), id, t, m)
  {}

  lemma ActMoves(c: Config, st: State, id: nat, a: Action, m: Moved)
    requires Reached(c, st) && id in st.threads && MoveOf(c, st, id, a) == Some(m) && (a.Talk? ==> Modest(a.x))
    ensures Reached(c, Act(c, st, id, a)) && Moves(st, Act(c, st, id, a), id, st.threads[id].target, m)
  {
    ReachedStep(c, st, Do(id, a));
    CommitMoves(st, id, st.threads[id].target, m);
  }

  function Caller(t: Target, pc: Pc, w: Worker, at: int): Thread {
    Thread(t, TokenCall, pc, w, false, at, false)
  }

  // st with one call at the given point, and its lock taken or free.
  ghost predicate With(st: State, at: State, id: nat, th: Thread, owner: map<Target, nat>, j: Journal) {
    && at.clock == st.clock && at.journal == j && at.owner == owner && at.threads == st.threads[id := th]
    && (forall u: Target :: EntryAt(at, u) == EntryAt(st, u))
  }

  lemma BeginRuns(c: Config, st: State, id: nat, t: Target)
    requires Reached(c, st) && id !in st.threads
    ensures var at := Enter(st, id, t, TokenCall);
            Reached(c, at) && With(st, at, id, Caller(t, Trying, NoWorker, 0), st.owner, st.journal)
            && BreakerAt(at, t.aud) == BreakerAt(st, t.aud)
  {
    ReachedStep(c, st, Begin(id, t, TokenCall));
  }

  lemma LockRuns(c: Config, st: State, begun: State, id: nat, t: Target)
    requires Reached(c, begun) && t !in st.owner
    requires With(st, begun, id, Caller(t, Trying, NoWorker, 0), st.owner, st.journal)
    ensures var at := Act(c, begun, id, TryLock);
            Reached(c, at) && With(st, at, id, Caller(t, Timing, NoWorker, 0), st.owner[t := id], st.journal)
            && BreakerAt(at, t.aud) == BreakerAt(begun, t.aud)
  {
    var m := Moved(Caller(t, Timing, NoWorker, 0), EntryAt(st, t), BreakerAt(begun, t.aud), Take, []);
    ActMoves(c, begun, id, TryLock, m);
    assert st.journal + [] == st.journal;
    Overwritten(st.threads, id, Caller(t, Trying, NoWorker, 0), m.thread);
  }

  lemma Overwritten(threads: map<nat, Thread>, id: nat, th: Thread, next: Thread)
    ensures threads[id := th][id := next] == threads[id := next]
  {}

  lemma ClockRuns(c: Config, st: State, locked: State, id: nat, t: Target, owner: map<Target, nat>)
    requires Reached(c, locked) && t in owner
    requires With(st, locked, id, Caller(t, Timing, NoWorker, 0), owner, st.journal)
    ensures var at := Act(c, locked, id, ReadClock);
            Reached(c, at) && With(st, at, id, Caller(t, Deciding(st.clock), NoWorker, 0), owner, st.journal)
            && BreakerAt(at, t.aud) == BreakerAt(locked, t.aud)
  {
    var m := Moved(Caller(t, Deciding(st.clock), NoWorker, 0), EntryAt(st, t), BreakerAt(locked, t.aud), Same, []);
    ActMoves(c, locked, id, ReadClock, m);
    assert st.journal + [] == st.journal;
    Overwritten(st.threads, id, Caller(t, Timing, NoWorker, 0), m.thread);
  }

  function InFlight(t: Target, now: int): Thread {
    Caller(t, Awaiting, Exchanging(now, false), now)
  }

  /** A call takes its lock and reads the clock. */
  lemma AskRuns(c: Config, st: State, id: nat, t: Target) returns (after: State)
    requires Reached(c, st) && id !in st.threads && t !in st.owner
    ensures Reached(c, after)
    ensures With(st, after, id, Caller(t, Deciding(st.clock), NoWorker, 0), st.owner[t := id], st.journal)
    ensures BreakerAt(after, t.aud) == BreakerAt(st, t.aud)
  {
    BeginRuns(c, st, id, t);
    var begun := Enter(st, id, t, TokenCall);
    LockRuns(c, st, begun, id, t);
    var locked := Act(c, begun, id, TryLock);
    ClockRuns(c, st, locked, id, t, st.owner[t := id]);
    after := Act(c, locked, id, ReadClock);
  }

  /** With nothing cached and the breaker willing, it starts an exchange with the instant it has read. */
  lemma GoRuns(c: Config, st: State, id: nat, t: Target, now: int) returns (after: State)
    requires Reached(c, st) && id in st.threads && st.threads[id] == Caller(t, Deciding(now), NoWorker, 0)
    requires t in st.owner && EntryAt(st, t) == FRESH && Allows(c.policy, BreakerAt(st, t.aud), now)
    ensures Reached(c, after) && With(st, after, id, InFlight(t, now), st.owner, st.journal + [Launched(t, now)])
    ensures BreakerAt(after, t.aud) == BreakerAt(st, t.aud)
  {
    var m := Moved(InFlight(t, now), FRESH, BreakerAt(st, t.aud), Same, [Launched(t, now)]);
    ActMoves(c, st, id, Choose, m);
    after := Act(c, st, id, Choose);
  }

  const REFUSED := Err(Rejected(Transport))

  const REFUSAL := Refused(Transport)

  lemma TalkRuns(c: Config, st: State, id: nat, t: Target, now: int)
    requires Reached(c, st) && id in st.threads && st.threads[id] == InFlight(t, now)
    ensures var at := Act(c, st, id, Talk(Unreachable));
            Reached(c, at) && With(st, at, id, Caller(t, Awaiting, Stored(REFUSED), now), st.owner,
                                   st.journal + [Settled(t, now, REFUSAL)])
  {
    var m := Moved(Caller(t, Awaiting, Stored(REFUSED), now), EntryAt(st, t),
                   AfterFailure(c.policy, BreakerAt(st, t.aud), now), Same, [Settled(t, now, REFUSAL)]);
    ActMoves(c, st, id, Talk(Unreachable), m);
  }

  lemma SendRuns(c: Config, st: State, told: State, id: nat, t: Target, now: int, j: Journal)
    requires Reached(c, told) && With(st, told, id, Caller(t, Awaiting, Stored(REFUSED), now), st.owner, j)
    ensures var at := Act(c, told, id, Send);
            Reached(c, at) && With(st, at, id, Caller(t, Awaiting, Sent(REFUSED), now), st.owner, j)
  {
    var m := Moved(Caller(t, Awaiting, Sent(REFUSED), now), EntryAt(st, t), BreakerAt(told, t.aud), Same, []);
    ActMoves(c, told, id, Send, m);
    assert j + [] == j;
    Overwritten(st.threads, id, Caller(t, Awaiting, Stored(REFUSED), now), m.thread);
  }

  lemma UnlockRuns(c: Config, st: State, sent: State, id: nat, t: Target, now: int, j: Journal)
    requires Reached(c, sent) && With(st, sent, id, Caller(t, Awaiting, Sent(REFUSED), now), st.owner, j)
    requires t in st.owner
    ensures var at := Act(c, sent, id, Unlock);
            Reached(c, at) && With(st, at, id, Caller(t, Awaiting, Gone(REFUSED), now), st.owner - {t}, j)
  {
    var m := Moved(Caller(t, Awaiting, Gone(REFUSED), now), EntryAt(st, t), BreakerAt(sent, t.aud), Drop, []);
    ActMoves(c, sent, id, Unlock, m);
    assert j + [] == j;
    Overwritten(st.threads, id, Caller(t, Awaiting, Sent(REFUSED), now), m.thread);
  }

  /** An exchange under way may find IAM unreachable; its worker then records the failure and frees the lock. */
  lemma FailRuns(c: Config, st: State, id: nat, t: Target, now: int) returns (after: State)
    requires Reached(c, st) && id in st.threads && st.threads[id] == InFlight(t, now) && t in st.owner
    ensures Reached(c, after)
    ensures With(st, after, id, Caller(t, Awaiting, Gone(REFUSED), now), st.owner - {t},
                 st.journal + [Settled(t, now, REFUSAL)])
  {
    var j := st.journal + [Settled(t, now, REFUSAL)];
    TalkRuns(c, st, id, t, now);
    var told := Act(c, st, id, Talk(Unreachable));
    SendRuns(c, st, told, id, t, now, j);
    var sent := Act(c, told, id, Send);
    UnlockRuns(c, st, sent, id, t, now, j);
    after := Act(c, sent, id, Unlock);
  }

  // ---- runs of many calls ----

  function Scope(n: nat): (s: string)
    ensures |s| == n
  {
    seq(n, _ => 's')
  }

  /** Every call has a scope of its own. */
  function Flight(aud: string, id: nat): Target { Target(aud, Scope(id)) }

  // The next call's number, and by number the calls that have read the clock and the exchanges in flight, each with
  // the instant that was read.
  datatype Fleet = Fleet(next: nat, ready: map<nat, int>, flying: map<nat, int>)

  /** Calls are numbered below next, and nothing is cached. */
  ghost predicate Numbered(st: State, next: nat) {
    && (forall id :: id in st.threads ==> id < next) && (forall t :: t in st.owner ==> |t.scope| < next)
    && (forall u: Target :: EntryAt(st, u) == FRESH)
  }

  ghost predicate Ready(st: State, aud: string, id: nat, now: int) {
    && id in st.threads && st.threads[id] == Caller(Flight(aud, id), Deciding(now), NoWorker, 0)
    && Flight(aud, id) in st.owner
  }

  ghost predicate Up(st: State, aud: string, id: nat, start: int) {
    && id in st.threads && st.threads[id] == InFlight(Flight(aud, id), start)
    && Flight(aud, id) in st.owner && Flight(aud, id) in Flying(st.journal, aud)
  }

  ghost predicate AllReady(st: State, aud: string, f: Fleet) {
    forall id :: id in f.ready ==> id < f.next && Ready(st, aud, id, f.ready[id])
  }

  ghost predicate AllUp(st: State, aud: string, f: Fleet) {
    forall id :: id in f.flying ==> id < f.next && Up(st, aud, id, f.flying[id])
  }

  /** A journal of an outage from the start on, with no more than k exchanges in flight at its end. */
  ghost predicate Outing(j: Journal, aud: string, cap: nat, k: nat) {
    Failing(j, aud, 0) && Capped(j, aud, 0, cap) && |Flying(j, aud)| <= k
  }

  ghost predicate Airborne(c: Config, st: State, aud: string, cap: nat, f: Fleet) {
    && Reached(c, st) && Numbered(st, f.next) && AllReady(st, aud, f) && AllUp(st, aud, f)
    && Outing(st.journal, aud, cap, |f.flying|)
  }

  lemma BreakerIsTold(c: Config, st: State, aud: string)
    requires Reached(c, st) && c.renewBefore >= 0
    ensures BreakerAt(st, aud) == BreakerOf(c, st.journal, aud)
  {
    JournalIsLawful(c, st);
  }

  const NOBODY := Fleet(0, map[], map[])

  lemma StartIsAirborne(c: Config, aud: string, now: int, cap: nat)
    requires Reading(now)
    ensures Airborne(c, Start(now), aud, cap, NOBODY) && BreakerAt(Start(now), aud) == CLOSED
    ensures Start(now).clock == now && Start(now).journal == []
  {
    assert Run(c, Start(now), []) == Start(now) && AllTame([]);
    assert Flying([], aud) == {};
  }

  // What a change of one thread, and of the lock of its own target, leaves of the others.
  ghost predicate Elsewhere(st: State, after: State, aud: string, id: nat) {
    && (forall k :: k in st.threads && k != id ==> k in after.threads && after.threads[k] == st.threads[k])
    && (forall t :: t in st.owner && t != Flight(aud, id) ==> t in after.owner)
  }

  lemma OthersReady(st: State, after: State, aud: string, f: Fleet, id: nat)
    requires AllReady(st, aud, f) && Elsewhere(st, after, aud, id)
    ensures forall k :: k in f.ready && k != id ==> k < f.next && Ready(after, aud, k, f.ready[k])
  {
    forall k | k in f.ready && k != id
      ensures k < f.next && Ready(after, aud, k, f.ready[k])
    {
      assert Ready(st, aud, k, f.ready[k]);
      assert |Flight(aud, k).scope| == k && |Flight(aud, id).scope| == id;
    }
  }

  lemma OthersUp(st: State, after: State, aud: string, f: Fleet, id: nat)
    requires AllUp(st, aud, f) && Elsewhere(st, after, aud, id)
    requires Flying(st.journal, aud) - {Flight(aud, id)} <= Flying(after.journal, aud)
    ensures forall k :: k in f.flying && k != id ==> k < f.next && Up(after, aud, k, f.flying[k])
  {
    forall k | k in f.flying && k != id
      ensures k < f.next && Up(after, aud, k, f.flying[k])
    {
      assert Up(st, aud, k, f.flying[k]);
      assert |Flight(aud, k).scope| == k && |Flight(aud, id).scope| == id;
    }
  }

  // ---- a call reads the clock ----

  function Asked(f: Fleet, now: int): Fleet {
    f.(next := f.next + 1, ready := f.ready[f.next := now])
  }

  lemma AskedReady(st: State, after: State, aud: string, f: Fleet)
    requires AllReady(st, aud, f) && AllUp(st, aud, f) && Elsewhere(st, after, aud, f.next)
    requires Ready(after, aud, f.next, st.clock) && after.journal == st.journal
    ensures AllReady(after, aud, Asked(f, st.clock)) && AllUp(after, aud, Asked(f, st.clock))
  {
    OthersReady(st, after, aud, f, f.next);
    OthersUp(st, after, aud, f, f.next);
  }

  lemma NumberedMore(st: State, after: State, aud: string, next: nat, th: Thread)
    requires Numbered(st, next) && After(st, after, next, th)
    requires after.owner == st.owner[Flight(aud, next) := next]
    requires forall u: Target :: EntryAt(after, u) == EntryAt(st, u)
    ensures Numbered(after, next + 1) && Elsewhere(st, after, aud, next)
  {}

  ghost predicate After(st: State, after: State, id: nat, th: Thread) {
    after.threads == st.threads[id := th]
  }

  lemma AskedFrom(c: Config, st: State, after: State, aud: string, cap: nat, f: Fleet)
    requires Airborne(c, st, aud, cap, f) && Reached(c, after)
    requires With(st, after, f.next, Caller(Flight(aud, f.next), Deciding(st.clock), NoWorker, 0),
                  st.owner[Flight(aud, f.next) := f.next], st.journal)
    ensures Airborne(c, after, aud, cap, Asked(f, st.clock))
  {
    NumberedMore(st, after, aud, f.next, Caller(Flight(aud, f.next), Deciding(st.clock), NoWorker, 0));
    AskedReady(st, after, aud, f);
  }

  lemma Ask(c: Config, st: State, aud: string, cap: nat, f: Fleet) returns (after: State)
    requires Airborne(c, st, aud, cap, f)
    ensures Airborne(c, after, aud, cap, Asked(f, st.clock))
    ensures after.clock == st.clock && BreakerAt(after, aud) == BreakerAt(st, aud) && after.journal == st.journal
  {
    after := AskRuns(c, st, f.next, Flight(aud, f.next));
    AskedFrom(c, st, after, aud, cap, f);
  }

  // ---- an exchange starts ----

  function Launch(f: Fleet, id: nat): Fleet
    requires id in f.ready
  {
    f.(ready := f.ready - {id}, flying := f.flying[id := f.ready[id]])
  }

  lemma OutingTakesOff(j: Journal, t: Target, now: int, cap: nat, k: nat)
    requires Outing(j, t.aud, cap, k) && k < cap
    ensures Outing(j + [Launched(t, now)], t.aud, cap, k + 1)
    ensures Flying(j + [Launched(t, now)], t.aud) == Flying(j, t.aud) + {t}
  {
    assert (j + [Launched(t, now)])[..|j|] == j;
    FlyingAppend(j, Launched(t, now), t.aud);
  }

  lemma MoreKeys(m: map<nat, int>, id: nat, x: int)
    requires id !in m
    ensures |m[id := x]| == |m| + 1
  {
    assert m[id := x].Keys == m.Keys + {id};
    assert |m[id := x]| == |m[id := x].Keys| && |m| == |m.Keys|;
  }

  lemma LaunchedUp(st: State, after: State, aud: string, f: Fleet, id: nat)
    requires AllReady(st, aud, f) && AllUp(st, aud, f) && Elsewhere(st, after, aud, id) && id in f.ready
    requires Flying(after.journal, aud) == Flying(st.journal, aud) + {Flight(aud, id)}
    requires Up(after, aud, id, f.ready[id])
    ensures AllReady(after, aud, Launch(f, id)) && AllUp(after, aud, Launch(f, id)) && id !in f.flying
  {
    assert Ready(st, aud, id, f.ready[id]);
    assert id in f.flying ==> Up(st, aud, id, f.flying[id]);
    OthersReady(st, after, aud, f, id);
    OthersUp(st, after, aud, f, id);
  }

  lemma NumberedStill(st: State, after: State, aud: string, next: nat, id: nat, th: Thread)
    requires Numbered(st, next) && After(st, after, id, th) && id in st.threads
    requires after.owner == st.owner || after.owner == st.owner - {Flight(aud, id)}
    requires forall u: Target :: EntryAt(after, u) == EntryAt(st, u)
    ensures Numbered(after, next) && Elsewhere(st, after, aud, id)
  {}

  lemma LaunchedFrom(c: Config, st: State, after: State, aud: string, cap: nat, f: Fleet, id: nat)
    requires Airborne(c, st, aud, cap, f) && |f.flying| < cap && Reached(c, after) && id in f.ready
    requires With(st, after, id, InFlight(Flight(aud, id), f.ready[id]), st.owner,
                  st.journal + [Launched(Flight(aud, id), f.ready[id])])
    ensures Airborne(c, after, aud, cap, Launch(f, id))
  {
    assert Ready(st, aud, id, f.ready[id]);
    OutingTakesOff(st.journal, Flight(aud, id), f.ready[id], cap, |f.flying|);
    NumberedStill(st, after, aud, f.next, id, InFlight(Flight(aud, id), f.ready[id]));
    LaunchedUp(st, after, aud, f, id);
    MoreKeys(f.flying, id, f.ready[id]);
  }

  lemma Go(c: Config, st: State, aud: string, cap: nat, f: Fleet, id: nat) returns (after: State)
    requires Airborne(c, st, aud, cap, f) && |f.flying| < cap && id in f.ready
    requires Allows(c.policy, BreakerAt(st, aud), f.ready[id])
    ensures Airborne(c, after, aud, cap, Launch(f, id))
    ensures after.clock == st.clock && BreakerAt(after, aud) == BreakerAt(st, aud)
    ensures after.journal == st.journal + [Launched(Flight(aud, id), f.ready[id])]
  {
    assert Ready(st, aud, id, f.ready[id]);
    after := GoRuns(c, st, id, Flight(aud, id), f.ready[id]);
    LaunchedFrom(c, st, after, aud, cap, f, id);
  }

  // ---- an exchange fails ----

  function Land(f: Fleet, id: nat): Fleet { f.(flying := f.flying - {id}) }

  lemma OutingCrashes(j: Journal, t: Target, now: int, cap: nat, k: nat)
    requires Outing(j, t.aud, cap, k) && t in Flying(j, t.aud)
    ensures k > 0 && Outing(j + [Settled(t, now, REFUSAL)], t.aud, cap, k - 1)
    ensures Flying(j + [Settled(t, now, REFUSAL)], t.aud) == Flying(j, t.aud) - {t}
  {
    assert (j + [Settled(t, now, REFUSAL)])[..|j|] == j;
    FlyingAppend(j, Settled(t, now, REFUSAL), t.aud);
  }

  lemma FewerKeys(m: map<nat, int>, id: nat)
    requires id in m
    ensures |m - {id}| == |m| - 1
  {
    assert (m - {id}).Keys == m.Keys - {id};
    assert |m - {id}| == |(m - {id}).Keys| && |m| == |m.Keys|;
  }

  lemma LandedUp(st: State, after: State, aud: string, f: Fleet, id: nat)
    requires AllReady(st, aud, f) && AllUp(st, aud, f) && Elsewhere(st, after, aud, id) && id in f.flying
    requires Flying(after.journal, aud) == Flying(st.journal, aud) - {Flight(aud, id)}
    ensures AllReady(after, aud, Land(f, id)) && AllUp(after, aud, Land(f, id))
  {
    assert Up(st, aud, id, f.flying[id]);
    assert id in f.ready ==> Ready(st, aud, id, f.ready[id]);
    OthersReady(st, after, aud, f, id);
    OthersUp(st, after, aud, f, id);
  }

  lemma LandedFrom(c: Config, st: State, after: State, aud: string, cap: nat, f: Fleet, id: nat, th: Thread)
    requires Airborne(c, st, aud, cap, f) && id in f.flying && Reached(c, after)
    requires With(st, after, id, th, st.owner - {Flight(aud, id)},
                  st.journal + [Settled(Flight(aud, id), f.flying[id], REFUSAL)])
    ensures Airborne(c, after, aud, cap, Land(f, id))
  {
    assert Up(st, aud, id, f.flying[id]);
    OutingCrashes(st.journal, Flight(aud, id), f.flying[id], cap, |f.flying|);
    NumberedStill(st, after, aud, f.next, id, th);
    LandedUp(st, after, aud, f, id);
    FewerKeys(f.flying, id);
  }

  lemma FailureTripsBreaker(c: Config, st: State, after: State, t: Target, now: int)
    requires Reached(c, st) && Reached(c, after) && after.journal == st.journal + [Settled(t, now, REFUSAL)]
    requires c.renewBefore >= 0
    ensures BreakerAt(after, t.aud) == AfterFailure(c.policy, BreakerAt(st, t.aud), now)
  {
    BreakerIsTold(c, st, t.aud);
    BreakerIsTold(c, after, t.aud);
    Extend(c, st.journal, Settled(t, now, REFUSAL), t, t.aud);
  }

  lemma Crash(c: Config, st: State, aud: string, cap: nat, f: Fleet, id: nat) returns (after: State)
    requires Airborne(c, st, aud, cap, f) && id in f.flying && c.renewBefore >= 0
    ensures Airborne(c, after, aud, cap, Land(f, id)) && after.clock == st.clock
    ensures BreakerAt(after, aud) == AfterFailure(c.policy, BreakerAt(st, aud), f.flying[id])
    ensures after.journal == st.journal + [Settled(Flight(aud, id), f.flying[id], REFUSAL)]
  {
    var t, now := Flight(aud, id), f.flying[id];
    assert Up(st, aud, id, now);
    after := FailRuns(c, st, id, t, now);
    LandedFrom(c, st, after, aud, cap, f, id, Caller(t, Awaiting, Gone(REFUSED), now));
    FailureTripsBreaker(c, st, after, t, now);
  }

  // ---- time passes ----

  lemma Wait(c: Config, st: State, aud: string, cap: nat, f: Fleet, to: int) returns (after: State)
    requires Airborne(c, st, aud, cap, f) && to >= st.clock
    ensures Airborne(c, after, aud, cap, f) && after.clock == to
    ensures after.journal == st.journal && BreakerAt(after, aud) == BreakerAt(st, aud)
  {
    ReachedStep(c, st, Tick(to));
    after := Later(st, to);
    assert forall u: Target :: EntryAt(after, u) == EntryAt(st, u);
    OthersReady(st, after, aud, f, f.next);
    OthersUp(st, after, aud, f, f.next);
  }

  // ---- runs seen from outside ----

  // What matters of a state of an outage: who is in flight, the clock, the breaker, and the starts so far.
  datatype Scene = Scene(f: Fleet, clock: int, b: Breaker, starts: seq<int>)

  ghost predicate Shows(c: Config, st: State, aud: string, cap: nat, x: Scene) {
    && Airborne(c, st, aud, cap, x.f) && st.clock == x.clock && BreakerAt(st, aud) == x.b
    && Attempts(st.journal, aud, 0) == x.starts
  }

  /** Some run of the client comes to that. */
  ghost predicate Happens(c: Config, aud: string, cap: nat, x: Scene) {
    exists st :: Shows(c, st, aud, cap, x)
  }

  datatype Deed = Read | Off(id: nat) | Down(id: nat) | Pass(to: int)

  // What stays the same in a play: the policy, the cap, and the first scene.
  datatype Stage = Stage(p: Policy, cap: nat, first: Scene)

  ghost predicate Able(s: Stage, x: Scene, d: Deed) {
    match d
    case Read => true
    case Off(id) => id in x.f.ready && |x.f.flying| < s.cap && Allows(s.p, x.b, x.f.ready[id])
    case Down(id) => id in x.f.flying
    case Pass(to) => to >= x.clock
  }

  ghost function Done(s: Stage, x: Scene, d: Deed): Scene
    requires Able(s, x, d)
  {
    match d
    case Read => x.(f := Asked(x.f, x.clock))
    case Off(id) => x.(f := Launch(x.f, id), starts := x.starts + [x.f.ready[id]])
    case Down(id) => x.(f := Land(x.f, id), b := AfterFailure(s.p, x.b, x.f.flying[id]))
    case Pass(to) => x.(clock := to)
  }

  lemma ReadHappens(c: Config, aud: string, cap: nat, x: Scene)
    requires Happens(c, aud, cap, x)
    ensures Happens(c, aud, cap, x.(f := Asked(x.f, x.clock)))
  {
    var st :| Shows(c, st, aud, cap, x);
    var after := Ask(c, st, aud, cap, x.f);
    assert Shows(c, after, aud, cap, x.(f := Asked(x.f, x.clock)));
  }

  lemma OffHappens(c: Config, aud: string, cap: nat, x: Scene, id: nat)
    requires Happens(c, aud, cap, x) && |x.f.flying| < cap && id in x.f.ready && Allows(c.policy, x.b, x.f.ready[id])
    ensures Happens(c, aud, cap, x.(f := Launch(x.f, id), starts := x.starts + [x.f.ready[id]]))
  {
    var st :| Shows(c, st, aud, cap, x);
    var after := Go(c, st, aud, cap, x.f, id);
    AttemptsAppend(st.journal, Launched(Flight(aud, id), x.f.ready[id]), aud, 0);
    assert Shows(c, after, aud, cap, x.(f := Launch(x.f, id), starts := x.starts + [x.f.ready[id]]));
  }

  lemma DownHappens(c: Config, aud: string, cap: nat, x: Scene, id: nat)
    requires Happens(c, aud, cap, x) && id in x.f.flying && c.renewBefore >= 0
    ensures Happens(c, aud, cap, x.(f := Land(x.f, id), b := AfterFailure(c.policy, x.b, x.f.flying[id])))
  {
    var st :| Shows(c, st, aud, cap, x);
    var after := Crash(c, st, aud, cap, x.f, id);
    AttemptsAppend(st.journal, Settled(Flight(aud, id), x.f.flying[id], REFUSAL), aud, 0);
    assert x.starts + [] == x.starts;
    assert Shows(c, after, aud, cap, x.(f := Land(x.f, id), b := AfterFailure(c.policy, x.b, x.f.flying[id])));
  }

  lemma PassHappens(c: Config, aud: string, cap: nat, x: Scene, to: int)
    requires Happens(c, aud, cap, x) && to >= x.clock
    ensures Happens(c, aud, cap, x.(clock := to))
  {
    var st :| Shows(c, st, aud, cap, x);
    var after := Wait(c, st, aud, cap, x.f, to);
    assert Shows(c, after, aud, cap, x.(clock := to));
  }

  lemma DeedHappens(c: Config, aud: string, s: Stage, x: Scene, d: Deed)
    requires Happens(c, aud, s.cap, x) && Able(s, x, d) && s.p == c.policy && c.renewBefore >= 0
    ensures Happens(c, aud, s.cap, Done(s, x, d))
  {
    match d
    case Read => ReadHappens(c, aud, s.cap, x);
    case Off(id) => OffHappens(c, aud, s.cap, x, id);
    case Down(id) => DownHappens(c, aud, s.cap, x, id);
    case Pass(to) => PassHappens(c, aud, s.cap, x, to);
  }

  // ---- plays ----

  // Call numbers are below the next, and nobody is ahead of the clock.
  ghost predicate Tidy(x: Scene) {
    && (forall id :: id in x.f.ready ==> id < x.f.next) && (forall id :: id in x.f.flying ==> id < x.f.next)
    && x.f.ready.Keys !! x.f.flying.Keys
  }

  ghost function Play(s: Stage, deeds: seq<Deed>): Option<Scene> {
    if deeds == [] then Some(s.first)
    else
      match Play(s, deeds[..|deeds| - 1])
      case None => None
      case Some(x) => if Able(s, x, deeds[|deeds| - 1]) then Some(Done(s, x, deeds[|deeds| - 1])) else None
  }

  /** The deeds lead from the first scene to y. */
  ghost predicate Plays(s: Stage, deeds: seq<Deed>, y: Scene) {
    Play(s, deeds) == Some(y) && Tidy(y)
  }

  lemma Next(s: Stage, deeds: seq<Deed>, x: Scene, d: Deed) returns (more: seq<Deed>, y: Scene)
    requires Plays(s, deeds, x) && Able(s, x, d)
    ensures Plays(s, more, y) && y == Done(s, x, d)
  {
    more, y := deeds + [d], Done(s, x, d);
    assert more[..|deeds|] == deeds;
  }

  function Opening(now: int): Scene { Scene(NOBODY, now, CLOSED, []) }

  /** Every play is a run of the client. */
  lemma {:induction false} PlaysHappen(c: Config, aud: string, s: Stage, deeds: seq<Deed>, y: Scene)
    requires Play(s, deeds) == Some(y) && s.p == c.policy && c.renewBefore >= 0
    requires s.first == Opening(s.first.clock) && Reading(s.first.clock)
    ensures Happens(c, aud, s.cap, y)
  {
    if deeds == [] {
      OpeningHappens(c, aud, s.cap, s.first.clock);
    } else {
      var front := deeds[..|deeds| - 1];
      PlaysHappen(c, aud, s, front, Play(s, front).value);
      DeedHappens(c, aud, s, Play(s, front).value, deeds[|deeds| - 1]);
    }
  }

  lemma OpeningHappens(c: Config, aud: string, cap: nat, now: int)
    requires Reading(now)
    ensures Happens(c, aud, cap, Opening(now))
  {
    StartIsAirborne(c, aud, now, cap);
    assert Shows(c, Start(now), aud, cap, Opening(now));
  }

  // ---- what plays are made of ----

  lemma TakesOff(s: Stage, deeds: seq<Deed>, x: Scene) returns (more: seq<Deed>, y: Scene)
    requires Plays(s, deeds, x) && |x.f.flying| < s.cap && Allows(s.p, x.b, x.clock)
    ensures Plays(s, more, y) && x.f.next !in x.f.flying && |y.f.flying| == |x.f.flying| + 1
    ensures y == x.(f := x.f.(next := x.f.next + 1, flying := x.f.flying[x.f.next := x.clock]),
                    starts := x.starts + [x.clock])
  {
    more, y := Next(s, deeds, x, Read);
    more, y := Next(s, more, y, Off(x.f.next));
    assert y.f.ready == x.f.ready;
    MoreKeys(x.f.flying, x.f.next, x.clock);
  }

  lemma Crashes(s: Stage, deeds: seq<Deed>, x: Scene, id: nat) returns (more: seq<Deed>, y: Scene)
    requires Plays(s, deeds, x) && id in x.f.flying
    ensures Plays(s, more, y) && y == x.(f := Land(x.f, id), b := AfterFailure(s.p, x.b, x.f.flying[id]))
    ensures |y.f.flying| == |x.f.flying| - 1
  {
    more, y := Next(s, deeds, x, Down(id));
    FewerKeys(x.f.flying, id);
  }

  lemma Waits(s: Stage, deeds: seq<Deed>, x: Scene, to: int) returns (more: seq<Deed>, y: Scene)
    requires Plays(s, deeds, x) && to >= x.clock
    ensures Plays(s, more, y) && y == x.(clock := to)
  {
    more, y := Next(s, deeds, x, Pass(to));
  }
}
