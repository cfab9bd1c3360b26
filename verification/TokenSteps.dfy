/**
 * Every interleaving of Token, Refresh and Invalidate calls, their cancellations and the goroutines that
 * talk to IAM. A step that is not enabled changes nothing, so any sequence of steps is a run.
 */
module TokenSteps {
  import opened Wrappers
  import opened TokenBreaker
  import opened TokenEntry
  import opened TokenJournal

  datatype Call = TokenCall | RefreshCall(sent: string) | InvalidateCall

  datatype Reply = Got(token: string) | NothingNew | Emptied | Failed(error: Error)

  // Where a caller stands: before the entry's lock, inside it, waiting for its worker, or done.
  datatype Pc =
    | Trying | Blocked
    | Checking | Timing | Deciding(now: int) | Releasing(reply: Reply)
    | Awaiting
    | Returned(reply: Reply)

  // The goroutine a caller may have launched. The result is sent before the lock is released.
  datatype Worker =
    | NoWorker
    | Exchanging(now: int, valid: bool)
    | Stored(result: Result<string, Error>)
    | Sent(result: Result<string, Error>)
    | Gone(result: Result<string, Error>)

  // at and valid keep the clock reading the call was decided on and whether the cached token was valid then.
  datatype Thread = Thread(target: Target, call: Call, pc: Pc, worker: Worker, cancelled: bool, at: int, valid: bool)

  // An entry's lock is a channel of capacity one: it is full for the targets in owner. The step rules only
  // look at whether it is full; the id kept with it is the call that filled it.
  datatype State = State(clock: int, owner: map<Target, nat>, entries: map<Target, Entry>,
                         breakers: map<string, Breaker>, threads: map<nat, Thread>, journal: Journal)

  datatype Action =
    | Cancel | TryLock | TakeLock | GiveUpLock
    | Check | ReadClock | Choose | Release
    | Talk(x: Exchange) | Send | Unlock
    | Collect | GiveUpWait

  datatype Step = Tick(to: int) | Begin(id: nat, target: Target, call: Call) | Do(id: nat, action: Action)

  datatype LockUse = Same | Take | Drop

  datatype Moved = Moved(thread: Thread, entry: Entry, breaker: Breaker, lock: LockUse, marks: seq<Mark>)

  function EntryAt(st: State, t: Target): Entry {
    if t in st.entries then st.entries[t] else FRESH
  }

  function BreakerAt(st: State, aud: string): Breaker {
    if aud in st.breakers then st.breakers[aud] else CLOSED
  }

  /** IAM's expires_in is small enough for its conversion to nanoseconds. */
  ghost predicate Modest(x: Exchange) {
    Classify(x).Issued? ==> Fits64(x.body.value.1 * SECOND)
  }

  function Wrap(call: Call, r: Reply): Reply {
    if call.RefreshCall? && r == Got(call.sent) then NothingNew else r
  }

  function Told(r: Result<string, Error>): Reply {
    match r
    case Ok(token) => Got(token)
    case Err(e) => Failed(e)
  }

  function Entered(call: Call): Pc {
    if call.TokenCall? then Timing else Checking
  }

  function MoveAtLock(th: Thread, e: Entry, b: Breaker, full: bool, a: Action): Option<Moved> {
    match a
    case Cancel => if th.call.InvalidateCall? then None else Some(Moved(th.(cancelled := true), e, b, Same, []))
    case TryLock =>
      if !th.pc.Trying? then None
      else if full then Some(Moved(th.(pc := Blocked), e, b, Same, []))
      else Some(Moved(th.(pc := Entered(th.call)), e, b, Take, []))
    case TakeLock =>
      if !th.pc.Blocked? || full then None else Some(Moved(th.(pc := Entered(th.call)), e, b, Take, []))
    case GiveUpLock =>
      if !th.pc.Blocked? || !th.cancelled then None
      else Some(Moved(th.(pc := Returned(Failed(Canceled))), e, b, Same, []))
    case _ => None
  }

  function MoveInside(c: Config, th: Thread, e: Entry, b: Breaker, full: bool, clock: int, a: Action): Option<Moved> {
    match a
    case Check =>
      if !th.pc.Checking? then None
      else (match th.call
        case TokenCall => None
        case InvalidateCall =>
          Some(Moved(th.(pc := Releasing(Emptied)), Clear(e), b, Same, [Cleared(th.target)]))
        case RefreshCall(sent) =>
          match Judge(e, sent, clock)
          case Adopt(token) => Some(Moved(th.(pc := Releasing(Got(token)), at := clock, valid := true), e, b, Same, []))
          case TooYoung => Some(Moved(th.(pc := Releasing(NothingNew)), e, b, Same, []))
          case Force => Some(Moved(th.(pc := Timing), e.(renewAt := 0), b, Same, [Pulled(th.target, clock, sent)])))
    case ReadClock => if !th.pc.Timing? then None else Some(Moved(th.(pc := Deciding(clock)), e, b, Same, []))
    case Choose =>
      if !th.pc.Deciding? then None
      else
        var now := th.pc.now;
        var seen := th.(at := now, valid := Valid(e, now));
        (match Decide(c.policy, e, b, now)
        case Serve(token) => Some(Moved(seen.(pc := Releasing(Got(token))), e, b, Same, []))
        case Refuse(error) => Some(Moved(seen.(pc := Releasing(Failed(error))), e, b, Same, []))
        case Launch(valid) =>
          Some(Moved(seen.(pc := Awaiting, worker := Exchanging(now, valid)), e, b, Same, [Launched(th.target, now)])))
    case Release =>
      if !th.pc.Releasing? || !full then None
      else Some(Moved(th.(pc := Returned(Wrap(th.call, th.pc.reply))), e, b, Drop, []))
    case _ => None
  }

  function MoveOutside(c: Config, th: Thread, e: Entry, b: Breaker, full: bool, a: Action): Option<Moved> {
    match a
    case Talk(x) =>
      if !th.worker.Exchanging? then None
      else
        var now, o := th.worker.now, Classify(x);
        Some(Moved(th.(worker := Stored(Answer(e, th.worker.valid, o))),
                   Store(e, c.renewBefore, now, o), Trip(c.policy, b, now, o), Same, [Settled(th.target, now, o)]))
    case Send => if !th.worker.Stored? then None else Some(Moved(th.(worker := Sent(th.worker.result)), e, b, Same, []))
    case Unlock =>
      if !th.worker.Sent? || !full then None else Some(Moved(th.(worker := Gone(th.worker.result)), e, b, Drop, []))
    case Collect =>
      if th.pc.Awaiting? && (th.worker.Sent? || th.worker.Gone?)
      then Some(Moved(th.(pc := Returned(Wrap(th.call, Told(th.worker.result)))), e, b, Same, []))
      else None
    case GiveUpWait =>
      if !th.pc.Awaiting? || !th.cancelled then None
      else Some(Moved(th.(pc := Returned(Failed(Canceled))), e, b, Same, []))
    case _ => None
  }

  /** What an action makes of its own call, the entry and breaker it is about, and the entry's lock. */
  function Move(c: Config, th: Thread, e: Entry, b: Breaker, full: bool, clock: int, a: Action): Option<Moved> {
    if a.Cancel? || a.TryLock? || a.TakeLock? || a.GiveUpLock? then MoveAtLock(th, e, b, full, a)
    else if a.Check? || a.ReadClock? || a.Choose? || a.Release? then MoveInside(c, th, e, b, full, clock, a)
    else MoveOutside(c, th, e, b, full, a)
  }

  function MoveOf(c: Config, st: State, id: nat, a: Action): Option<Moved>
    requires id in st.threads
  {
    var th := st.threads[id];
    Move(c, th, EntryAt(st, th.target), BreakerAt(st, th.target.aud), th.target in st.owner, st.clock, a)
  }

  function Commit(st: State, id: nat, t: Target, m: Moved): State {
    State(st.clock,
          match m.lock case Same => st.owner case Take => st.owner[t := id] case Drop => st.owner - {t},
          st.entries[t := m.entry],
          st.breakers[t.aud := m.breaker],
          st.threads[id := m.thread],
          st.journal + m.marks)
  }

  function Later(st: State, to: int): State {
    st.(clock := Max(st.clock, to))
  }

  function Enter(st: State, id: nat, target: Target, call: Call): State {
    if id in st.threads then st
    else st.(threads := st.threads[id := Thread(target, call, Trying, NoWorker, false, 0, false)])
  }

  function Act(c: Config, st: State, id: nat, a: Action): State {
    if id !in st.threads || MoveOf(c, st, id, a).None? then st
    else Commit(st, id, st.threads[id].target, MoveOf(c, st, id, a).value)
  }

  function Apply(c: Config, st: State, s: Step): State {
    match s
    case Tick(to) => Later(st, to)
    case Begin(id, target, call) => Enter(st, id, target, call)
    case Do(id, a) => Act(c, st, id, a)
  }

  function Run(c: Config, st: State, steps: seq<Step>): State {
    if steps == [] then st else Apply(c, Run(c, st, steps[..|steps| - 1]), steps[|steps| - 1])
  }

  function Start(clock: int): State {
    State(clock, map[], map[], map[], map[], [])
  }

  /** The call, or the worker it launched, is inside its entry's critical section. */
  predicate Holds(th: Thread) {
    || th.pc.Checking? || th.pc.Timing? || th.pc.Deciding? || th.pc.Releasing?
    || th.worker.Exchanging? || th.worker.Stored? || th.worker.Sent?
  }

  predicate Owns(st: State, id: nat, t: Target) {
    t in st.owner && st.owner[t] == id
  }

  /** What a reply promises. */
  ghost predicate Honest(j: Journal, th: Thread, r: Reply) {
    match r
    case Got(token) => Backed(j, th.target, token, th.at)
    case Failed(e) => if e.Canceled? then th.cancelled else !th.valid
    case _ => true
  }

  ghost predicate PcOk(j: Journal, clock: int, th: Thread) {
    match th.pc
    case Trying => th.worker.NoWorker?
    case Blocked => th.worker.NoWorker?
    case Checking => th.worker.NoWorker? && !th.call.TokenCall?
    case Timing => th.worker.NoWorker? && !th.call.InvalidateCall?
    case Deciding(now) =>
      th.worker.NoWorker? && !th.call.InvalidateCall? && Reading(now) && now <= clock && NotAfter(j, th.target, now)
    case Releasing(r) => th.worker.NoWorker? && Honest(j, th, r)
    case Awaiting => !th.worker.NoWorker?
    case Returned(r) => Honest(j, th, r) && (th.call.RefreshCall? ==> r != Got(th.call.sent))
  }

  /** open is the start of the exchange under way for the call's target, and e the entry it has there. */
  ghost predicate WorkerOk(j: Journal, e: Entry, open: Option<int>, clock: int, th: Thread) {
    match th.worker
    case NoWorker => Holds(th) ==> open.None?
    case Exchanging(now, valid) =>
      && open == Some(now) && NotAfter(j, th.target, now) && Reading(now) && now <= clock
      && th.at == now && th.valid == valid == Valid(e, now)
    case Stored(r) => open.None? && Honest(j, th, Told(r)) && r != Err(Canceled)
    case Sent(r) => open.None? && Honest(j, th, Told(r)) && r != Err(Canceled)
    case Gone(r) => Honest(j, th, Told(r)) && r != Err(Canceled)
  }

  ghost predicate ThreadOk(c: Config, j: Journal, clock: int, th: Thread) {
    PcOk(j, clock, th) && WorkerOk(j, EntryOf(c, j, th.target), Open(j, th.target), clock, th)
  }

  /** The lock of an entry is taken exactly when one call, or its worker, is inside. */
  ghost predicate LocksOk(st: State) {
    && (forall t :: t in st.owner ==> st.owner[t] in st.threads && st.threads[st.owner[t]].target == t)
    && (forall id :: id in st.threads ==> Owns(st, id, st.threads[id].target) == Holds(st.threads[id]))
  }

  /** The entry, the breaker and the exchange under way are the ones the journal describes. */
  ghost predicate TargetOk(c: Config, st: State, t: Target) {
    && NotAfter(st.journal, t, st.clock)
    && EntryAt(st, t) == EntryOf(c, st.journal, t)
    && BreakerAt(st, t.aud) == BreakerOf(c, st.journal, t.aud)
    && (t !in st.owner ==> Open(st.journal, t).None?)
  }

  ghost predicate Inv(c: Config, st: State) {
    && Reading(st.clock) && Lawful(c, st.journal) && LocksOk(st)
    && (forall t: Target :: TargetOk(c, st, t))
    && (forall id :: id in st.threads ==> ThreadOk(c, st.journal, st.clock, st.threads[id]))
  }

  // ---- one move, seen from its own call ----

  /** What may be relied on about a cached entry at `now`. */
  ghost predicate Sound(j: Journal, t: Target, e: Entry, now: int) {
    && Coherent(e)
    && (e.lastErr.Some? ==> e.lastErr.value.Rejected?)
    && (Valid(e, now) ==> Backed(j, t, e.token, now))
  }

  /** The clock reading a call decides on. */
  function Instant(th: Thread, clock: int): int {
    if th.pc.Deciding? then th.pc.now else if th.worker.Exchanging? then th.worker.now else clock
  }

  // What a move sees besides its own call: the journal, the entry and breaker it is about, the start of an exchange
  // under way for the entry, the clock, and whether the entry's lock is taken.
  datatype View = View(j: Journal, e: Entry, b: Breaker, open: Option<int>, clock: int, full: bool)

  ghost predicate Before(v: View, th: Thread) {
    && Reading(v.clock) && NotAfter(v.j, th.target, v.clock)
    && PcOk(v.j, v.clock, th) && WorkerOk(v.j, v.e, v.open, v.clock, th)
    && Sound(v.j, th.target, v.e, Instant(th, v.clock))
    && (!v.full ==> v.open.None?)
  }

  /** The entry, the breaker and the exchange under way are what the move's mark, if any, makes of them. */
  ghost predicate WellMarked(c: Config, v: View, th: Thread, m: Moved) {
    if m.marks == [] then m.entry == v.e && m.breaker == v.b && WorkerOk(v.j, v.e, v.open, v.clock, m.thread)
    else
      var k := m.marks[0];
      && m.marks == [k] && k.target == th.target && Fits(c, v.e, v.b, v.open, k)
      && (k.Cleared? || (NotAfter(v.j, th.target, k.now) && k.now <= v.clock))
      && m.entry == EntryAfter(c, v.e, k) && m.breaker == BreakerAfter(c, v.b, k)
      && WorkerOk(v.j + m.marks, m.entry, OpenAfter(k, v.open), v.clock, m.thread)
      && Holds(th) && Holds(m.thread)
  }

  /** A move makes at most one mark, a fitting one, and its thread keeps its promises. */
  ghost predicate After(c: Config, v: View, th: Thread, m: Moved) {
    && m.thread.target == th.target && m.thread.call == th.call
    && PcOk(v.j + m.marks, v.clock, m.thread)
    && WellMarked(c, v, th, m)
    && match m.lock
       case Same => Holds(m.thread) == Holds(th)
       case Take => !v.full && Holds(m.thread)
       case Drop => m.marks == [] && Holds(th) && !Holds(m.thread) && v.open.None?
  }

  lemma AtLockKeeps(c: Config, v: View, th: Thread, a: Action)
    requires Before(v, th) && MoveAtLock(th, v.e, v.b, v.full, a).Some?
    ensures After(c, v, th, MoveAtLock(th, v.e, v.b, v.full, a).value)
  {
    assert v.j + [] == v.j;
  }

  lemma CheckKeeps(c: Config, v: View, th: Thread)
    requires Before(v, th) && MoveInside(c, th, v.e, v.b, v.full, v.clock, Check).Some?
    ensures After(c, v, th, MoveInside(c, th, v.e, v.b, v.full, v.clock, Check).value)
  {
    assert v.j + [] == v.j;
  }

  lemma ChooseKeeps(c: Config, v: View, th: Thread)
    requires Before(v, th) && MoveInside(c, th, v.e, v.b, v.full, v.clock, Choose).Some?
    ensures After(c, v, th, MoveInside(c, th, v.e, v.b, v.full, v.clock, Choose).value)
  {
    assert v.j + [] == v.j;
  }

  lemma InsideKeeps(c: Config, v: View, th: Thread, a: Action)
    requires Before(v, th) && MoveInside(c, th, v.e, v.b, v.full, v.clock, a).Some?
    ensures After(c, v, th, MoveInside(c, th, v.e, v.b, v.full, v.clock, a).value)
  {
    if a.Check? {
      CheckKeeps(c, v, th);
    } else if a.Choose? {
      ChooseKeeps(c, v, th);
    } else {
      assert v.j + [] == v.j;
    }
  }

  /** A promise kept by a journal is kept by a longer one. */
  lemma StillHonest(j: Journal, m: Mark, th: Thread, r: Reply)
    requires Honest(j, th, r)
    ensures Honest(j + [m], th, r)
  {
    if r.Got? {
      var x :| x in j && x.Settled? && x.target == th.target && x.outcome.Issued? && x.outcome.token == r.token
               && x.now <= th.at < x.now + x.outcome.ttl && x.outcome.ttl <= TTL;
      assert x in j + [m];
    }
  }

  lemma OutsideKeeps(c: Config, v: View, th: Thread, a: Action)
    requires Before(v, th) && (a.Talk? ==> Modest(a.x)) && MoveOutside(c, th, v.e, v.b, v.full, a).Some?
    ensures After(c, v, th, MoveOutside(c, th, v.e, v.b, v.full, a).value)
  {
    assert v.j + [] == v.j;
    if a.Talk? {
      var now, o := th.worker.now, Classify(a.x);
      var m := Settled(th.target, now, o);
      if o.Issued? {
        IssuedLifetime(a.x);
        assert m in v.j + [m];
      } else if Valid(v.e, now) {
        StillHonest(v.j, m, th, Got(v.e.token));
      }
      if th.pc.Returned? { StillHonest(v.j, m, th, th.pc.reply); }
    }
  }

  lemma MoveIsSound(c: Config, v: View, th: Thread, a: Action)
    requires Before(v, th) && (a.Talk? ==> Modest(a.x)) && Move(c, th, v.e, v.b, v.full, v.clock, a).Some?
    ensures After(c, v, th, Move(c, th, v.e, v.b, v.full, v.clock, a).value)
  {
    if a.Cancel? || a.TryLock? || a.TakeLock? || a.GiveUpLock? {
      AtLockKeeps(c, v, th, a);
    } else if a.Check? || a.ReadClock? || a.Choose? || a.Release? {
      InsideKeeps(c, v, th, a);
    } else {
      OutsideKeeps(c, v, th, a);
    }
  }

  /** Moves write only from inside the critical section, and replace a token only by IAM's or by none. */
  lemma MoveWrites(c: Config, th: Thread, e: Entry, b: Breaker, full: bool, clock: int, a: Action)
    requires Move(c, th, e, b, full, clock, a).Some?
    ensures var m := Move(c, th, e, b, full, clock, a).value;
            && (m.entry != e ==> Holds(th))
            && (m.entry.token != e.token || m.entry.expiresAt != e.expiresAt ==>
                  || (a.Talk? && Classify(a.x).Issued? && m.entry.token == Classify(a.x).token)
                  || (a.Check? && th.call.InvalidateCall? && m.entry.token == ""))
  {}

  predicate Outside(th: Thread) {
    th.pc.Trying? || th.pc.Blocked?
  }

  /** The lock is taken on the way in, once. */
  lemma MoveTakesOnce(c: Config, th: Thread, e: Entry, b: Breaker, full: bool, clock: int, a: Action)
    requires Move(c, th, e, b, full, clock, a).Some?
    ensures var m := Move(c, th, e, b, full, clock, a).value;
            && (m.lock == Take ==> Outside(th) && !Outside(m.thread))
            && (Outside(m.thread) ==> Outside(th))
            && m.thread.target == th.target
  {}
}
