/** What every run of store operations keeps: conservation of events, and the spacing of deliveries. */
module EventRuns {
  import opened Wrappers
  import opened EventStore
  import EventRetry

  // One entry per effect on one event: the deliveries, failures and saves of a run, in order.
  datatype Mark =
    | Delivered(ids: set<string>, at: int)
    | Failed(id: string, at: int, attempt: int, delay: int)
    | Saved(id: string, until: int)

  // A store together with what happened to it. The ledger remembers ids, the log remembers times.
  datatype World = World(st: State, saved: set<string>, processed: set<string>, log: seq<Mark>)

  const START := World(EMPTY, {}, {}, [])

  function Note(st: State, op: Op): seq<Mark> {
    match op
    case SaveOp(e, visibleAt) => [Saved(e.id, visibleAt)]
    case PollOp(_, ids, at) => [Delivered(ids, at)]
    case FailOp(id, attempt, _, _, at, delay) => if id in st.events then [Failed(id, at, attempt, delay)] else []
    case _ => []
  }

  function Step(w: World, op: Op): World {
    World(Apply(w.st, op),
          if op.SaveOp? then w.saved + {op.saved.id} else if op.BuryOp? then w.saved + {op.buried.id} else w.saved,
          if op.AckOp? && op.id in w.st.events then w.processed + {op.id} else w.processed,
          w.log + Note(w.st, op))
  }

  function Run(w: World, ops: seq<Op>): World {
    if ops == [] then w else Step(Run(w, ops[..|ops| - 1]), ops[|ops| - 1])
  }

  lemma {:induction false} RunAppliesAll(w: World, ops: seq<Op>)
    ensures Run(w, ops).st == ApplyAll(w.st, ops)
  {
    if ops != [] { RunAppliesAll(w, ops[..|ops| - 1]); }
  }

  /** Every id ever saved is pending, dead or processed, and only one of the three. */
  ghost predicate Conserved(w: World) {
    && w.saved == w.st.events.Keys + w.st.dlq.Keys + w.processed
    && w.st.events.Keys !! w.st.dlq.Keys
    && (w.st.events.Keys + w.st.dlq.Keys) !! w.processed
    && (forall id :: id in w.st.events ==> w.st.events[id].event.dlqAt.None?)
    && WellFormed(w.st)
  }

  /** Ids are saved once and without a death instant, and events are buried only while pending. */
  ghost predicate Careful(w: World, op: Op) {
    && (op.SaveOp? ==> op.saved.id !in w.saved && op.saved.dlqAt.None?)
    && (op.BuryOp? ==> op.buried.id in w.st.events)
  }

  /** The weakest demand on one operation. */
  ghost predicate Harmless(w: World, op: Op) {
    && (op.SaveOp? ==> op.saved.id !in w.st.dlq && op.saved.id !in w.processed && op.saved.dlqAt.None?)
    && (op.BuryOp? ==> op.buried.id !in w.processed)
  }

  /** One possible operation keeps every event accounted for exactly when it is harmless. */
  lemma StepConservesIffHarmless(w: World, op: Op)
    requires Conserved(w) && Possible(w.st, op)
    ensures Conserved(Step(w, op)) <==> Harmless(w, op)
  {
    match op
    case SaveOp(e, visibleAt) =>
      assert Apply(w.st, op).events.Keys == w.st.events.Keys + {e.id};
    case PollOp(_, ids, at) =>
      assert Lease(w.st.events, ids, at + LEASE).Keys == w.st.events.Keys;
    case AckOp(id) =>
      assert Apply(w.st, op).events.Keys == w.st.events.Keys - {id};
    case FailOp(id, attempt, error, maxAttempts, at, delay) =>
      if id in w.st.events { FailKeepsKeys(w.st, op); }
    case BuryOp(e, reason, at) =>
      BuryKeys(w.st, e, reason, at);
  }

  lemma BuryKeys(st: State, e: Event, reason: string, at: int)
    requires WellFormed(st)
    ensures Bury(st, e, reason, at).events.Keys == st.events.Keys - {e.id}
    ensures Bury(st, e, reason, at).dlq.Keys == st.dlq.Keys + {e.id}
    ensures WellFormed(Bury(st, e, reason, at))
  {}

  lemma FailKeepsKeys(st: State, op: Op)
    requires WellFormed(st) && op.FailOp? && op.id in st.events
    ensures var after := Apply(st, op);
            && WellFormed(after)
            && after.events.Keys + after.dlq.Keys == st.events.Keys + st.dlq.Keys
            && after.events.Keys == (if op.attempt >= op.maxAttempts then st.events.Keys - {op.id} else st.events.Keys)
            && (st.events.Keys !! st.dlq.Keys ==> after.events.Keys !! after.dlq.Keys)
            && forall id :: id in after.events ==> after.events[id].event.dlqAt == st.events[id].event.dlqAt
  {}

  lemma {:induction false} RunConserves(w: World, ops: seq<Op>)
    requires Conserved(w) && AllPossible(w.st, ops) && AllCareful(w, ops)
    ensures Conserved(Run(w, ops))
  {
    if ops != [] {
      var front := ops[..|ops| - 1];
      RunConserves(w, front);
      RunAppliesAll(w, front);
      StepConservesIffHarmless(Run(w, front), ops[|ops| - 1]);
    }
  }

  ghost predicate AllCareful(w: World, ops: seq<Op>) {
    ops != [] ==>
      var front := ops[..|ops| - 1];
      AllCareful(w, front) && Careful(Run(w, front), ops[|ops| - 1])
  }

  /** From an empty store, every id saved in a careful run is in exactly one place. */
  lemma EventsAreConserved(ops: seq<Op>, id: string)
    requires AllPossible(EMPTY, ops) && AllCareful(START, ops)
    requires id in Run(START, ops).saved
    ensures var w := Run(START, ops);
            var places := (if id in w.st.events then 1 else 0) + (if id in w.st.dlq then 1 else 0)
                        + (if id in w.processed then 1 else 0);
            places == 1
  {
    RunConserves(START, ops);
  }

  /** However the store is used, a dead letter has its instant, so listing never compares a missing one. */
  lemma {:induction false} DeadLettersAreStamped(w: World, ops: seq<Op>)
    requires WellFormed(w.st)
    ensures WellFormed(Run(w, ops).st)
  {
    if ops != [] {
      var front := ops[..|ops| - 1];
      DeadLettersAreStamped(w, front);
      OpKeepsWellFormed(Run(w, front).st, ops[|ops| - 1]);
    }
  }

  function Backoff(attempt: int): int {
    EventRetry.Base(EventRetry.DEFAULT_POLICY, attempt)
  }

  predicate Concerns(m: Mark, id: string) {
    match m
    case Delivered(ids, _) => id in ids
    case Failed(i, _, _, _) => i == id
    case Saved(i, _) => i == id
  }

  /** The instant from which a mark allows the next delivery. */
  function HoldOf(m: Mark): int {
    match m
    case Delivered(_, at) => at + LEASE
    case Failed(_, at, _, delay) => at + delay
    case Saved(_, until) => until
  }

  /** The hold left on an id by the last mark that concerns it. */
  function HoldUntil(log: seq<Mark>, id: string): Option<int> {
    if log == [] then None
    else
      var last := log[|log| - 1];
      if Concerns(last, id) then Some(HoldOf(last)) else HoldUntil(log[..|log| - 1], id)
  }

  ghost predicate HoldsKept(log: seq<Mark>) {
    forall j, id :: 0 <= j < |log| && log[j].Delivered? && id in log[j].ids && HoldUntil(log[..j], id).Some? ==>
      log[j].at >= HoldUntil(log[..j], id).value
  }

  /** An event is invisible exactly as long as its last mark asks. */
  ghost predicate Held(st: State, log: seq<Mark>) {
    forall id :: id in st.events ==> HoldUntil(log, id) == Some(st.events[id].visibleAt)
  }

  lemma HoldAfter(log: seq<Mark>, m: Mark, id: string)
    ensures HoldUntil(log + [m], id) == if Concerns(m, id) then Some(HoldOf(m)) else HoldUntil(log, id)
  {
    assert (log + [m])[..|log|] == log;
  }

  lemma HoldsKeptAfter(log: seq<Mark>, m: Mark)
    requires HoldsKept(log)
    requires m.Delivered? ==> forall id :: id in m.ids && HoldUntil(log, id).Some? ==> m.at >= HoldUntil(log, id).value
    ensures HoldsKept(log + [m])
  {
    var longer := log + [m];
    forall j, id | 0 <= j < |longer| && longer[j].Delivered? && id in longer[j].ids && HoldUntil(longer[..j], id).Some?
      ensures longer[j].at >= HoldUntil(longer[..j], id).value
    {
      assert longer[..j] == log[..j];
      if j == |log| { assert log[..j] == log; }
    }
  }

  lemma StepHolds(w: World, op: Op)
    requires Possible(w.st, op) && HoldsKept(w.log) && Held(w.st, w.log) && WellFormed(w.st)
    ensures HoldsKept(Step(w, op).log) && Held(Step(w, op).st, Step(w, op).log)
  {
    var next := Step(w, op);
    if Note(w.st, op) == [] {
      assert next.log == w.log;
    } else {
      var m := Note(w.st, op)[0];
      assert next.log == w.log + [m];
      HoldsKeptAfter(w.log, m);
      forall id | id in next.st.events
        ensures HoldUntil(next.log, id) == Some(next.st.events[id].visibleAt)
      {
        HoldAfter(w.log, m, id);
      }
    }
  }

  lemma {:induction false} RunHolds(w: World, ops: seq<Op>)
    requires AllPossible(w.st, ops) && HoldsKept(w.log) && Held(w.st, w.log) && WellFormed(w.st)
    ensures HoldsKept(Run(w, ops).log) && Held(Run(w, ops).st, Run(w, ops).log)
  {
    if ops != [] {
      var front := ops[..|ops| - 1];
      RunHolds(w, front);
      RunAppliesAll(w, front);
      DeadLettersAreStamped(w, front);
      StepHolds(Run(w, front), ops[|ops| - 1]);
    }
  }

  lemma {:induction false} HoldIsOfLast(log: seq<Mark>, id: string, k: nat)
    requires k < |log| && Concerns(log[k], id)
    requires forall i :: k < i < |log| ==> !Concerns(log[i], id)
    ensures HoldUntil(log, id) == Some(HoldOf(log[k]))
  {
    if k < |log| - 1 {
      HoldIsOfLast(log[..|log| - 1], id, k);
    }
  }

  /** The delay of a failure is the one that was drawn: the backoff and up to a tenth on top. */
  ghost predicate Drawn(m: Mark) {
    m.Failed? ==> Backoff(m.attempt) <= m.delay < Backoff(m.attempt) + Backoff(m.attempt) / 10
  }

  lemma {:induction false} DelaysAreDrawn(ops: seq<Op>)
    requires AllPossible(EMPTY, ops)
    ensures forall m :: m in Run(START, ops).log ==> Drawn(m)
  {
    if ops != [] {
      var front, op := ops[..|ops| - 1], ops[|ops| - 1];
      DelaysAreDrawn(front);
      RunAppliesAll(START, front);
      var w := Run(START, front);
      assert Possible(w.st, op) && Run(START, ops).log == w.log + Note(w.st, op);
    }
  }

  /**
   * Whatever the consumers do, a delivery comes at least 30 s after the previous mark of its id when that is a
   * delivery, at least the delay drawn after it when that is a failure, and not before the event is visible when
   * that is its saving.
   */
  lemma DeliveriesAreSpaced(ops: seq<Op>, id: string, k: nat, j: nat)
    requires AllPossible(EMPTY, ops)
    requires var log := Run(START, ops).log;
             && k < j < |log| && log[j].Delivered? && id in log[j].ids
             && Concerns(log[k], id) && forall i :: k < i < j ==> !Concerns(log[i], id)
    ensures var log := Run(START, ops).log;
            && (log[k].Delivered? ==> log[j].at >= log[k].at + 30 * 1_000_000_000)
            && (log[k].Saved? ==> log[j].at >= log[k].until)
            && (log[k].Failed? ==> Drawn(log[k]) && log[j].at >= log[k].at + log[k].delay)
  {
    var log := Run(START, ops).log;
    RunHolds(START, ops);
    DelaysAreDrawn(ops);
    var before := log[..j];
    assert forall i :: 0 <= i < j ==> before[i] == log[i];
    HoldIsOfLast(before, id, k);
  }

  /** The last thing that happened to an id. */
  ghost predicate IsLast(log: seq<Mark>, id: string, k: nat) {
    k < |log| && Concerns(log[k], id) && forall i :: k < i < |log| ==> !Concerns(log[i], id)
  }

  /**
   * In every run, a pending event may be polled again exactly from its last mark's instant on: 30 s after a
   * delivery, the drawn delay after a failure, and when it became visible after it was saved.
   */
  lemma DueIffHoldIsOver(ops: seq<Op>, id: string, k: nat, now: int)
    requires AllPossible(EMPTY, ops) && AllCareful(START, ops)
    requires var w := Run(START, ops); id in w.st.events && IsLast(w.log, id, k)
    ensures var w := Run(START, ops);
            var m, s := w.log[k], w.st.events[id];
            Possible(w.st, PollOp(s.event.eventType, {id}, now))
            <==> now >= match m
                        case Delivered(_, at) => at + 30 * 1_000_000_000
                        case Failed(_, at, _, delay) => at + delay
                        case Saved(_, until) => until
  {
    var w := Run(START, ops);
    RunHolds(START, ops);
    RunConserves(START, ops);
    HoldIsOfLast(w.log, id, k);
  }

  /** A delayed event is visible from its delay on and not before, if its delay lies ahead when it is saved. */
  lemma SavedVisibility(event: Event, c: Clocks)
    requires c.now0 <= c.now1 <= c.now2
    ensures var op := SaveOpOf(event, c);
            && op.saved == event.(occurredAt := if event.occurredAt == 0 then c.now0 else event.occurredAt)
            && (event.delayedUntil.None? ==> op.visibleAt == c.now2)
            && (event.delayedUntil.Some? ==>
                  && op.visibleAt >= event.delayedUntil.value
                  && (event.delayedUntil.value > c.now1 ==> op.visibleAt == event.delayedUntil.value)
                  && (event.delayedUntil.value <= c.now1 ==> op.visibleAt == c.now2))
  {}

  /** So it is not delivered before its delay, as long as nobody reports a failure of it unasked. */
  lemma DelayedEventWaits(ops: seq<Op>, event: Event, c: Clocks, k: nat, j: nat)
    requires AllPossible(EMPTY, ops) && c.now0 <= c.now1 <= c.now2 && event.delayedUntil.Some?
    requires var log := Run(START, ops).log;
             && k < j < |log| && log[j].Delivered? && event.id in log[j].ids
             && log[k] == Saved(event.id, SaveOpOf(event, c).visibleAt)
             && forall i :: k < i < j ==> !Concerns(log[i], event.id)
    ensures Run(START, ops).log[j].at >= event.delayedUntil.value
  {
    SavedVisibility(event, c);
    DeliveriesAreSpaced(ops, event.id, k, j);
  }

  /** What a failure makes of an event, attempts and words included, and that it touches no other. */
  lemma FailureComesTo(st: State, id: string, attempt: int, error: Option<string>, maxAttempts: int,
                       now: int, delay: int)
    requires WellFormed(st) && id in st.events && Possible(st, FailOp(id, attempt, error, maxAttempts, now, delay))
    ensures var after := Apply(st, FailOp(id, attempt, error, maxAttempts, now, delay));
            var e := st.events[id].event.(attempt := attempt, error := error.GetOr(st.events[id].event.error));
            && after.events - {id} == st.events - {id} && after.dlq - {id} == st.dlq - {id}
            && (attempt < maxAttempts ==>
                  && id in after.events && after.events[id].event == e && after.dlq == st.dlq
                  && now + Backoff(attempt) <= after.events[id].visibleAt
                  && after.events[id].visibleAt < now + Backoff(attempt) + Backoff(attempt) / 10)
            && (attempt >= maxAttempts ==>
                  && id !in after.events && id in after.dlq
                  && after.dlq[id] == e.(dlqAt := Some(now), error := "max attempts exceeded: " + e.error))
  {}

  /** Burying a pending event keeps what the store has of it, its first death and its first words included. */
  lemma BurialComesTo(st: State, e: Event, reason: string, now: int)
    requires WellFormed(st)
    ensures var after := Apply(st, BuryOp(e, reason, now));
            var kept := if e.id in st.events then st.events[e.id].event else e;
            && after.events == st.events - {e.id} && after.dlq - {e.id} == st.dlq - {e.id} && e.id in after.dlq
            && var letter := after.dlq[e.id];
               && letter == kept.(dlqAt := letter.dlqAt, error := letter.error)
               && letter.dlqAt == (if kept.dlqAt.Some? then kept.dlqAt else Some(now))
               && letter.error == if kept.error == "" then reason else kept.error
  {}
}
