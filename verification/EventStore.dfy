/** The in-memory store of the event bus: pending events under lease, and the dead-letter queue. */
module EventStore {
  import opened Wrappers
  import EventRetry

  // A time of 0 is Go's zero time.
  datatype Event = Event(id: string, eventType: string, body: string, occurredAt: int, delayedUntil: Option<int>,
                         attempt: int, dlqAt: Option<int>, error: string)

  datatype Stored = Stored(event: Event, visibleAt: int)

  datatype State = State(events: map<string, Stored>, dlq: map<string, Event>, closed: bool)

  datatype StoreError = Closed | MissingId | NotFound

  const LEASE: int := 30 * 1_000_000_000

  const EMPTY := State(map[], map[], false)

  // What one store operation does, with the clock readings and random draws it made.
  datatype Op =
    | SaveOp(saved: Event, visibleAt: int)
    | PollOp(eventType: string, ids: set<string>, at: int)
    | AckOp(id: string)
    | FailOp(id: string, attempt: int, error: Option<string>, maxAttempts: int, at: int, delay: int)
    | BuryOp(buried: Event, reason: string, at: int)

  predicate Due(s: Stored, eventType: string, now: int) {
    s.event.eventType == eventType && s.visibleAt <= now && s.event.dlqAt.None?
  }

  function DueIds(events: map<string, Stored>, eventType: string, now: int): set<string> {
    set id | id in events && Due(events[id], eventType, now)
  }

  function Lease(events: map<string, Stored>, ids: set<string>, until: int): map<string, Stored> {
    map id | id in events :: if id in ids then events[id].(visibleAt := until) else events[id]
  }

  /** moveToDLQLocked: a pending event is buried as stored, any other as given. */
  function Bury(st: State, event: Event, reason: string, now: int): State {
    var e := if event.id in st.events then st.events[event.id].event else event;
    var stamped := e.(dlqAt := Some(e.dlqAt.GetOr(now)),
                      error := if reason != "" && e.error == "" then reason else e.error);
    st.(events := st.events - {event.id}, dlq := st.dlq[e.id := stamped])
  }

  lemma BuryStamped(st: State, s: Stored, now: int)
    requires s.event.id in st.events && s.event.dlqAt.Some?
    ensures Bury(st.(events := st.events[s.event.id := s]), s.event, "", now)
            == st.(events := st.events - {s.event.id}, dlq := st.dlq[s.event.id := s.event])
  {
    assert st.events[s.event.id := s] - {s.event.id} == st.events - {s.event.id};
  }

  function Fail(st: State, id: string, attempt: int, error: Option<string>, maxAttempts: int,
                now: int, delay: int): State
    requires id in st.events
  {
    var e := st.events[id].event.(attempt := attempt, error := error.GetOr(st.events[id].event.error));
    if attempt >= maxAttempts then
      var last := e.(dlqAt := Some(now), error := "max attempts exceeded: " + e.error);
      st.(events := st.events - {id}, dlq := st.dlq[last.id := last])
    else st.(events := st.events[id := Stored(e, now + delay)])
  }

  function Apply(st: State, op: Op): State {
    match op
    case SaveOp(e, visibleAt) => st.(events := st.events[e.id := Stored(e, visibleAt)])
    case PollOp(_, ids, now) => st.(events := Lease(st.events, ids, now + LEASE))
    case AckOp(id) => st.(events := st.events - {id})
    case FailOp(id, attempt, error, maxAttempts, now, delay) =>
      if id in st.events then Fail(st, id, attempt, error, maxAttempts, now, delay) else st
    case BuryOp(e, reason, now) => Bury(st, e, reason, now)
  }

  /** The operations the store can perform in a state. */
  ghost predicate Possible(st: State, op: Op) {
    match op
    case SaveOp(e, _) => e.id != ""
    case PollOp(eventType, ids, now) => forall id :: id in ids ==> id in st.events && Due(st.events[id], eventType, now)
    case AckOp(id) => id in st.events
    case FailOp(_, attempt, _, _, _, delay) =>
      var base := EventRetry.Base(EventRetry.DEFAULT_POLICY, attempt);
      base <= delay < base + base / 10
    case BuryOp(_, _, _) => true
  }

  /** A whole sequence of operations, first to last. */
  function ApplyAll(st: State, ops: seq<Op>): State {
    if ops == [] then st else Apply(ApplyAll(st, ops[..|ops| - 1]), ops[|ops| - 1])
  }

  ghost predicate AllPossible(st: State, ops: seq<Op>) {
    ops != [] ==>
      var front := ops[..|ops| - 1];
      AllPossible(st, front) && Possible(ApplyAll(st, front), ops[|ops| - 1])
  }

  lemma ApplyOneMore(st: State, ops: seq<Op>, op: Op)
    ensures ApplyAll(st, ops + [op]) == Apply(ApplyAll(st, ops), op)
    ensures AllPossible(st, ops + [op]) <==> AllPossible(st, ops) && Possible(ApplyAll(st, ops), op)
  {
    assert (ops + [op])[..|ops|] == ops;
  }

  // The three clock readings one Save may take.
  datatype Clocks = Clocks(now0: int, now1: int, now2: int)

  /** A missing occurrence time is filled in; a delayed event is visible only from its delay on. */
  function SaveOpOf(event: Event, c: Clocks): Op {
    var e := event.(occurredAt := if event.occurredAt == 0 then c.now0 else event.occurredAt);
    SaveOp(e, if e.delayedUntil.Some? && e.delayedUntil.value > c.now1 then e.delayedUntil.value else c.now2)
  }

  function SaveOps(batch: seq<Event>, clocks: nat -> Clocks): seq<Op> {
    if batch == [] then []
    else SaveOps(batch[..|batch| - 1], clocks) + [SaveOpOf(batch[|batch| - 1], clocks(|batch| - 1))]
  }

  /** How many events of a batch come before the first one without an id. */
  function Named(batch: seq<Event>): (n: nat)
    ensures n <= |batch|
  {
    if batch == [] || batch[0].id == "" then 0 else 1 + Named(batch[1..])
  }

  lemma {:induction false} NamedPrefix(batch: seq<Event>)
    ensures forall i :: 0 <= i < Named(batch) ==> batch[i].id != ""
    ensures Named(batch) < |batch| ==> batch[Named(batch)].id == ""
  {
    if batch != [] && batch[0].id != "" { NamedPrefix(batch[1..]); }
  }

  lemma IdsAppend(batch: seq<Event>, e: Event)
    ensures IdsOf(batch + [e]) == IdsOf(batch) + {e.id}
  {
    assert forall x :: x in batch + [e] <==> x in batch || x == e;
  }

  lemma {:induction false} SavedIds(st: State, batch: seq<Event>, clocks: nat -> Clocks)
    ensures ApplyAll(st, SaveOps(batch, clocks)).events.Keys == st.events.Keys + IdsOf(batch)
  {
    if batch != [] {
      var front, e := batch[..|batch| - 1], batch[|batch| - 1];
      SavedIds(st, front, clocks);
      ApplyOneMore(st, SaveOps(front, clocks), SaveOpOf(e, clocks(|batch| - 1)));
      assert batch == front + [e];
      IdsAppend(front, e);
    }
  }

  /** Documented as atomic, saving a batch leaves a part behind exactly when an event without id comes after others. */
  lemma BatchIsPartialIff(st: State, batch: seq<Event>, clocks: nat -> Clocks)
    requires forall e :: e in batch ==> e.id !in st.events
    ensures var kept := ApplyAll(st, SaveOps(batch[..Named(batch)], clocks));
            (kept != st && exists e :: e in batch && e.id !in kept.events)
            <==> batch != [] && batch[0].id != "" && exists e :: e in batch && e.id == ""
  {
    var n := Named(batch);
    var kept := ApplyAll(st, SaveOps(batch[..n], clocks));
    NamedPrefix(batch);
    SavedIds(st, batch[..n], clocks);
    if n == 0 {
      assert SaveOps(batch[..0], clocks) == [];
    } else {
      assert batch[0] in batch[..n] && batch[0].id in IdsOf(batch[..n]);
      assert batch[0].id in kept.events && batch[0].id !in st.events;
    }
    forall e | e in batch[..n]
      ensures e.id != "" && e.id in kept.events
    {
      assert e.id in IdsOf(batch[..n]);
    }
    if n < |batch| {
      assert batch[n] in batch && batch[n].id !in IdsOf(batch[..n]);
    } else {
      assert batch[..n] == batch;
    }
  }

  function IdsOf(batch: seq<Event>): set<string> {
    set e | e in batch :: e.id
  }

  ghost predicate Distinct(batch: seq<Event>) {
    forall i, j :: 0 <= i < j < |batch| ==> batch[i].id != batch[j].id
  }

  ghost predicate OrderedBy(key: Event -> int, batch: seq<Event>) {
    forall i, j :: 0 <= i < j < |batch| ==> key(batch[i]) <= key(batch[j])
  }

  const OCCURRENCE: Event -> int := (e: Event) => e.occurredAt

  const DEATH: Event -> int := (e: Event) => e.dlqAt.GetOr(0)

  function Insert(e: Event, s: seq<Event>, key: Event -> int): seq<Event> {
    if s == [] || key(e) < key(s[0]) then [e] + s else [s[0]] + Insert(e, s[1..], key)
  }

  /** Stands for sort.Slice: some ordered arrangement of the same events. */
  function SortBy(s: seq<Event>, key: Event -> int): seq<Event> {
    if s == [] then [] else Insert(s[0], SortBy(s[1..], key), key)
  }

  lemma {:induction false} InsertMembers(e: Event, s: seq<Event>, key: Event -> int)
    ensures |Insert(e, s, key)| == |s| + 1
    ensures forall x :: x in Insert(e, s, key) <==> x == e || x in s
  {
    if s != [] && key(e) >= key(s[0]) {
      InsertMembers(e, s[1..], key);
      assert s == [s[0]] + s[1..];
    }
  }

  lemma {:induction false} InsertOrdered(e: Event, s: seq<Event>, key: Event -> int)
    requires OrderedBy(key, s)
    ensures OrderedBy(key, Insert(e, s, key))
  {
    if s != [] && key(e) >= key(s[0]) {
      InsertOrdered(e, s[1..], key);
      InsertMembers(e, s[1..], key);
      var rest := Insert(e, s[1..], key);
      forall j | 0 <= j < |rest|
        ensures key(s[0]) <= key(rest[j])
      {
        assert rest[j] in rest;
      }
    }
  }

  lemma {:induction false} InsertDistinct(e: Event, s: seq<Event>, key: Event -> int)
    requires Distinct(s) && forall x :: x in s ==> x.id != e.id
    ensures Distinct(Insert(e, s, key))
  {
    if s != [] && key(e) >= key(s[0]) {
      InsertDistinct(e, s[1..], key);
      InsertMembers(e, s[1..], key);
      var rest := Insert(e, s[1..], key);
      forall j | 0 <= j < |rest|
        ensures rest[j].id != s[0].id
      {
        assert rest[j] in rest;
        assert rest[j] in s[1..] ==> exists k :: 1 <= k < |s| && s[k] == rest[j];
      }
    }
  }

  lemma {:induction false} SortArranges(s: seq<Event>, key: Event -> int)
    ensures |SortBy(s, key)| == |s| && OrderedBy(key, SortBy(s, key))
    ensures forall x :: x in SortBy(s, key) <==> x in s
    ensures Distinct(s) ==> Distinct(SortBy(s, key))
    ensures IdsOf(SortBy(s, key)) == IdsOf(s)
  {
    if s != [] {
      var rest := SortBy(s[1..], key);
      SortArranges(s[1..], key);
      InsertMembers(s[0], rest, key);
      InsertOrdered(s[0], rest, key);
      assert s == [s[0]] + s[1..];
      if Distinct(s) {
        HeadIsUnique(s);
        InsertDistinct(s[0], rest, key);
      }
    }
  }

  lemma HeadIsUnique(s: seq<Event>)
    requires |s| > 0 && Distinct(s)
    ensures Distinct(s[1..]) && forall x :: x in s[1..] ==> x.id != s[0].id
  {}

  /** Distinct events as stored in `events`, with exactly the given ids, all of them due. */
  ghost predicate Batch(batch: seq<Event>, ids: set<string>, events: map<string, Stored>, eventType: string, now: int) {
    && Distinct(batch) && IdsOf(batch) == ids
    && forall e :: e in batch ==> e.id in events && events[e.id].event == e && Due(events[e.id], eventType, now)
  }

  lemma BatchGrows(batch: seq<Event>, ids: set<string>, id: string, events: map<string, Stored>,
                   eventType: string, now: int)
    requires Batch(batch, ids, events, eventType, now)
    requires id !in ids && id in events && events[id].event.id == id && Due(events[id], eventType, now)
    ensures Batch(batch + [events[id].event], ids + {id}, events, eventType, now)
  {
    var e := events[id].event;
    var more := batch + [e];
    assert forall x :: x in more <==> x in batch || x == e;
    assert forall i :: 0 <= i < |batch| ==> batch[i].id in IdsOf(batch);
  }

  /** The empty type stands for any. */
  predicate OfType(e: Event, eventType: string) {
    eventType == "" || e.eventType == eventType
  }

  ghost predicate Letters(letters: seq<Event>, ids: set<string>, dlq: map<string, Event>, eventType: string) {
    && Distinct(letters) && IdsOf(letters) == ids
    && forall e :: e in letters ==> e.id in dlq && dlq[e.id] == e && OfType(e, eventType)
  }

  lemma LettersGrow(letters: seq<Event>, ids: set<string>, id: string, dlq: map<string, Event>, eventType: string)
    requires Letters(letters, ids, dlq, eventType)
    requires id !in ids && id in dlq && dlq[id].id == id && OfType(dlq[id], eventType)
    ensures Letters(letters + [dlq[id]], ids + {id}, dlq, eventType)
  {
    var more := letters + [dlq[id]];
    assert forall x :: x in more <==> x in letters || x == dlq[id];
    assert forall i :: 0 <= i < |letters| ==> letters[i].id in IdsOf(letters);
  }

  /** The events a poll takes have the polled type and are visible and not dead; it moves no other event. */
  lemma PollTakesItsType(st: State, eventType: string, ids: set<string>, now: int)
    requires WellFormed(st) && Possible(st, PollOp(eventType, ids, now))
    ensures var after := Apply(st, PollOp(eventType, ids, now));
            && (forall id :: id in ids ==>
                  && id in st.events && st.events[id].event.eventType == eventType
                  && st.events[id].visibleAt <= now && st.events[id].event.dlqAt.None?
                  && after.events[id] == Stored(st.events[id].event, now + 30 * 1_000_000_000))
            && (forall id :: id in st.events && id !in ids ==> id in after.events && after.events[id] == st.events[id])
            && after.events.Keys == st.events.Keys && after.dlq == st.dlq
  {}

  /** A batch that is not full holds every pending event of the polled type that is visible and not dead. */
  lemma PollLeavesNothing(batch: seq<Event>, events: map<string, Stored>, eventType: string, now: int, id: string)
    requires Batch(batch, IdsOf(batch), events, eventType, now) && IdsOf(batch) == DueIds(events, eventType, now)
    requires id in events && events[id].event.id == id
    ensures events[id].event in batch
            <==> events[id].event.eventType == eventType && events[id].visibleAt <= now && events[id].event.dlqAt.None?
  {
    assert events[id].event in batch ==> id in IdsOf(batch);
    if id in DueIds(events, eventType, now) {
      var e :| e in batch && e.id == id;
    }
  }

  lemma LeaseOneMore(events: map<string, Stored>, ids: set<string>, id: string, until: int)
    requires id in events && id !in ids
    ensures var leased := Lease(events, ids, until);
            leased[id] == events[id]
            && leased[id := leased[id].(visibleAt := until)] == Lease(events, ids + {id}, until)
  {}

  /** Keys are the events' own ids and every dead letter carries its instant. */
  ghost predicate WellFormed(st: State) {
    && (forall id :: id in st.events ==> st.events[id].event.id == id)
    && (forall id :: id in st.dlq ==> st.dlq[id].id == id && st.dlq[id].dlqAt.Some?)
  }

  lemma OpKeepsWellFormed(st: State, op: Op)
    requires WellFormed(st)
    ensures WellFormed(Apply(st, op))
  {}

  class Store {
    var events: map<string, Stored>
    var dlq: map<string, Event>
    var closed: bool

    ghost function View(): State
      reads this
    {
      State(events, dlq, closed)
    }

    ghost predicate Valid()
      reads this
    {
      WellFormed(View())
    }

    constructor ()
      ensures Valid() && View() == EMPTY
    {
      events, dlq, closed := map[], map[], false;
    }

    method Save(event: Event, c: Clocks) returns (err: Option<StoreError>)
      requires Valid()
      modifies this
      ensures Valid()
      ensures err == if old(closed) then Some(Closed) else if event.id == "" then Some(MissingId) else None
      ensures err.Some? ==> View() == old(View())
      ensures err.None? ==> Possible(old(View()), SaveOpOf(event, c))
      ensures err.None? ==> View() == Apply(old(View()), SaveOpOf(event, c))
    {
      if closed { return Some(Closed); }
      if event.id == "" { return Some(MissingId); }
      var ev := event;
      if ev.occurredAt == 0 { ev := ev.(occurredAt := c.now0); }
      var visibleAt := ComputeVisibleAt(ev, c.now1, c.now2);
      events := events[ev.id := Stored(ev, visibleAt)];
      return None;
    }

    /** Stops at the first event that cannot be saved, and keeps the ones before it. */
    method SaveBatch(batch: seq<Event>, clocks: nat -> Clocks) returns (err: Option<StoreError>)
      requires Valid()
      modifies this
      ensures Valid()
      ensures old(closed) && batch != [] ==> err == Some(Closed) && View() == old(View())
      ensures !old(closed) ==>
                && err == (if Named(batch) < |batch| then Some(MissingId) else None)
                && View() == ApplyAll(old(View()), SaveOps(batch[..Named(batch)], clocks))
    {
      NamedPrefix(batch);
      var i := 0;
      while i < |batch|
        invariant 0 <= i <= Named(batch) && Valid() && closed == old(closed) && (i > 0 ==> !closed)
        invariant View() == ApplyAll(old(View()), SaveOps(batch[..i], clocks))
      {
        assert i < Named(batch) ==> batch[..i + 1] == batch[..i] + [batch[i]];
        err := Save(batch[i], clocks(i));
        if err.Some? { return; }
        ApplyOneMore(old(View()), SaveOps(batch[..i], clocks), SaveOpOf(batch[i], clocks(i)));
        i := i + 1;
      }
      return None;
    }

    function ComputeVisibleAt(event: Event, now1: int, now2: int): int {
      if event.delayedUntil.Some? && event.delayedUntil.value > now1 then event.delayedUntil.value else now2
    }

    /** The events are visited in an arbitrary order, so which due events fill a full batch is left open. */
    method Poll(eventType: string, batchSize: int, now: int) returns (batch: seq<Event>, err: Option<StoreError>)
      requires Valid()
      modifies this
      ensures Valid()
      ensures err == if old(closed) then Some(Closed) else None
      ensures err.Some? ==> batch == [] && View() == old(View())
      ensures err.None? ==>
                && Possible(old(View()), PollOp(eventType, IdsOf(batch), now))
                && View() == Apply(old(View()), PollOp(eventType, IdsOf(batch), now))
      ensures Batch(batch, IdsOf(batch), old(events), eventType, now)
      ensures |batch| <= Max(batchSize, 1) && forall i, j :: 0 <= i < j < |batch| ==>
                batch[i].occurredAt <= batch[j].occurredAt
      ensures err.None? && |batch| < Max(batchSize, 1) ==> IdsOf(batch) == DueIds(old(events), eventType, now)
    {
      if closed { return [], Some(Closed); }
      ghost var ids;
      batch, ids := LeaseDue(eventType, if batchSize <= 0 then 1 else batchSize, now);
      SortArranges(batch, OCCURRENCE);
      batch := SortBy(batch, OCCURRENCE);
      return batch, None;
    }

    /** The loop of Poll: lease due events until the batch is full. */
    method LeaseDue(eventType: string, limit: int, now: int) returns (batch: seq<Event>, ghost ids: set<string>)
      requires Valid() && limit > 0
      modifies this`events
      ensures ids <= old(events).Keys && events == Lease(old(events), ids, now + LEASE)
      ensures Batch(batch, ids, old(events), eventType, now) && |batch| <= limit
      ensures |batch| < limit ==> ids >= DueIds(old(events), eventType, now)
    {
      batch := [];
      var todo := events.Keys;
      ghost var all := events;
      ids := {};
      assert Lease(all, {}, now + LEASE) == all;
      while todo != {}
        invariant todo <= all.Keys - ids && ids <= all.Keys
        invariant events == Lease(all, ids, now + LEASE)
        invariant Batch(batch, ids, all, eventType, now) && |batch| < limit
        invariant DueIds(all, eventType, now) - todo <= ids
        decreases |todo|
      {
        var id :| id in todo;
        todo := todo - {id};
        LeaseOneMore(all, ids, id, now + LEASE);
        if !Due(events[id], eventType, now) { continue; }
        BatchGrows(batch, ids, id, all, eventType, now);
        events := events[id := events[id].(visibleAt := now + LEASE)];
        batch, ids := batch + [events[id].event], ids + {id};
        if |batch| >= limit { break; }
      }
    }

    method MarkProcessed(id: string) returns (err: Option<StoreError>)
      requires Valid()
      modifies this
      ensures Valid()
      ensures err == if id in old(events) then None else Some(NotFound)
      ensures View() == Apply(old(View()), AckOp(id))
    {
      if id !in events {
        assert events - {id} == events;
        return Some(NotFound);
      }
      events := events - {id};
      return None;
    }

    /** Returns the delay it drew, for the benefit of the contract. */
    method MarkFailed(id: string, attempt: int, error: Option<string>, maxAttempts: int, now: int)
      returns (err: Option<StoreError>, ghost delay: int)
      requires Valid()
      modifies this
      ensures Valid()
      ensures err == if id in old(events) then None else Some(NotFound)
      ensures Possible(old(View()), FailOp(id, attempt, error, maxAttempts, now, delay))
      ensures View() == Apply(old(View()), FailOp(id, attempt, error, maxAttempts, now, delay))
    {
      EventRetry.DefaultBase(attempt);
      delay := EventRetry.Base(EventRetry.DEFAULT_POLICY, attempt);
      if id !in events { return Some(NotFound), delay; }
      var e := events[id].event.(attempt := attempt);
      if error.Some? { e := e.(error := error.value); }
      if attempt >= maxAttempts {
        e := e.(dlqAt := Some(now), error := "max attempts exceeded: " + e.error);
        BuryStamped(View(), events[id].(event := e), now);
        events := events[id := events[id].(event := e)];
        MoveToDLQ(e, "", now);
        return None, delay;
      }
      var d := EventRetry.ComputeDelay(EventRetry.DEFAULT_POLICY, attempt);
      delay := d.value;
      events := events[id := Stored(e, now + d.value)];
      return None, delay;
    }

    method MoveToDLQ(event: Event, reason: string, now: int)
      requires Valid()
      modifies this
      ensures Valid()
      ensures View() == Apply(old(View()), BuryOp(event, reason, now))
    {
      var ev := event;
      if ev.id in events {
        ev := events[ev.id].event;
      }
      events := events - {ev.id};
      if ev.dlqAt.None? { ev := ev.(dlqAt := Some(now)); }
      if reason != "" && ev.error == "" { ev := ev.(error := reason); }
      dlq := dlq[ev.id := ev];
    }

    /** No dead letter lacks its instant, so the comparison of the sort is always defined. */
    method ListDLQ(eventType: string, limit: int) returns (letters: seq<Event>)
      requires Valid()
      ensures Letters(letters, IdsOf(letters), dlq, eventType)
      ensures forall e :: e in letters ==> e.dlqAt.Some? && (eventType == "" || e.eventType == eventType)
      ensures forall i, j :: 0 <= i < j < |letters| && letters[i].dlqAt.Some? && letters[j].dlqAt.Some? ==>
                letters[i].dlqAt.value <= letters[j].dlqAt.value
      ensures limit > 0 ==> |letters| <= limit
      ensures limit <= 0 || |letters| < limit ==>
                forall id :: id in dlq && (eventType == "" || dlq[id].eventType == eventType) ==> id in IdsOf(letters)
    {
      ghost var ids;
      letters, ids := CollectLetters(eventType, limit);
      SortArranges(letters, DEATH);
      letters := SortBy(letters, DEATH);
    }

    method CollectLetters(eventType: string, limit: int) returns (letters: seq<Event>, ghost ids: set<string>)
      requires Valid()
      ensures Letters(letters, ids, dlq, eventType)
      ensures limit > 0 ==> |letters| <= limit
      ensures limit <= 0 || |letters| < limit ==>
                forall id :: id in dlq && OfType(dlq[id], eventType) ==> id in ids
    {
      letters, ids := [], {};
      var todo := dlq.Keys;
      while todo != {}
        invariant todo <= dlq.Keys - ids
        invariant Letters(letters, ids, dlq, eventType) && (limit > 0 ==> |letters| < limit)
        invariant forall id :: id in dlq && id !in todo && OfType(dlq[id], eventType) ==> id in ids
        decreases |todo|
      {
        var id :| id in todo;
        todo := todo - {id};
        if !OfType(dlq[id], eventType) { continue; }
        LettersGrow(letters, ids, id, dlq, eventType);
        letters, ids := letters + [dlq[id]], ids + {id};
        if limit > 0 && |letters| >= limit { break; }
      }
    }

    method Close()
      modifies this
      ensures View() == old(View()).(closed := true)
    {
      closed := true;
    }
  }
}
