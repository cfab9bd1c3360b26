/** The consume use case: poll, dispatch to the registered handlers, acknowledge or fail. */
module EventConsumer {
  import opened Wrappers
  import opened EventStore
  import opened EventDelivery

  const BATCH_SIZE := 10

  datatype BusError =
    | MissingType | NilHandler
    | PollFailed(cause: StoreError) | AckFailed(id: string, cause: StoreError)

  // A handler is known by its number; what handler h answers to a delivery of e is outcome(h, e),
  // where None is success. A poll delivers an event at most once, so this leaves every answer open.
  type Answers = (nat, Event) -> Option<string>

  /** The first error among the handlers' answers, in registration order. */
  function FirstError(list: seq<nat>, e: Event, outcome: Answers): Option<string> {
    if list == [] then None
    else if outcome(list[0], e).Some? then outcome(list[0], e)
    else FirstError(list[1..], e, outcome)
  }

  /** A delivery succeeds exactly when every registered handler does. */
  lemma {:induction false} SucceedsIffAllDo(list: seq<nat>, e: Event, outcome: Answers)
    ensures FirstError(list, e, outcome).None? <==> forall h :: h in list ==> outcome(h, e).None?
    ensures FirstError(list, e, outcome).Some? ==>
              exists k :: 0 <= k < |list| && outcome(list[k], e) == FirstError(list, e, outcome)
                          && forall i :: 0 <= i < k ==> outcome(list[i], e).None?
  {
    if list != [] {
      SucceedsIffAllDo(list[1..], e, outcome);
      if outcome(list[0], e).None? {
        if FirstError(list, e, outcome).Some? {
          var k :| 0 <= k < |list[1..]| && outcome(list[1..][k], e) == FirstError(list, e, outcome)
                   && forall i :: 0 <= i < k ==> outcome(list[1..][i], e).None?;
          assert list[k + 1] == list[1..][k];
          assert forall i :: 0 < i < k + 1 ==> list[i] == list[1..][i - 1];
        }
        assert list == [list[0]] + list[1..];
      } else {
        assert list[0] in list;
      }
    }
  }

  lemma {:induction false} FirstErrorAppend(list: seq<nat>, h: nat, e: Event, outcome: Answers)
    ensures FirstError(list + [h], e, outcome)
            == if FirstError(list, e, outcome).Some? then FirstError(list, e, outcome) else outcome(h, e)
  {
    if list == [] {
      assert list + [h] == [h];
    } else {
      assert (list + [h])[1..] == list[1..] + [h];
      FirstErrorAppend(list[1..], h, e, outcome);
    }
  }

  /** At most ten events by their occurrence times, and fewer only if no other one is due. */
  ghost predicate IsFilled(batch: seq<Event>, events: map<string, Stored>, eventType: string, now: int) {
    && |batch| <= 10 && (|batch| < 10 ==> IdsOf(batch) == DueIds(events, eventType, now))
    && forall i, j :: 0 <= i < j < |batch| ==> batch[i].occurredAt <= batch[j].occurredAt
  }

  class Consumer {
    const store: Store
    const maxRetries: int
    var handlers: map<string, seq<nat>>

    constructor (store: Store, maxRetries: int)
      ensures this.store == store && this.maxRetries == maxRetries && handlers == map[]
    {
      this.store, this.maxRetries, handlers := store, maxRetries, map[];
    }

    function HandlersOf(eventType: string): seq<nat>
      reads this
    {
      if eventType in handlers then handlers[eventType] else []
    }

    method Subscribe(eventType: string, handler: Option<nat>) returns (err: Option<BusError>)
      modifies this
      ensures err == if eventType == "" then Some(MissingType) else if handler.None? then Some(NilHandler) else None
      ensures forall t :: HandlersOf(t)
                == old(HandlersOf(t)) + if err.None? && t == eventType then [handler.value] else []
    {
      if eventType == "" { return Some(MissingType); }
      if handler.None? { return Some(NilHandler); }
      handlers := handlers[eventType := HandlersOf(eventType) + [handler.value]];
      return None;
    }

    /** Every handler is called, also after one has failed. */
    method Dispatch(e: Event, outcome: Answers) returns (firstErr: Option<string>)
      ensures firstErr == FirstError(HandlersOf(e.eventType), e, outcome)
    {
      var list := HandlersOf(e.eventType);
      firstErr := None;
      var i := 0;
      while i < |list|
        invariant 0 <= i <= |list| && firstErr == FirstError(list[..i], e, outcome)
      {
        FirstErrorAppend(list[..i], list[i], e, outcome);
        assert list[..i + 1] == list[..i] + [list[i]];
        var err := outcome(list[i], e);
        if err.Some? && firstErr.None? { firstErr := err; }
        i := i + 1;
      }
      assert list[..|list|] == list;
    }

    /** What the consumer must have told the store about an event of its batch. */
    ghost predicate Answered(op: Op, e: Event, outcome: Answers)
      reads this
    {
      && Settles(op, e, maxRetries)
      && (op.AckOp? <==> FirstError(HandlersOf(e.eventType), e, outcome).None?)
      && (op.FailOp? ==> op.error == FirstError(HandlersOf(e.eventType), e, outcome))
    }

    /** The body of the poll loop, for one leased event; op is what it told the store. */
    method Handle(e: Event, outcome: Answers, at: int) returns (acked: bool, err: Option<BusError>, ghost op: Op)
      requires store.Valid()
      modifies store
      ensures store.Valid() && Answered(op, e, outcome) && acked == op.AckOp?
      ensures err == if acked && e.id !in old(store.events) then Some(AckFailed(e.id, NotFound)) else None
      ensures err.None? ==> Possible(old(store.View()), op)
      ensures err.Some? ==> store.View() == old(store.View())
      ensures store.View() == Apply(old(store.View()), op)
    {
      var failure := Dispatch(e, outcome);
      if failure.None? {
        var ackErr := store.MarkProcessed(e.id);
        if ackErr.Some? { assert old(store.events) - {e.id} == old(store.events); }
        return true, if ackErr.Some? then Some(AckFailed(e.id, ackErr.value)) else None, AckOp(e.id);
      }
      var _, delay := store.MarkFailed(e.id, e.attempt + 1, failure, maxRetries, at);
      return false, None, FailOp(e.id, e.attempt + 1, failure, maxRetries, at, delay);
    }

    /**
     * The poll loop. It stops at the first event whose handlers succeed but whose id is no longer
     * pending; a failure of such an id is lost without notice.
     */
    method HandleAll(batch: seq<Event>, outcome: Answers, after: nat -> int)
      returns (processed: nat, err: Option<BusError>, ghost settled: seq<Op>)
      requires store.Valid()
      modifies store
      ensures store.Valid() && |settled| <= |batch| && processed == Acknowledged(settled)
      ensures forall i :: 0 <= i < |settled| ==> Answered(settled[i], batch[i], outcome)
      ensures AllPossible(old(store.View()), settled)
      ensures store.View() == ApplyAll(old(store.View()), settled)
      ensures |settled| == |batch| ==> err.None?
      ensures |settled| < |batch| ==>
                var e := batch[|settled|];
                && err == Some(AckFailed(e.id, NotFound)) && e.id !in store.events
                && FirstError(HandlersOf(e.eventType), e, outcome).None?
    {
      processed, err, settled := 0, None, [];
      var i := 0;
      while i < |batch|
        invariant 0 <= i <= |batch| && |settled| == i && store.Valid() && err.None?
        invariant forall j :: 0 <= j < i ==> Answered(settled[j], batch[j], outcome)
        invariant AllPossible(old(store.View()), settled) && store.View() == ApplyAll(old(store.View()), settled)
        invariant processed == Acknowledged(settled)
      {
        var acked, ackErr, op := Handle(batch[i], outcome, after(i));
        if ackErr.Some? { return processed, ackErr, settled; }
        if acked { processed := processed + 1; }
        SettledOneMore(old(store.View()), settled, op);
        settled := settled + [op];
        i := i + 1;
      }
    }

    /**
     * One poll. The ghost round is what happened to the store; with the store to itself the consumer
     * never meets an acknowledgement error.
     */
    method PollOnce(eventType: string, outcome: Answers, now: int, after: nat -> int)
      returns (processed: nat, err: Option<BusError>, ghost round: Round)
      requires store.Valid()
      modifies store
      ensures store.Valid()
      ensures err == if old(store.closed) then Some(PollFailed(Closed)) else None
      ensures err.Some? ==> processed == 0 && store.View() == old(store.View())
      ensures err.None? ==>
                && RoundOf(old(store.View()), round, maxRetries)
                && round.eventType == eventType && round.at == now
                && IsFilled(round.batch, old(store.events), eventType, now)
                && (forall i :: 0 <= i < |round.batch| ==> Answered(round.settled[i], round.batch[i], outcome))
                && AllPossible(old(store.View()), OpsOf(round))
                && store.View() == ApplyAll(old(store.View()), OpsOf(round))
                && processed == Acknowledged(round.settled)
    {
      ghost var before := store.View();
      var batch, pollErr := store.Poll(eventType, BATCH_SIZE, now);
      if pollErr.Some? { return 0, Some(PollFailed(pollErr.value)), Round(eventType, [], now, []); }
      ghost var leased, settled := store.View(), [];
      assert IsFilled(batch, before.events, eventType, now);
      BatchIsPending(before, batch, eventType, now);
      processed, err, settled := HandleAll(batch, outcome, after);
      EveryoneIsSettled(leased, batch, settled, maxRetries);
      RoundHappens(before, leased, batch, settled, eventType, now, maxRetries);
      round := Round(eventType, batch, now, settled);
    }
  }

  lemma BatchIsPending(st: State, batch: seq<Event>, eventType: string, now: int)
    requires Batch(batch, IdsOf(batch), st.events, eventType, now)
    ensures Distinct(batch)
    ensures forall e :: e in batch ==> e.id in Apply(st, PollOp(eventType, IdsOf(batch), now)).events
  {}

  /** Settling some events of a batch of distinct ids leaves the next one pending. */
  lemma OthersStayPending(st: State, batch: seq<Event>, settled: seq<Op>, maxRetries: int)
    requires |settled| < |batch| && Distinct(batch) && batch[|settled|].id in st.events
    requires forall i :: 0 <= i < |settled| ==> Settles(settled[i], batch[i], maxRetries)
    ensures batch[|settled|].id in ApplyAll(st, settled).events
  {
    StayPending(st, batch[..|settled|], settled, batch[|settled|].id, maxRetries);
  }

  lemma {:induction false} StayPending(st: State, front: seq<Event>, settled: seq<Op>, id: string, maxRetries: int)
    requires |settled| == |front| && id in st.events && forall i :: 0 <= i < |front| ==> front[i].id != id
    requires forall i :: 0 <= i < |settled| ==> Settles(settled[i], front[i], maxRetries)
    ensures id in ApplyAll(st, settled).events
  {
    if settled != [] {
      var n := |settled| - 1;
      StayPending(st, front[..n], settled[..n], id, maxRetries);
      assert Settles(settled[n], front[n], maxRetries);
    }
  }

  lemma EveryoneIsSettled(st: State, batch: seq<Event>, settled: seq<Op>, maxRetries: int)
    requires |settled| <= |batch| && Distinct(batch) && forall e :: e in batch ==> e.id in st.events
    requires forall i :: 0 <= i < |settled| ==> Settles(settled[i], batch[i], maxRetries)
    ensures |settled| < |batch| ==> batch[|settled|].id in ApplyAll(st, settled).events
  {
    if |settled| < |batch| { OthersStayPending(st, batch, settled, maxRetries); }
  }

  /** A poll and the settlement of its whole batch make a round. */
  lemma RoundHappens(before: State, leased: State, batch: seq<Event>, settled: seq<Op>,
                     eventType: string, now: int, maxRetries: int)
    requires Batch(batch, IdsOf(batch), before.events, eventType, now)
    requires leased == Apply(before, PollOp(eventType, IdsOf(batch), now)) && |settled| == |batch|
    requires forall i :: 0 <= i < |batch| ==> Settles(settled[i], batch[i], maxRetries)
    requires AllPossible(leased, settled)
    ensures var round := Round(eventType, batch, now, settled);
            && RoundOf(before, round, maxRetries) && AllPossible(before, OpsOf(round))
            && ApplyAll(before, OpsOf(round)) == ApplyAll(leased, settled)
  {
    ApplyFirst(before, PollOp(eventType, IdsOf(batch), now), settled);
  }

  lemma {:induction false} ApplyFirst(st: State, op: Op, ops: seq<Op>)
    ensures ApplyAll(st, [op] + ops) == ApplyAll(Apply(st, op), ops)
    ensures Possible(st, op) && AllPossible(Apply(st, op), ops) ==> AllPossible(st, [op] + ops)
  {
    var all := [op] + ops;
    if ops == [] {
      assert all[..0] == [] && all == [op];
    } else {
      assert all[..|ops|] == [op] + ops[..|ops| - 1];
      ApplyFirst(st, op, ops[..|ops| - 1]);
    }
  }

  function Acknowledged(settled: seq<Op>): nat {
    if settled == [] then 0
    else Acknowledged(settled[..|settled| - 1]) + if settled[|settled| - 1].AckOp? then 1 else 0
  }

  lemma SettledOneMore(st: State, settled: seq<Op>, op: Op)
    requires AllPossible(st, settled) && Possible(ApplyAll(st, settled), op)
    ensures AllPossible(st, settled + [op])
    ensures ApplyAll(st, settled + [op]) == Apply(ApplyAll(st, settled), op)
    ensures Acknowledged(settled + [op]) == Acknowledged(settled) + if op.AckOp? then 1 else 0
  {
    ApplyOneMore(st, settled, op);
    AcknowledgedAppend(settled, op);
  }

  lemma AcknowledgedAppend(settled: seq<Op>, op: Op)
    ensures Acknowledged(settled + [op]) == Acknowledged(settled) + if op.AckOp? then 1 else 0
  {
    assert (settled + [op])[..|settled|] == settled;
  }
}
