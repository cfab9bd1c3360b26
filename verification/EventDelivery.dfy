/** One sequential consumer: how often an event is delivered before it is acknowledged or dead. */
module EventDelivery {
  import opened Wrappers
  import opened EventStore

  // One poll of a consumer: the batch it leased and what it then told the store about each event of it.
  datatype Round = Round(eventType: string, batch: seq<Event>, at: int, settled: seq<Op>)

  /** The store operations of a round, in order. */
  function OpsOf(r: Round): seq<Op> {
    [PollOp(r.eventType, IdsOf(r.batch), r.at)] + r.settled
  }

  /** An event is acknowledged, or failed with its attempt count raised by one. */
  ghost predicate Settles(op: Op, e: Event, maxRetries: int) {
    || op == AckOp(e.id)
    || (op.FailOp? && op.id == e.id && op.attempt == e.attempt + 1 && op.maxAttempts == maxRetries && op.error.Some?)
  }

  ghost predicate RoundOf(st: State, r: Round, maxRetries: int) {
    && Batch(r.batch, IdsOf(r.batch), st.events, r.eventType, r.at)
    && |r.settled| == |r.batch|
    && forall i :: 0 <= i < |r.batch| ==> Settles(r.settled[i], r.batch[i], maxRetries)
  }

  // Where an event is: its attempt count while pending, and whether the dead-letter queue has it.
  datatype Slot = Slot(pending: Option<int>, dead: bool)

  function SlotOf(st: State, id: string): Slot {
    Slot(if id in st.events then Some(st.events[id].event.attempt) else None, id in st.dlq)
  }

  function Leased(st: State, r: Round): State {
    Apply(st, PollOp(r.eventType, IdsOf(r.batch), r.at))
  }

  /** The state once the first k events of the batch are settled. */
  function Settled(st: State, r: Round, k: nat): State
    requires k <= |r.settled|
  {
    if k == 0 then Leased(st, r) else Apply(Settled(st, r, k - 1), r.settled[k - 1])
  }

  lemma {:induction false} SettledIsApplyAll(st: State, r: Round, k: nat)
    requires k <= |r.settled|
    ensures ApplyAll(st, OpsOf(r)[..k + 1]) == Settled(st, r, k)
  {
    var ops := OpsOf(r)[..k + 1];
    assert ops[..k] == OpsOf(r)[..k];
    if k == 0 {
      assert ops[..0] == [];
    } else {
      SettledIsApplyAll(st, r, k - 1);
    }
  }

  /** Settling one event leaves every other where it is. */
  lemma OthersStay(st: State, op: Op, id: string)
    requires WellFormed(st) && (op.AckOp? || op.FailOp?) && op.id != id
    ensures SlotOf(Apply(st, op), id) == SlotOf(st, id)
    ensures id in st.events ==> id in Apply(st, op).events && Apply(st, op).events[id] == st.events[id]
  {}

  lemma {:induction false} UntouchedBetween(st: State, r: Round, maxRetries: int, id: string, lo: nat, hi: nat)
    requires WellFormed(st) && RoundOf(st, r, maxRetries) && lo <= hi <= |r.batch|
    requires forall i :: lo <= i < hi ==> r.batch[i].id != id
    ensures WellFormed(Settled(st, r, hi))
    ensures SlotOf(Settled(st, r, hi), id) == SlotOf(Settled(st, r, lo), id)
    ensures id in Settled(st, r, lo).events ==>
              id in Settled(st, r, hi).events && Settled(st, r, hi).events[id] == Settled(st, r, lo).events[id]
    decreases hi
  {
    StaysWellFormed(st, r, maxRetries, hi);
    if lo < hi {
      UntouchedBetween(st, r, maxRetries, id, lo, hi - 1);
      assert Settles(r.settled[hi - 1], r.batch[hi - 1], maxRetries);
      OthersStay(Settled(st, r, hi - 1), r.settled[hi - 1], id);
    }
  }

  lemma {:induction false} StaysWellFormed(st: State, r: Round, maxRetries: int, k: nat)
    requires WellFormed(st) && RoundOf(st, r, maxRetries) && k <= |r.batch|
    ensures WellFormed(Settled(st, r, k))
  {
    if k > 0 {
      StaysWellFormed(st, r, maxRetries, k - 1);
      assert Settles(r.settled[k - 1], r.batch[k - 1], maxRetries);
      OpKeepsWellFormed(Settled(st, r, k - 1), r.settled[k - 1]);
    }
  }

  /** A settled event: no longer pending when acknowledged, one attempt older when failed, dead at the last. */
  function Verdict(op: Op, attempt: int, maxRetries: int, dead: bool): Slot {
    if op.AckOp? then Slot(None, dead)
    else if attempt + 1 >= maxRetries then Slot(None, true)
    else Slot(Some(attempt + 1), dead)
  }

  lemma SettleOne(st: State, op: Op, e: Event, maxRetries: int)
    requires WellFormed(st) && Settles(op, e, maxRetries) && e.id in st.events
    ensures SlotOf(Apply(st, op), e.id) == Verdict(op, e.attempt, maxRetries, e.id in st.dlq)
  {}

  lemma IndexOf(batch: seq<Event>, id: string) returns (i: nat)
    requires id in IdsOf(batch)
    ensures i < |batch| && batch[i].id == id
  {
    var e :| e in batch && e.id == id;
    i :| 0 <= i < |batch| && batch[i] == e;
  }

  /** What a round does to an event it did not lease. */
  lemma RoundElsewhere(st: State, r: Round, maxRetries: int, id: string)
    requires WellFormed(st) && RoundOf(st, r, maxRetries) && id !in IdsOf(r.batch)
    ensures SlotOf(Settled(st, r, |r.batch|), id) == SlotOf(st, id)
  {
    forall i | 0 <= i < |r.batch|
      ensures r.batch[i].id != id
    {
      assert r.batch[i] in r.batch;
    }
    UntouchedBetween(st, r, maxRetries, id, 0, |r.batch|);
  }

  lemma LeasedIsPending(st: State, r: Round, maxRetries: int, i: nat)
    requires WellFormed(st) && RoundOf(st, r, maxRetries) && i < |r.batch|
    ensures var e := r.batch[i];
            && SlotOf(st, e.id).pending == Some(e.attempt) && SlotOf(Leased(st, r), e.id) == SlotOf(st, e.id)
            && forall k :: 0 <= k < |r.batch| && k != i ==> r.batch[k].id != e.id
  {
    assert r.batch[i] in r.batch;
  }

  lemma JustSettled(st: State, r: Round, maxRetries: int, i: nat)
    requires WellFormed(st) && RoundOf(st, r, maxRetries) && i < |r.batch|
    ensures var e := r.batch[i];
            SlotOf(Settled(st, r, i + 1), e.id) == Verdict(r.settled[i], e.attempt, maxRetries, SlotOf(st, e.id).dead)
  {
    var e := r.batch[i];
    LeasedIsPending(st, r, maxRetries, i);
    UntouchedBetween(st, r, maxRetries, e.id, 0, i);
    assert Settles(r.settled[i], e, maxRetries);
    SettleOne(Settled(st, r, i), r.settled[i], e, maxRetries);
  }

  /** What a round does to the event at position i of its batch. */
  lemma RoundOnEvent(st: State, r: Round, maxRetries: int, i: nat)
    requires WellFormed(st) && RoundOf(st, r, maxRetries) && i < |r.batch|
    ensures var e := r.batch[i];
            && SlotOf(st, e.id).pending == Some(e.attempt)
            && SlotOf(Settled(st, r, |r.batch|), e.id)
               == Verdict(r.settled[i], e.attempt, maxRetries, SlotOf(st, e.id).dead)
  {
    LeasedIsPending(st, r, maxRetries, i);
    JustSettled(st, r, maxRetries, i);
    UntouchedBetween(st, r, maxRetries, r.batch[i].id, i + 1, |r.batch|);
  }

  // What happens to a store with one consumer: its rounds, and publications in between.
  datatype Move = Consume(round: Round) | Publish(event: Event, visibleAt: int)

  function After(st: State, moves: seq<Move>): State {
    if moves == [] then st
    else
      var before := After(st, moves[..|moves| - 1]);
      match moves[|moves| - 1]
      case Consume(r) => Settled(before, r, |r.settled|)
      case Publish(e, visibleAt) => Apply(before, SaveOp(e, visibleAt))
  }

  ghost predicate Legal(st: State, moves: seq<Move>, maxRetries: int) {
    moves != [] ==>
      var front, last := moves[..|moves| - 1], moves[|moves| - 1];
      && Legal(st, front, maxRetries)
      && (last.Consume? ==> RoundOf(After(st, front), last.round, maxRetries))
  }

  /** The handlers fail the event in every delivery, and nobody publishes its id again. */
  ghost predicate AlwaysFails(moves: seq<Move>, id: string) {
    forall k :: 0 <= k < |moves| ==>
      match moves[k]
      case Consume(r) => FailsIn(r, id)
      case Publish(e, _) => e.id != id
  }

  ghost predicate FailsIn(r: Round, id: string) {
    forall i :: 0 <= i < |r.batch| && i < |r.settled| && r.batch[i].id == id ==> r.settled[i].FailOp?
  }

  lemma FailingRound(st: State, r: Round, maxRetries: int, id: string)
    requires WellFormed(st) && RoundOf(st, r, maxRetries) && FailsIn(r, id)
    ensures WellFormed(Settled(st, r, |r.batch|))
    ensures id !in IdsOf(r.batch) ==> SlotOf(Settled(st, r, |r.batch|), id) == SlotOf(st, id)
    ensures id in IdsOf(r.batch) ==>
              && SlotOf(st, id).pending.Some?
              && var a := SlotOf(st, id).pending.value + 1;
                 SlotOf(Settled(st, r, |r.batch|), id)
                 == if a >= maxRetries then Slot(None, true) else Slot(Some(a), SlotOf(st, id).dead)
  {
    StaysWellFormed(st, r, maxRetries, |r.batch|);
    if id in IdsOf(r.batch) {
      var i := IndexOf(r.batch, id);
      RoundOnEvent(st, r, maxRetries, i);
      assert Settles(r.settled[i], r.batch[i], maxRetries) && r.settled[i].FailOp?;
    } else {
      RoundElsewhere(st, r, maxRetries, id);
    }
  }

  function Deliveries(moves: seq<Move>, id: string): nat {
    if moves == [] then 0
    else
      var last := moves[|moves| - 1];
      Deliveries(moves[..|moves| - 1], id) + if last.Consume? && id in IdsOf(last.round.batch) then 1 else 0
  }

  lemma LastFails(moves: seq<Move>, id: string)
    requires AlwaysFails(moves, id) && moves != []
    ensures AlwaysFails(moves[..|moves| - 1], id)
    ensures match moves[|moves| - 1] case Consume(r) => FailsIn(r, id) case Publish(e, _) => e.id != id
  {
    var front := moves[..|moves| - 1];
    assert forall k :: 0 <= k < |front| ==> front[k] == moves[k];
  }

  lemma PublishElsewhere(st: State, e: Event, visibleAt: int, id: string)
    requires WellFormed(st) && e.id != id
    ensures WellFormed(Apply(st, SaveOp(e, visibleAt))) && SlotOf(Apply(st, SaveOp(e, visibleAt)), id) == SlotOf(st, id)
  {
    OpKeepsWellFormed(st, SaveOp(e, visibleAt));
  }

  /**
   * An event that always fails, pending with attempt count a, is delivered at most max(1, maxRetries - a)
   * times: it is pending with one more attempt per delivery until then, and dead from then on.
   */
  lemma {:induction false} AlwaysFailingEvent(st: State, moves: seq<Move>, maxRetries: int, id: string)
    requires WellFormed(st) && Legal(st, moves, maxRetries) && AlwaysFails(moves, id)
    requires id in st.events && id !in st.dlq
    ensures WellFormed(After(st, moves))
    ensures var a, d := st.events[id].event.attempt, Deliveries(moves, id);
            && d <= Max(1, maxRetries - a)
            && SlotOf(After(st, moves), id)
               == (if d == Max(1, maxRetries - a) then Slot(None, true) else Slot(Some(a + d), false))
  {
    if moves != [] {
      var front, last := moves[..|moves| - 1], moves[|moves| - 1];
      LastFails(moves, id);
      AlwaysFailingEvent(st, front, maxRetries, id);
      if last.Consume? {
        FailingRound(After(st, front), last.round, maxRetries, id);
      } else {
        PublishElsewhere(After(st, front), last.event, last.visibleAt, id);
      }
    }
  }

  /** The attempts an event still has: at least one delivery, however high its count. */
  function AttemptsLeft(s: Stored, maxRetries: int): nat {
    Max(1, maxRetries - s.event.attempt)
  }

  ghost function TotalLeft(events: map<string, Stored>, maxRetries: int): nat
    decreases |events|
  {
    if events == map[] then 0
    else
      var id :| id in events;
      Without(events, id);
      AttemptsLeft(events[id], maxRetries) + TotalLeft(events - {id}, maxRetries)
  }

  lemma Without(events: map<string, Stored>, id: string)
    requires id in events
    ensures |events - {id}| < |events|
  {
    assert (events - {id}).Keys == events.Keys - {id};
    assert |events - {id}| == |events.Keys - {id}| && |events| == |events.Keys|;
  }

  lemma {:induction false} TotalSplits(events: map<string, Stored>, id: string, maxRetries: int)
    requires id in events
    ensures TotalLeft(events, maxRetries) == AttemptsLeft(events[id], maxRetries) + TotalLeft(events - {id}, maxRetries)
    decreases |events|
  {
    var x :| x in events && TotalLeft(events, maxRetries)
                            == AttemptsLeft(events[x], maxRetries) + TotalLeft(events - {x}, maxRetries);
    if x != id {
      Without(events, x);
      Without(events, id);
      TotalSplits(events - {x}, id, maxRetries);
      TotalSplits(events - {id}, x, maxRetries);
      assert events - {x} - {id} == events - {id} - {x};
    }
  }

  /** Leasing spends no attempt. */
  lemma {:induction false} LeaseKeepsTotal(events: map<string, Stored>, ids: set<string>, until: int, maxRetries: int)
    ensures TotalLeft(Lease(events, ids, until), maxRetries) == TotalLeft(events, maxRetries)
    decreases |events|
  {
    var leased := Lease(events, ids, until);
    if events == map[] {
      assert leased == map[];
    } else {
      var id :| id in events;
      Without(events, id);
      LeaseKeepsTotal(events - {id}, ids, until, maxRetries);
      assert leased - {id} == Lease(events - {id}, ids, until);
      TotalSplits(events, id, maxRetries);
      TotalSplits(leased, id, maxRetries);
    }
  }

  /** Settling a delivered event, by either verdict, spends at least one attempt. */
  lemma SettlingSpends(st: State, op: Op, e: Event, maxRetries: int)
    requires WellFormed(st) && e.id in st.events && st.events[e.id].event.attempt == e.attempt
    requires Settles(op, e, maxRetries)
    ensures TotalLeft(Apply(st, op).events, maxRetries) < TotalLeft(st.events, maxRetries)
  {
    var after := Apply(st, op).events;
    TotalSplits(st.events, e.id, maxRetries);
    assert after - {e.id} == st.events - {e.id};
    if e.id in after {
      TotalSplits(after, e.id, maxRetries);
    } else {
      assert after == after - {e.id};
    }
  }

  /** A round spends at least one attempt per delivery, whatever its handlers decide. */
  lemma {:induction false} RoundSpends(st: State, r: Round, maxRetries: int, k: nat)
    requires WellFormed(st) && RoundOf(st, r, maxRetries) && k <= |r.batch|
    ensures TotalLeft(Settled(st, r, k).events, maxRetries) + k <= TotalLeft(st.events, maxRetries)
  {
    if k == 0 {
      LeaseKeepsTotal(st.events, IdsOf(r.batch), r.at + LEASE, maxRetries);
    } else {
      RoundSpends(st, r, maxRetries, k - 1);
      var e := r.batch[k - 1];
      assert e in r.batch && Settles(r.settled[k - 1], e, maxRetries);
      StaysWellFormed(st, r, maxRetries, k - 1);
      UntouchedBetween(st, r, maxRetries, e.id, 0, k - 1);
      SettlingSpends(Settled(st, r, k - 1), r.settled[k - 1], e, maxRetries);
    }
  }

  function TotalDeliveries(rounds: seq<Round>): nat {
    if rounds == [] then 0 else TotalDeliveries(rounds[..|rounds| - 1]) + |rounds[|rounds| - 1].batch|
  }

  function Rounds(rounds: seq<Round>): (moves: seq<Move>)
    ensures |moves| == |rounds| && forall k :: 0 <= k < |moves| ==> moves[k] == Consume(rounds[k])
  {
    seq(|rounds|, k requires 0 <= k < |rounds| => Consume(rounds[k]))
  }

  /**
   * Without new publications, all deliveries of any run of rounds together fit in the attempts left at
   * its start, so the store drains.
   */
  lemma {:induction false} DeliveriesAreBounded(st: State, rounds: seq<Round>, maxRetries: int)
    requires WellFormed(st) && Legal(st, Rounds(rounds), maxRetries)
    ensures WellFormed(After(st, Rounds(rounds)))
    ensures TotalLeft(After(st, Rounds(rounds)).events, maxRetries) + TotalDeliveries(rounds)
            <= TotalLeft(st.events, maxRetries)
  {
    if rounds != [] {
      var front, r := rounds[..|rounds| - 1], rounds[|rounds| - 1];
      assert Rounds(rounds)[..|rounds| - 1] == Rounds(front);
      DeliveriesAreBounded(st, front, maxRetries);
      var before := After(st, Rounds(front));
      StaysWellFormed(before, r, maxRetries, |r.batch|);
      RoundSpends(before, r, maxRetries, |r.batch|);
    }
  }
}
