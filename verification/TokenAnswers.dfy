/** What each call of the token client comes to, from the entry and the breaker it finds and from IAM's answer. */
module TokenAnswers {
  import opened Wrappers
  import opened TokenBreaker
  import opened TokenEntry
  import opened TokenJournal
  import opened TokenSteps
  import opened TokenRuns

  // ---- one step ----

  // What a call sees of a state: itself, whether its lock is taken, the clock, its entry and breaker, the journal.
  datatype Sight = Sight(th: Thread, full: bool, clock: int, e: Entry, b: Breaker, j: Journal)

  ghost predicate Sees(st: State, id: nat, x: Sight) {
    && id in st.threads && st.threads[id] == x.th && (x.th.target in st.owner) == x.full && st.clock == x.clock
    && EntryAt(st, x.th.target) == x.e && BreakerAt(st, x.th.target.aud) == x.b && st.journal == x.j
  }

  function Next(c: Config, x: Sight, a: Action): Sight {
    match Move(c, x.th, x.e, x.b, x.full, x.clock, a)
    case None => x
    case Some(m) => Sight(m.thread, if m.lock == Take then true else if m.lock == Drop then false else x.full,
                          x.clock, m.entry, m.breaker, x.j + m.marks)
  }

  lemma StepsOn(c: Config, st: State, id: nat, x: Sight, a: Action)
    requires Sees(st, id, x)
    ensures Sees(Act(c, st, id, a), id, Next(c, x, a))
  {
    if MoveOf(c, st, id, a).Some? {
      MoveTakesOnce(c, x.th, x.e, x.b, x.full, x.clock, a);
    }
  }

  // ---- a call with nobody interfering ----

  /** The call has found the lock free. */
  ghost predicate Arrives(st: State, id: nat, call: Call) {
    && id in st.threads && st.threads[id].pc.Trying? && st.threads[id].worker.NoWorker?
    && st.threads[id].call == call && st.threads[id].target !in st.owner
  }

  function Locked(c: Config, st: State, id: nat): State { Act(c, st, id, TryLock) }

  function Checked(c: Config, st: State, id: nat): State { Act(c, Locked(c, st, id), id, Check) }

  /** From inside the lock to the decision. */
  function Decided(c: Config, inside: State, id: nat): State {
    Act(c, Act(c, inside, id, ReadClock), id, Choose)
  }

  function TokenDecided(c: Config, st: State, id: nat): State { Decided(c, Locked(c, st, id), id) }

  function RefreshDecided(c: Config, st: State, id: nat): State { Decided(c, Checked(c, st, id), id) }

  function Left(c: Config, st: State, id: nat): State { Act(c, st, id, Release) }

  /** The exchange that is under way ends, and the call collects its result. */
  function Answered(c: Config, st: State, id: nat, x: Exchange): State {
    Act(c, Act(c, Act(c, Act(c, st, id, Talk(x)), id, Send), id, Unlock), id, Collect)
  }

  // ---- what a call finds ----

  /** No token, or one whose renewal is due. */
  predicate MustRenew(e: Entry, now: int) { e.token == "" || now >= e.renewAt }

  /** IAM has rejected the entry for good, and the wait is not over. */
  predicate BackingOff(e: Entry, now: int) { e.lastErr.Some? && now < e.retryAt }

  predicate CircuitIsOpen(p: Policy, b: Breaker, now: int) { b.failures >= p.failureThreshold && now < b.openUntil }

  predicate Alive(e: Entry, now: int) { e.token != "" && now < e.expiresAt }

  /** The call is over with that reply, its lock is free, and it has left no mark but the given ones. */
  ghost predicate Replied(after: State, id: nat, r: Reply, j: Journal) {
    && id in after.threads && after.threads[id].pc == Returned(r) && after.journal == j
    && after.threads[id].target !in after.owner
  }

  /** An exchange is under way that started at `now`, and the lock is kept for it. */
  ghost predicate Launches(after: State, id: nat, t: Target, now: int, valid: bool, j: Journal) {
    && id in after.threads && after.threads[id].target == t && after.threads[id].pc.Awaiting?
    && after.threads[id].worker == Exchanging(now, valid)
    && t in after.owner && after.journal == j + [Launched(t, now)]
  }

  function SightOf(st: State, id: nat): Sight
    requires id in st.threads
  {
    var t := st.threads[id].target;
    Sight(st.threads[id], t in st.owner, st.clock, EntryAt(st, t), BreakerAt(st, t.aud), st.journal)
  }

  // Inside the lock, about to read the clock.
  ghost predicate Inside(x: Sight) {
    x.full && x.th.pc.Timing? && x.th.worker.NoWorker?
  }

  /** What the decision comes to: an exchange, or a reply from what is cached. */
  lemma DecisionSight(c: Config, x: Sight)
    requires Inside(x)
    ensures var y := Next(c, Next(c, x, ReadClock), Choose);
            var go := MustRenew(x.e, x.clock) && !BackingOff(x.e, x.clock) && !CircuitIsOpen(c.policy, x.b, x.clock);
            && y.th.target == x.th.target && y.th.call == x.th.call && y.e == x.e && y.b == x.b && y.full
            && y.clock == x.clock
            && (go ==> y.th.pc.Awaiting? && y.th.worker == Exchanging(x.clock, Alive(x.e, x.clock))
                       && y.j == x.j + [Launched(x.th.target, x.clock)])
            && (!go ==>
                  && y.j == x.j && y.th.worker.NoWorker?
                  && y.th.pc == Releasing(if !MustRenew(x.e, x.clock) || Alive(x.e, x.clock) then Got(x.e.token)
                                          else if BackingOff(x.e, x.clock) then Failed(x.e.lastErr.value)
                                          else Failed(CircuitOpen)))
  {}

  lemma LeavesWith(c: Config, st: State, id: nat, x: Sight, r: Reply)
    requires Sees(st, id, x) && x.full && x.th.pc == Releasing(r)
    ensures Replied(Left(c, st, id), id, Wrap(x.th.call, r), x.j)
    ensures EntryAt(Left(c, st, id), x.th.target) == x.e && BreakerAt(Left(c, st, id), x.th.target.aud) == x.b
  {
    StepsOn(c, st, id, x, Release);
    assert x.j + [] == x.j;
  }

  lemma DecidesFrom(c: Config, inside: State, id: nat, x: Sight)
    requires Sees(inside, id, x) && Inside(x)
    ensures Sees(Decided(c, inside, id), id, Next(c, Next(c, x, ReadClock), Choose))
  {
    StepsOn(c, inside, id, x, ReadClock);
    StepsOn(c, Act(c, inside, id, ReadClock), id, Next(c, x, ReadClock), Choose);
  }

  lemma LocksFirst(c: Config, st: State, id: nat, call: Call)
    requires Arrives(st, id, call)
    ensures var x, pc := SightOf(st, id), if call.TokenCall? then Timing else Checking;
            Sees(Locked(c, st, id), id, x.(full := true, th := x.th.(pc := pc)))
  {
    var x := SightOf(st, id);
    StepsOn(c, st, id, x, TryLock);
    assert x.j + [] == x.j;
  }

  /** What the caller is given when no exchange starts: the token while it may be served, or the reason. */
  function Served(e: Entry, now: int): Reply {
    if !MustRenew(e, now) || Alive(e, now) then Got(e.token)
    else if BackingOff(e, now) then Failed(e.lastErr.value)
    else Failed(CircuitOpen)
  }

  lemma DecidedAnswers(c: Config, inside: State, id: nat, x: Sight)
    requires Sees(inside, id, x) && Inside(x)
    ensures var after := Decided(c, inside, id);
            var go := MustRenew(x.e, x.clock) && !BackingOff(x.e, x.clock) && !CircuitIsOpen(c.policy, x.b, x.clock);
            && (Launches(after, id, x.th.target, x.clock, Alive(x.e, x.clock), x.j) <==> go)
            && (!go ==> Replied(Left(c, after, id), id, Wrap(x.th.call, Served(x.e, x.clock)), x.j))
  {
    DecidesFrom(c, inside, id, x);
    DecisionSight(c, x);
    var y := Next(c, Next(c, x, ReadClock), Choose);
    if y.th.pc.Releasing? { LeavesWith(c, Decided(c, inside, id), id, y, y.th.pc.reply); }
  }

  /**
   * A Token call that finds the lock free starts an exchange exactly when there is no token or its renewal is due,
   * no backoff is running and the circuit is not open; otherwise it leaves no trace but its reply.
   */
  lemma TokenStartsIff(c: Config, st: State, id: nat)
    requires Arrives(st, id, TokenCall)
    ensures var t, now := st.threads[id].target, st.clock;
            var e, b, after := EntryAt(st, t), BreakerAt(st, t.aud), TokenDecided(c, st, id);
            var go := MustRenew(e, now) && !BackingOff(e, now) && !CircuitIsOpen(c.policy, b, now);
            && (Launches(after, id, t, now, Alive(e, now), st.journal) <==> go)
            && (!go ==> Replied(Left(c, after, id), id, Served(e, now), st.journal))
  {
    var x := SightOf(st, id);
    LocksFirst(c, st, id, TokenCall);
    DecidedAnswers(c, Locked(c, st, id), id, x.(full := true, th := x.th.(pc := Timing)));
  }

  /** The token the receiver has not seen yet, when there is another one that is alive. */
  predicate HasAnother(e: Entry, sent: string, now: int) { Alive(e, now) && e.token != sent }

  /** The rejected token is the cached one and less than 30 s old. */
  predicate IsYoung(e: Entry, sent: string, now: int) { e.token == sent && now - e.issuedAt < 30 * S }

  const S: int := 1_000_000_000

  lemma ChecksNext(c: Config, st: State, id: nat, sent: string)
    requires Arrives(st, id, RefreshCall(sent)) && Reading(st.clock)
    ensures var x, t, now := SightOf(st, id), st.threads[id].target, st.clock;
            var y := x.(full := true, th := x.th.(pc := Checking));
            var z := Next(c, y, Check);
            && Sees(Checked(c, st, id), id, z) && z.th.target == t && z.th.call == RefreshCall(sent) && z.full
            && z.b == x.b && z.clock == now && z.th.worker.NoWorker?
            && (HasAnother(x.e, sent, now) ==> z.th.pc == Releasing(Got(x.e.token)) && z.j == x.j && z.e == x.e)
            && (!HasAnother(x.e, sent, now) && IsYoung(x.e, sent, now) ==>
                  z.th.pc == Releasing(NothingNew) && z.j == x.j && z.e == x.e)
            && (!HasAnother(x.e, sent, now) && !IsYoung(x.e, sent, now) ==>
                  z.th.pc.Timing? && z.j == x.j + [Pulled(t, now, sent)] && z.e == x.e.(renewAt := 0))
  {
    var x := SightOf(st, id);
    LocksFirst(c, st, id, RefreshCall(sent));
    var y := x.(full := true, th := x.th.(pc := Checking));
    StepsOn(c, Locked(c, st, id), id, y, Check);
    assert x.j + [] == x.j;
  }

  /**
   * A Refresh that finds the lock free hands out another live token if there is one and has nothing for a rejected
   * token less than 30 s old. Otherwise it brings the renewal forward, and starts an exchange unless the backoff or
   * the open circuit forbids it; the rejected token itself is never handed out.
   */
  lemma RefreshStartsIff(c: Config, st: State, id: nat, sent: string)
    requires Arrives(st, id, RefreshCall(sent)) && Reading(st.clock)
    ensures var t, now := st.threads[id].target, st.clock;
            var e, b := EntryAt(st, t), BreakerAt(st, t.aud);
            var checked, after := Checked(c, st, id), RefreshDecided(c, st, id);
            var pulled := st.journal + [Pulled(t, now, sent)];
            var go := !BackingOff(e, now) && !CircuitIsOpen(c.policy, b, now);
            if HasAnother(e, sent, now) then Replied(Left(c, checked, id), id, Got(e.token), st.journal)
            else if IsYoung(e, sent, now) then Replied(Left(c, checked, id), id, NothingNew, st.journal)
            else
              && (Launches(after, id, t, now, Alive(e, now), pulled) <==> go)
              && (!go ==> Replied(Left(c, after, id), id,
                                  if Alive(e, now) then NothingNew
                                  else if BackingOff(e, now) then Failed(e.lastErr.value) else Failed(CircuitOpen),
                                  pulled))
  {
    var t, now := st.threads[id].target, st.clock;
    var e := EntryAt(st, t);
    var x := SightOf(st, id);
    ChecksNext(c, st, id, sent);
    var z := Next(c, x.(full := true, th := x.th.(pc := Checking)), Check);
    if z.th.pc.Releasing? {
      LeavesWith(c, Checked(c, st, id), id, z, z.th.pc.reply);
    } else {
      DecidedAnswers(c, Checked(c, st, id), id, z);
    }
  }

  /** Invalidate drops the token and its times, and keeps the backoff and the breaker. */
  lemma InvalidateEmpties(c: Config, st: State, id: nat)
    requires Arrives(st, id, InvalidateCall)
    ensures var t, after := st.threads[id].target, Left(c, Checked(c, st, id), id);
            var e := EntryAt(st, t);
            && Replied(after, id, Emptied, st.journal + [Cleared(t)])
            && EntryAt(after, t) == Entry("", 0, 0, 0, e.lastErr, e.retryAt)
            && BreakerAt(after, t.aud) == BreakerAt(st, t.aud)
  {
    var x := SightOf(st, id);
    LocksFirst(c, st, id, InvalidateCall);
    var y := x.(full := true, th := x.th.(pc := Checking));
    StepsOn(c, Locked(c, st, id), id, y, Check);
    LeavesWith(c, Checked(c, st, id), id, Next(c, y, Check), Emptied);
  }

  // ---- what IAM's answer comes to ----

  /** A token with a lifetime. */
  predicate Grants(x: Exchange) {
    x.Response? && x.status == 200 && x.body.Some? && x.body.value.0 != "" && x.body.value.1 > 0
  }

  /** IAM is down or overloaded, or does not make sense. */
  predicate LooksDown(x: Exchange) {
    x.Unreachable? || (x.Response? && (x.status >= 500 || x.status == 429 || (x.status == 200 && !Grants(x))))
  }

  ghost predicate Running(st: State, id: nat, now: int, valid: bool) {
    && id in st.threads && st.threads[id].pc.Awaiting? && st.threads[id].worker == Exchanging(now, valid)
    && st.threads[id].target in st.owner
  }

  lemma TalkSight(c: Config, st: State, id: nat, now: int, valid: bool, x: Exchange)
    requires Running(st, id, now, valid)
    ensures var y := SightOf(st, id);
            Sees(Act(c, st, id, Talk(x)), id,
                 Sight(y.th.(worker := Stored(Answer(y.e, valid, Classify(x)))), true, y.clock,
                       Store(y.e, c.renewBefore, now, Classify(x)), Trip(c.policy, y.b, now, Classify(x)),
                       y.j + [Settled(y.th.target, now, Classify(x))]))
  {
    StepsOn(c, st, id, SightOf(st, id), Talk(x));
  }

  lemma HandsOver(c: Config, told: State, id: nat, y: Sight, r: Result<string, Error>)
    requires Sees(told, id, y) && y.th.pc.Awaiting? && y.th.worker == Stored(r) && y.full
    ensures Sees(Act(c, Act(c, told, id, Send), id, Unlock), id, y.(full := false, th := y.th.(worker := Gone(r))))
  {
    assert y.j + [] == y.j;
    StepsOn(c, told, id, y, Send);
    StepsOn(c, Act(c, told, id, Send), id, y.(th := y.th.(worker := Sent(r))), Unlock);
  }

  lemma Collects(c: Config, gone: State, id: nat, y: Sight, r: Result<string, Error>)
    requires Sees(gone, id, y) && y.th.pc.Awaiting? && y.th.worker == Gone(r)
    ensures Sees(Act(c, gone, id, Collect), id, y.(th := y.th.(pc := Returned(Wrap(y.th.call, Told(r))))))
  {
    assert y.j + [] == y.j;
    StepsOn(c, gone, id, y, Collect);
  }

  /** What the worker leaves, and what its call is told. */
  lemma AnsweredSight(c: Config, st: State, id: nat, now: int, valid: bool, x: Exchange)
    requires Running(st, id, now, valid)
    ensures var y := SightOf(st, id);
            var r := Answer(y.e, valid, Classify(x));
            Sees(Answered(c, st, id, x), id,
                 Sight(y.th.(worker := Gone(r), pc := Returned(Wrap(y.th.call, Told(r)))), false, y.clock,
                       Store(y.e, c.renewBefore, now, Classify(x)), Trip(c.policy, y.b, now, Classify(x)),
                       y.j + [Settled(y.th.target, now, Classify(x))]))
  {
    var y := SightOf(st, id);
    var r := Answer(y.e, valid, Classify(x));
    var z := Sight(y.th.(worker := Stored(r)), true, y.clock, Store(y.e, c.renewBefore, now, Classify(x)),
                   Trip(c.policy, y.b, now, Classify(x)), y.j + [Settled(y.th.target, now, Classify(x))]);
    TalkSight(c, st, id, now, valid, x);
    HandsOver(c, Act(c, st, id, Talk(x)), id, z, r);
    var w := z.(full := false, th := z.th.(worker := Gone(r)));
    Collects(c, Act(c, Act(c, Act(c, st, id, Talk(x)), id, Send), id, Unlock), id, w, r);
  }

  lemma OutcomeByAnswer(p: Policy, e: Entry, b: Breaker, renewBefore: int, now: int, valid: bool, x: Exchange)
    ensures var f, d := Store(e, renewBefore, now, Classify(x)), Trip(p, b, now, Classify(x));
            var r := Answer(e, valid, Classify(x));
            && (Grants(x) ==>
                  var end := now + Min(Wrap64(x.body.value.1 * S), 300 * S);
                  && f == Entry(x.body.value.0, now, end - renewBefore, end, None, 0) && d == Breaker(0, 0)
                  && r == Ok(x.body.value.0))
            && (LooksDown(x) ==>
                  && f == e && d.failures == b.failures + 1
                  && d.openUntil == if d.failures >= p.failureThreshold then now + p.openFor else b.openUntil)
            && (!Grants(x) && !LooksDown(x) ==>
                  && f == e.(lastErr := f.lastErr, retryAt := now + 5 * S) && f.lastErr.Some?
                  && f.lastErr.value.Rejected? && d == b)
            && (!Grants(x) ==> if valid then r == Ok(e.token) else r.Err? && r.error.Rejected?)
  {}

  /**
   * By what IAM answers: a token is cached from the start of its exchange on, for expires_in and at most 300 s, and
   * closes the circuit; a sign that IAM is down counts for the circuit and leaves the entry alone; any other refusal
   * starts a wait of 5 s and leaves the circuit alone. A refused call still gets the token that was alive at its start.
   */
  lemma ExchangeComesTo(c: Config, st: State, id: nat, now: int, valid: bool, x: Exchange)
    requires Running(st, id, now, valid)
    ensures var t, call, after := st.threads[id].target, st.threads[id].call, Answered(c, st, id, x);
            var e, b := EntryAt(st, t), BreakerAt(st, t.aud);
            var f, d := EntryAt(after, t), BreakerAt(after, t.aud);
            && id in after.threads && after.threads[id].pc.Returned? && t !in after.owner
            && (Grants(x) ==>
                  var end := now + Min(Wrap64(x.body.value.1 * S), 300 * S);
                  && f == Entry(x.body.value.0, now, end - c.renewBefore, end, None, 0) && d == Breaker(0, 0)
                  && after.threads[id].pc.reply == Wrap(call, Got(x.body.value.0)))
            && (LooksDown(x) ==>
                  && f == e && d.failures == b.failures + 1
                  && d.openUntil == if d.failures >= c.policy.failureThreshold then now + c.policy.openFor
                                    else b.openUntil)
            && (!Grants(x) && !LooksDown(x) ==>
                  && f == e.(lastErr := f.lastErr, retryAt := now + 5 * S) && f.lastErr.Some?
                  && f.lastErr.value.Rejected? && d == b)
            && (!Grants(x) ==>
                  if valid then after.threads[id].pc.reply == Wrap(call, Got(e.token))
                  else after.threads[id].pc.reply.Failed? && after.threads[id].pc.reply.error.Rejected?)
  {
    var y := SightOf(st, id);
    AnsweredSight(c, st, id, now, valid, x);
    OutcomeByAnswer(c.policy, y.e, y.b, c.renewBefore, now, valid, x);
  }

  /** A call gets its result as soon as that is sent, whether or not the lock is free again, and not before. */
  lemma ResultIsCollectedIff(c: Config, st: State, id: nat)
    requires id in st.threads && st.threads[id].pc.Awaiting?
    ensures var th, after := st.threads[id], Act(c, st, id, Collect);
            if th.worker.Sent? || th.worker.Gone?
            then after.threads == st.threads[id := th.(pc := Returned(Wrap(th.call, Told(th.worker.result))))]
                 && after.owner == st.owner && after.journal == st.journal
            else after == st
  {
    assert st.journal + [] == st.journal;
  }

  // ---- in the course of a run ----

  lemma {:induction false} EntryIsLastMark(c: Config, j: Journal, t: Target, i: nat)
    requires i < |j| && j[i].target == t && forall k :: i < k < |j| ==> j[k].target != t
    ensures EntryOf(c, j, t) == EntryAfter(c, EntryOf(c, j[..i], t), j[i])
    decreases |j|
  {
    if i < |j| - 1 {
      assert j[..|j| - 1][..i] == j[..i];
      EntryIsLastMark(c, j[..|j| - 1], t, i);
    }
  }

  /** The last thing that happened to the entry is that IAM issued that token for it. */
  ghost predicate LastIssued(j: Journal, t: Target, i: nat) {
    && i < |j| && j[i].Settled? && j[i].target == t && j[i].outcome.Issued?
    && forall k :: i < k < |j| ==> j[k].target != t
  }

  lemma IssuedEntry(c: Config, st: State, t: Target, i: nat)
    requires Reached(c, st) && c.renewBefore >= 0 && LastIssued(st.journal, t, i)
    ensures var m := st.journal[i];
            EntryAt(st, t) == Entry(m.outcome.token, m.now, m.now + m.outcome.ttl - c.renewBefore,
                                    m.now + m.outcome.ttl, None, 0)
            && m.outcome.token != "" && Reading(st.clock)
  {
    ReachedIsInv(c, st);
    JournalIsLawful(c, st);
    LawfulAt(c, st.journal, i);
    EntryIsLastMark(c, st.journal, t, i);
  }

  /** A cached token is renewed by the first call that comes when renewBefore or less is left of its life. */
  lemma CachedTokenIsRenewed(c: Config, st: State, id: nat, i: nat)
    requires Reached(c, st) && c.renewBefore >= 0 && Arrives(st, id, TokenCall)
    requires LastIssued(st.journal, st.threads[id].target, i)
    requires !CircuitIsOpen(c.policy, BreakerAt(st, st.threads[id].target.aud), st.clock)
    ensures var t, m, after := st.threads[id].target, st.journal[i], TokenDecided(c, st, id);
            && ((exists valid :: Launches(after, id, t, st.clock, valid, st.journal))
                <==> st.clock >= m.now + m.outcome.ttl - c.renewBefore)
            && (st.clock < m.now + m.outcome.ttl - c.renewBefore ==>
                  Replied(Left(c, after, id), id, Got(m.outcome.token), st.journal))
  {
    IssuedEntry(c, st, st.threads[id].target, i);
    TokenStartsIff(c, st, id);
  }

  /** A rejected token is renewed once it is 30 s old if it is the cached one; otherwise that one is handed out. */
  lemma RejectedTokenIsRenewed(c: Config, st: State, id: nat, i: nat, sent: string)
    requires Reached(c, st) && c.renewBefore >= 0 && Arrives(st, id, RefreshCall(sent))
    requires LastIssued(st.journal, st.threads[id].target, i)
    requires !CircuitIsOpen(c.policy, BreakerAt(st, st.threads[id].target.aud), st.clock)
    ensures var t, m, after := st.threads[id].target, st.journal[i], RefreshDecided(c, st, id);
            var pulled := st.journal + [Pulled(t, st.clock, sent)];
            && (sent == m.outcome.token && st.clock >= m.now + 30 * S ==>
                  exists valid :: Launches(after, id, t, st.clock, valid, pulled))
            && (sent == m.outcome.token && st.clock < m.now + 30 * S ==>
                  Replied(Left(c, Checked(c, st, id), id), id, NothingNew, st.journal))
            && (sent != m.outcome.token && st.clock < m.now + m.outcome.ttl ==>
                  Replied(Left(c, Checked(c, st, id), id), id, Got(m.outcome.token), st.journal))
  {
    IssuedEntry(c, st, st.threads[id].target, i);
    RefreshStartsIff(c, st, id, sent);
  }

  // ---- waiting ----

  /** A call that waits for its lock enters when the lock is free, as it would have at once. */
  lemma WaitingCallEnters(c: Config, st: State, id: nat)
    requires id in st.threads && st.threads[id].pc.Blocked?
    ensures var t, after := st.threads[id].target, Act(c, st, id, TakeLock);
            && (t in st.owner ==> after == st)
            && (t !in st.owner ==>
                  after == Act(c, st.(threads := st.threads[id := st.threads[id].(pc := Trying)]), id, TryLock)
                  && t in after.owner && after.owner[t] == id)
  {
    var t, th := st.threads[id].target, st.threads[id].(pc := Trying);
    var again := st.(threads := st.threads[id := th]);
    if t !in st.owner {
      assert again.threads[id := th.(pc := Entered(th.call))] == st.threads[id := th.(pc := Entered(th.call))];
    }
  }

  /** A call that waits for its lock or its exchange may leave exactly when it is cancelled, and disturbs nothing. */
  lemma WaitingCallLeavesIff(c: Config, st: State, id: nat)
    requires id in st.threads && (st.threads[id].pc.Blocked? || st.threads[id].pc.Awaiting?)
    ensures var th, t := st.threads[id], st.threads[id].target;
            var after := Act(c, st, id, if th.pc.Blocked? then GiveUpLock else GiveUpWait);
            if !th.cancelled then after == st
            else after.threads == st.threads[id := th.(pc := Returned(Failed(Canceled)))] && after.owner == st.owner
                 && after.journal == st.journal && EntryAt(after, t) == EntryAt(st, t)
                 && BreakerAt(after, t.aud) == BreakerAt(st, t.aud)
  {
    assert st.journal + [] == st.journal;
  }
}
