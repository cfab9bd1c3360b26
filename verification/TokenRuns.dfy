/** What holds in every state that any interleaving of token calls can reach. */
module TokenRuns {
  import opened TokenBreaker
  import opened TokenEntry
  import opened TokenJournal
  import opened TokenSteps

  ghost predicate Tame(s: Step) {
    s.Do? && s.action.Talk? ==> Modest(s.action.x)
  }

  ghost predicate AllTame(steps: seq<Step>) {
    forall s :: s in steps ==> Tame(s)
  }

  lemma InvAt(c: Config, st: State, id: nat)
    requires Inv(c, st) && id in st.threads
    ensures var th := st.threads[id];
            && Owns(st, id, th.target) == Holds(th)
            && TargetOk(c, st, th.target)
            && ThreadOk(c, st.journal, st.clock, th)
  {
    assert TargetOk(c, st, st.threads[id].target);
  }

  lemma {:induction false} LastErrorIsRejection(c: Config, j: Journal, t: Target)
    ensures EntryOf(c, j, t).lastErr.Some? ==> EntryOf(c, j, t).lastErr.value.Rejected?
  {
    if j != [] { LastErrorIsRejection(c, j[..|j| - 1], t); }
  }

  /** What others see of a mark: nothing, if it is about another target or they are outside. */
  lemma Undisturbed(c: Config, j: Journal, clock: int, m: Mark, th: Thread)
    requires ThreadOk(c, j, clock, th) && (Holds(th) ==> m.target != th.target)
    ensures ThreadOk(c, j + [m], clock, th)
  {
    Extend(c, j, m, th.target, th.target.aud);
    if th.pc.Releasing? || th.pc.Returned? { StillHonest(j, m, th, th.pc.reply); }
    if th.worker.Stored? || th.worker.Sent? || th.worker.Gone? { StillHonest(j, m, th, Told(th.worker.result)); }
  }

  function ViewOf(st: State, t: Target): View {
    View(st.journal, EntryAt(st, t), BreakerAt(st, t.aud), Open(st.journal, t), st.clock, t in st.owner)
  }

  ghost predicate MovedWell(c: Config, st: State, id: nat, m: Moved)
    requires id in st.threads
  {
    After(c, ViewOf(st, st.threads[id].target), st.threads[id], m)
  }

  lemma MoveKeeps(c: Config, st: State, id: nat, a: Action)
    requires Inv(c, st) && c.renewBefore >= 0 && id in st.threads && (a.Talk? ==> Modest(a.x))
    requires MoveOf(c, st, id, a).Some?
    ensures MovedWell(c, st, id, MoveOf(c, st, id, a).value)
  {
    var th := st.threads[id];
    InvAt(c, st, id);
    LastErrorIsRejection(c, st.journal, th.target);
    CachedTokenIsBacked(c, st.journal, th.target, Instant(th, st.clock));
    MoveIsSound(c, ViewOf(st, th.target), th, a);
  }

  /** An enabled action does what its move says, to its own call, entry and lock. */
  lemma MoveApplies(c: Config, st: State, id: nat, a: Action)
    requires id in st.threads && MoveOf(c, st, id, a).Some?
    ensures var after, t, m := Act(c, st, id, a), st.threads[id].target, MoveOf(c, st, id, a).value;
            && id in after.threads && after.threads[id] == m.thread && after.clock == st.clock
            && EntryAt(after, t) == m.entry && BreakerAt(after, t.aud) == m.breaker
            && (t in after.owner <==> m.lock == Take || (m.lock == Same && t in st.owner))
  {}

  // A committed move, as seen from another call and from any target.
  ghost predicate Committed(c: Config, st: State, id: nat, m: Moved) {
    && id in st.threads
    && Owns(st, id, st.threads[id].target) == Holds(st.threads[id])
    && TargetOk(c, st, st.threads[id].target)
    && MovedWell(c, st, id, m)
  }

  lemma CommitKeepsThread(c: Config, st: State, id: nat, m: Moved, other: nat)
    requires Committed(c, st, id, m) && other in st.threads && other != id
    requires ThreadOk(c, st.journal, st.clock, st.threads[other])
    requires Owns(st, other, st.threads[other].target) == Holds(st.threads[other])
    ensures ThreadOk(c, st.journal + m.marks, st.clock, st.threads[other])
    ensures Owns(Commit(st, id, st.threads[id].target, m), other, st.threads[other].target) == Holds(st.threads[other])
  {
    if m.marks == [] {
      assert st.journal + m.marks == st.journal;
    } else {
      assert m.marks == [m.marks[0]];
      Undisturbed(c, st.journal, st.clock, m.marks[0], st.threads[other]);
    }
  }

  lemma CommitKeepsTarget(c: Config, st: State, id: nat, m: Moved, t: Target)
    requires Committed(c, st, id, m) && TargetOk(c, st, t)
    ensures TargetOk(c, Commit(st, id, st.threads[id].target, m), t)
  {
    if m.marks == [] {
      assert st.journal + m.marks == st.journal;
    } else {
      assert m.marks == [m.marks[0]];
      Extend(c, st.journal, m.marks[0], t, t.aud);
    }
  }

  lemma CommitKeepsLocks(c: Config, st: State, id: nat, m: Moved)
    requires Committed(c, st, id, m) && LocksOk(st)
    ensures LocksOk(Commit(st, id, st.threads[id].target, m))
  {
    var after := Commit(st, id, st.threads[id].target, m);
    forall other | other in after.threads
      ensures Owns(after, other, after.threads[other].target) == Holds(after.threads[other])
    {
      assert other in st.threads;
      assert Owns(st, other, st.threads[other].target) == Holds(st.threads[other]);
    }
  }

  lemma CommitKeepsJournal(c: Config, st: State, id: nat, m: Moved)
    requires Committed(c, st, id, m) && Lawful(c, st.journal)
    ensures Lawful(c, st.journal + m.marks) && ThreadOk(c, st.journal + m.marks, st.clock, m.thread)
  {
    var t := st.threads[id].target;
    if m.marks == [] {
      assert st.journal + m.marks == st.journal;
    } else {
      Extend(c, st.journal, m.marks[0], t, t.aud);
    }
  }

  lemma CommitKeeps(c: Config, st: State, id: nat, m: Moved)
    requires Inv(c, st) && Committed(c, st, id, m)
    ensures Inv(c, Commit(st, id, st.threads[id].target, m))
  {
    var after := Commit(st, id, st.threads[id].target, m);
    CommitKeepsLocks(c, st, id, m);
    CommitKeepsJournal(c, st, id, m);
    forall other | other in after.threads
      ensures ThreadOk(c, after.journal, after.clock, after.threads[other])
    {
      if other != id {
        InvAt(c, st, other);
        CommitKeepsThread(c, st, id, m, other);
      }
    }
    forall t: Target
      ensures TargetOk(c, after, t)
    {
      CommitKeepsTarget(c, st, id, m, t);
    }
  }

  // Time passes and calls begin without touching any entry.
  ghost predicate Untouched(st: State, after: State) {
    && after.owner == st.owner && after.entries == st.entries && after.breakers == st.breakers
    && after.journal == st.journal && after.clock >= st.clock
  }

  lemma UntouchedTargets(c: Config, st: State, after: State)
    requires Untouched(st, after) && forall t: Target :: TargetOk(c, st, t)
    ensures forall t: Target :: TargetOk(c, after, t)
  {
    forall t: Target
      ensures TargetOk(c, after, t)
    {
      assert TargetOk(c, st, t);
    }
  }

  lemma TickKeeps(c: Config, st: State, to: int)
    requires Inv(c, st)
    ensures Inv(c, Later(st, to))
  {
    var after := Later(st, to);
    UntouchedTargets(c, st, after);
    forall id | id in after.threads
      ensures ThreadOk(c, after.journal, after.clock, after.threads[id])
      ensures Owns(after, id, after.threads[id].target) == Holds(after.threads[id])
    {
      InvAt(c, st, id);
    }
  }

  lemma EnterKeepsLocks(st: State, id: nat, target: Target, call: Call)
    requires LocksOk(st)
    ensures LocksOk(Enter(st, id, target, call))
  {
    var after := Enter(st, id, target, call);
    forall k | k in after.threads
      ensures Owns(after, k, after.threads[k].target) == Holds(after.threads[k])
    {
      if k in st.threads { assert Owns(st, k, st.threads[k].target) == Holds(st.threads[k]); }
    }
  }

  lemma EnterKeeps(c: Config, st: State, id: nat, target: Target, call: Call)
    requires Inv(c, st)
    ensures Inv(c, Enter(st, id, target, call))
  {
    EnterKeepsLocks(st, id, target, call);
    UntouchedTargets(c, st, Enter(st, id, target, call));
  }

  lemma StepKeeps(c: Config, st: State, s: Step)
    requires Inv(c, st) && c.renewBefore >= 0 && Tame(s)
    ensures Inv(c, Apply(c, st, s))
  {
    match s
    case Tick(to) => TickKeeps(c, st, to);
    case Begin(id, target, call) => EnterKeeps(c, st, id, target, call);
    case Do(id, a) =>
      if id in st.threads && MoveOf(c, st, id, a).Some? {
        MoveKeeps(c, st, id, a);
        InvAt(c, st, id);
        CommitKeeps(c, st, id, MoveOf(c, st, id, a).value);
      }
  }

  lemma {:induction false} RunKeeps(c: Config, st: State, steps: seq<Step>)
    requires Inv(c, st) && c.renewBefore >= 0 && AllTame(steps)
    ensures Inv(c, Run(c, st, steps))
  {
    if steps != [] {
      RunKeeps(c, st, steps[..|steps| - 1]);
      StepKeeps(c, Run(c, st, steps[..|steps| - 1]), steps[|steps| - 1]);
    }
  }

  /** st can be reached from an empty client whose clock read at least 30 s past the zero time. */
  ghost predicate Reached(c: Config, st: State) {
    exists clock: int, steps :: Reading(clock) && AllTame(steps) && st == Run(c, Start(clock), steps)
  }

  lemma ReachedIsInv(c: Config, st: State)
    requires Reached(c, st) && c.renewBefore >= 0
    ensures Inv(c, st)
  {
    var clock: int, steps :| Reading(clock) && AllTame(steps) && st == Run(c, Start(clock), steps);
    RunKeeps(c, Start(clock), steps);
  }

  /** An entry's lock is taken exactly when a call, or the worker it handed it to, is inside, and then only one. */
  lemma SingleFlight(c: Config, st: State, t: Target)
    requires Reached(c, st) && c.renewBefore >= 0
    ensures t in st.owner <==> exists id :: id in st.threads && st.threads[id].target == t && Holds(st.threads[id])
    ensures forall i, k :: i in st.threads && k in st.threads && i != k && st.threads[i].target == st.threads[k].target
              ==> !(Holds(st.threads[i]) && Holds(st.threads[k]))
  {
    ReachedIsInv(c, st);
    if t in st.owner {
      var id := st.owner[t];
      assert Owns(st, id, t) && st.threads[id].target == t;
    }
    forall i, k | i in st.threads && k in st.threads && i != k && st.threads[i].target == st.threads[k].target
      ensures !(Holds(st.threads[i]) && Holds(st.threads[k]))
    {
      assert Owns(st, i, st.threads[i].target) == Holds(st.threads[i]);
      assert Owns(st, k, st.threads[k].target) == Holds(st.threads[k]);
    }
  }

  /** Whoever releases a lock finds its own token in the channel, so a release never blocks. */
  lemma ReleaseNeverBlocks(c: Config, st: State, id: nat)
    requires Reached(c, st) && c.renewBefore >= 0 && id in st.threads
    ensures st.threads[id].pc.Releasing? ==> Owns(st, id, st.threads[id].target) && MoveOf(c, st, id, Release).Some?
    ensures st.threads[id].worker.Sent? ==> Owns(st, id, st.threads[id].target) && MoveOf(c, st, id, Unlock).Some?
  {
    ReachedIsInv(c, st);
    assert Owns(st, id, st.threads[id].target) == Holds(st.threads[id]);
  }

  ghost predicate Finished(th: Thread) {
    th.pc.Returned? && (th.worker.NoWorker? || th.worker.Gone?)
  }

  /** When every call has returned and every worker is gone, no lock is left taken. */
  lemma QuietMeansUnlocked(c: Config, st: State)
    requires Reached(c, st) && c.renewBefore >= 0
    requires forall id :: id in st.threads ==> Finished(st.threads[id])
    ensures st.owner == map[]
  {
    ReachedIsInv(c, st);
    assert forall t :: t in st.owner ==> Owns(st, st.owner[t], t) && Holds(st.threads[st.owner[t]]);
    assert forall id :: id in st.threads ==> Finished(st.threads[id]) && !Holds(st.threads[id]);
  }

  /**
   * An entry changes only in a step of the call that owns its lock, and its token only when IAM issued another
   * or an Invalidate dropped it: a failed or fruitless Refresh leaves the token in place.
   */
  lemma OnlyTheOwnerWrites(c: Config, st: State, s: Step, t: Target)
    requires Reached(c, st) && c.renewBefore >= 0
    requires EntryAt(Apply(c, st, s), t) != EntryAt(st, t)
    ensures s.Do? && Owns(st, s.id, t) && st.threads[s.id].target == t
    ensures var was, now := EntryAt(st, t), EntryAt(Apply(c, st, s), t);
            now.token != was.token || now.expiresAt != was.expiresAt ==>
              || (s.action.Talk? && Classify(s.action.x).Issued? && now.token == Classify(s.action.x).token)
              || (s.action.Check? && st.threads[s.id].call.InvalidateCall? && now.token == "")
  {
    ReachedIsInv(c, st);
    if s.Do? && s.id in st.threads && MoveOf(c, st, s.id, s.action).Some? {
      var th := st.threads[s.id];
      InvAt(c, st, s.id);
      var full := th.target in st.owner;
      MoveWrites(c, th, EntryAt(st, th.target), BreakerAt(st, th.target.aud), full, st.clock, s.action);
    }
  }

  /**
   * A call that returned a token returned one issued for its audience and scope and alive at its clock reading,
   * and a Refresh one that differs from the rejected token. A call that failed was cancelled, or found no
   * unexpired token cached.
   */
  lemma RepliesAreHonest(c: Config, st: State, id: nat)
    requires Reached(c, st) && c.renewBefore >= 0 && id in st.threads && st.threads[id].pc.Returned?
    ensures var th := st.threads[id];
            match th.pc.reply
            case Got(token) =>
              Backed(st.journal, th.target, token, th.at) && (th.call.RefreshCall? ==> token != th.call.sent)
            case Failed(e) => if e == Canceled then th.cancelled else !th.valid
            case _ => true
  {
    ReachedIsInv(c, st);
    assert ThreadOk(c, st.journal, st.clock, st.threads[id]);
  }

  /** Every theorem about lawful journals speaks about every run. */
  lemma JournalIsLawful(c: Config, st: State)
    requires Reached(c, st) && c.renewBefore >= 0
    ensures Lawful(c, st.journal)
    ensures forall t: Target :: EntryAt(st, t) == EntryOf(c, st.journal, t)
    ensures forall aud: string :: BreakerAt(st, aud) == BreakerOf(c, st.journal, aud)
  {
    ReachedIsInv(c, st);
    forall t: Target
      ensures EntryAt(st, t) == EntryOf(c, st.journal, t) && BreakerAt(st, t.aud) == BreakerOf(c, st.journal, t.aud)
    {
      assert TargetOk(c, st, t);
    }
    forall aud: string
      ensures BreakerAt(st, aud) == BreakerOf(c, st.journal, aud)
    {
      assert TargetOk(c, st, Target(aud, ""));
    }
  }

  // ---- acquire and release ----

  function LockUseOf(c: Config, st: State, s: Step, id: nat): LockUse {
    if s.Do? && s.id == id && id in st.threads && MoveOf(c, st, id, s.action).Some?
    then MoveOf(c, st, id, s.action).value.lock else Same
  }

  /** How often a call took, or gave back, a lock in the course of a run. */
  function Uses(c: Config, st: State, steps: seq<Step>, id: nat, use: LockUse): nat {
    if steps == [] then 0
    else
      var front := steps[..|steps| - 1];
      Uses(c, st, front, id, use) + if LockUseOf(c, Run(c, st, front), steps[|steps| - 1], id) == use then 1 else 0
  }

  // What the uses of a lock so far say about where its call stands.
  ghost predicate Balanced(st: State, id: nat, taken: nat, dropped: nat) {
    && taken <= 1
    && taken == dropped + (if id in st.threads && Holds(st.threads[id]) then 1 else 0)
    && (taken == 0 || (id in st.threads && !Outside(st.threads[id])))
  }

  lemma MoveBalances(c: Config, st: State, id: nat, a: Action, taken: nat, dropped: nat)
    requires id in st.threads && MoveOf(c, st, id, a).Some? && Balanced(st, id, taken, dropped)
    requires MovedWell(c, st, id, MoveOf(c, st, id, a).value)
    ensures var use := MoveOf(c, st, id, a).value.lock;
            Balanced(Act(c, st, id, a), id,
                     taken + if use == Take then 1 else 0, dropped + if use == Drop then 1 else 0)
  {
    var th := st.threads[id];
    MoveApplies(c, st, id, a);
    MoveTakesOnce(c, th, EntryAt(st, th.target), BreakerAt(st, th.target.aud), th.target in st.owner, st.clock, a);
  }

  lemma StepBalances(c: Config, st: State, s: Step, id: nat, taken: nat, dropped: nat)
    requires Inv(c, st) && c.renewBefore >= 0 && Tame(s) && Balanced(st, id, taken, dropped)
    ensures var use := LockUseOf(c, st, s, id);
            Balanced(Apply(c, st, s), id, taken + if use == Take then 1 else 0, dropped + if use == Drop then 1 else 0)
  {
    if s.Do? && s.id == id && id in st.threads && MoveOf(c, st, id, s.action).Some? {
      MoveKeeps(c, st, id, s.action);
      MoveBalances(c, st, id, s.action, taken, dropped);
    }
  }

  /** A call takes its lock at most once, and every lock taken is given back once: by the call or by its worker. */
  lemma {:induction false} OneReleasePerAcquire(c: Config, clock: int, steps: seq<Step>, id: nat)
    requires Reading(clock) && AllTame(steps) && c.renewBefore >= 0
    ensures var taken, dropped := Uses(c, Start(clock), steps, id, Take), Uses(c, Start(clock), steps, id, Drop);
            Balanced(Run(c, Start(clock), steps), id, taken, dropped)
  {
    if steps != [] {
      var front := steps[..|steps| - 1];
      OneReleasePerAcquire(c, clock, front, id);
      RunKeeps(c, Start(clock), front);
      StepBalances(c, Run(c, Start(clock), front), steps[|steps| - 1], id,
                   Uses(c, Start(clock), front, id, Take), Uses(c, Start(clock), front, id, Drop));
    }
  }

  // ---- progress ----

  /** The next thing the owner of a lock does; a worker's exchange ends, if need be by its timeout. */
  function NextAction(th: Thread): Action {
    if th.worker.Exchanging? then Talk(Unreachable)
    else if th.worker.Stored? then Send
    else if th.worker.Sent? then Unlock
    else if th.pc.Checking? then Check
    else if th.pc.Timing? then ReadClock
    else if th.pc.Deciding? then Choose
    else Release
  }

  function Distance(th: Thread): nat {
    if th.worker.Exchanging? then 3
    else if th.worker.Stored? then 2
    else if th.worker.Sent? then 1
    else if th.pc.Checking? then 6
    else if th.pc.Timing? then 5
    else if th.pc.Deciding? then 4
    else 1
  }

  lemma NextIsEnabled(c: Config, th: Thread, e: Entry, b: Breaker, clock: int)
    requires Holds(th) && (th.pc.Checking? ==> !th.call.TokenCall?)
    ensures var m := Move(c, th, e, b, true, clock, NextAction(th));
            m.Some? && (m.value.lock == Drop || (m.value.lock == Same && Distance(m.value.thread) < Distance(th)))
  {}

  lemma OwnerAdvances(c: Config, st: State, t: Target)
    requires Inv(c, st) && c.renewBefore >= 0 && t in st.owner
    ensures var id := st.owner[t];
            var after := Act(c, st, id, NextAction(st.threads[id]));
            && Inv(c, after)
            && (t in after.owner ==>
                  after.owner[t] == id && id in after.threads && Distance(after.threads[id]) < Distance(st.threads[id]))
  {
    var id := st.owner[t];
    var th := st.threads[id];
    assert Owns(st, id, t);
    InvAt(c, st, id);
    NextIsEnabled(c, th, EntryAt(st, t), BreakerAt(st, t.aud), st.clock);
    StepKeeps(c, st, Do(id, NextAction(th)));
  }

  /** At most n steps of one call alone free the lock. */
  ghost predicate FreedWithin(c: Config, st: State, t: Target, id: nat, n: nat)
    decreases n
  {
    t in st.owner ==> n > 0 && exists a :: FreedWithin(c, Act(c, st, id, a), t, id, n - 1)
  }

  /** No lock is held for good: at most six steps of its owner alone free it. */
  lemma {:induction false} OwnerFreesLock(c: Config, st: State, t: Target, id: nat, n: nat)
    requires Inv(c, st) && c.renewBefore >= 0 && Owns(st, id, t)
    requires id in st.threads && Distance(st.threads[id]) <= n
    ensures FreedWithin(c, st, t, id, n)
    decreases n
  {
    var a := NextAction(st.threads[id]);
    var after := Act(c, st, id, a);
    OwnerAdvances(c, st, t);
    if t in after.owner { OwnerFreesLock(c, after, t, id, n - 1); }
    assert FreedWithin(c, after, t, id, n - 1);
  }

  // A call inside its critical section, with the clock, the entry and the breaker it will decide on.
  ghost predicate Inside(st: State, id: nat, pc: Pc, clock: int, e: Entry, b: Breaker) {
    && id in st.threads && st.threads[id].pc == pc && st.threads[id].call.TokenCall?
    && st.threads[id].target in st.owner && st.clock == clock
    && EntryAt(st, st.threads[id].target) == e && BreakerAt(st, st.threads[id].target.aud) == b
  }

  lemma LockAndRead(c: Config, st: State, id: nat)
    requires id in st.threads && st.threads[id].pc.Trying? && st.threads[id].call.TokenCall?
    requires st.threads[id].target !in st.owner
    ensures var t := st.threads[id].target;
            Inside(Act(c, Act(c, st, id, TryLock), id, ReadClock), id, Deciding(st.clock), st.clock,
                   EntryAt(st, t), BreakerAt(st, t.aud))
  {
    MoveApplies(c, st, id, TryLock);
    MoveApplies(c, Act(c, st, id, TryLock), id, ReadClock);
  }

  lemma ServeAndRelease(c: Config, st: State, id: nat, now: int, e: Entry, b: Breaker)
    requires Inside(st, id, Deciding(now), now, e, b) && Decide(c.policy, e, b, now).Serve?
    ensures var after := Act(c, Act(c, st, id, Choose), id, Release);
            id in after.threads && after.threads[id].pc == Returned(Got(Decide(c.policy, e, b, now).token))
  {
    MoveApplies(c, st, id, Choose);
    MoveApplies(c, Act(c, st, id, Choose), id, Release);
  }

  /**
   * A call that finds the lock free gets the cached token, even when already cancelled, unless it would start an
   * exchange: inside the renewal window, during the backoff and while the circuit is open.
   */
  lemma CancelledCallIsStillServed(c: Config, st: State, id: nat)
    requires id in st.threads && st.threads[id].pc.Trying? && st.threads[id].call.TokenCall?
    requires st.threads[id].target !in st.owner
    ensures var e, b := EntryAt(st, st.threads[id].target), BreakerAt(st, st.threads[id].target.aud);
            var after := Act(c, Act(c, Act(c, Act(c, st, id, TryLock), id, ReadClock), id, Choose), id, Release);
            Valid(e, st.clock) && (st.clock < e.renewAt || (e.lastErr.Some? && st.clock < e.retryAt)
                                   || !Allows(c.policy, b, st.clock)) ==>
              id in after.threads && after.threads[id].pc == Returned(Got(e.token))
  {
    var e, b := EntryAt(st, st.threads[id].target), BreakerAt(st, st.threads[id].target.aud);
    LockAndRead(c, st, id);
    var timed := Act(c, Act(c, st, id, TryLock), id, ReadClock);
    if Decide(c.policy, e, b, st.clock).Serve? { ServeAndRelease(c, timed, id, st.clock, e, b); }
  }
}
