/**
 * One event that always fails, delivered to any number of consumers at once: a lease that runs out while a
 * consumer is at work lets another one take the event, and both then report on it.
 */
module EventOverlap {
  import opened Wrappers
  import opened EventStore
  import EventRetry

  // What happens: a poll, the failure of the k-th delivery not reported on yet, or an operation on another event.
  datatype Act =
    | Take(eventType: string, ids: set<string>, at: int)
    | Fail(k: nat, error: Option<string>, at: int, delay: int)
    | Elsewhere(op: Op)

  // The store, the attempt counts that came with the deliveries not reported on yet, and how many there were in all.
  datatype Floor = Floor(st: State, open: seq<int>, taken: nat)

  predicate About(op: Op, id: string) {
    match op
    case SaveOp(e, _) => e.id == id
    case PollOp(_, ids, _) => id in ids
    case AckOp(i) => i == id
    case FailOp(i, _, _, _, _, _) => i == id
    case BuryOp(e, _, _) => e.id == id
  }

  /** A consumer reports one attempt more than it was given. */
  function OpOf(f: Floor, act: Act, id: string, maxRetries: int): Op
    requires act.Fail? ==> act.k < |f.open|
  {
    match act
    case Take(eventType, ids, at) => PollOp(eventType, ids, at)
    case Fail(k, error, at, delay) => FailOp(id, f.open[k] + 1, error, maxRetries, at, delay)
    case Elsewhere(op) => op
  }

  ghost predicate Legal(f: Floor, act: Act, id: string, maxRetries: int) {
    && (act.Fail? ==> act.k < |f.open|) && (act.Elsewhere? ==> !About(act.op, id))
    && Possible(f.st, OpOf(f, act, id, maxRetries))
  }

  function Without(s: seq<int>, k: nat): (r: seq<int>)
    requires k < |s|
    ensures |r| == |s| - 1 && forall c :: c in r ==> c in s
  {
    s[..k] + s[k + 1..]
  }

  ghost function Next(f: Floor, act: Act, id: string, maxRetries: int): Floor
    requires Legal(f, act, id, maxRetries)
  {
    var st := Apply(f.st, OpOf(f, act, id, maxRetries));
    if act.Fail? then Floor(st, Without(f.open, act.k), f.taken)
    else if act.Take? && id in act.ids then Floor(st, f.open + [f.st.events[id].event.attempt], f.taken + 1)
    else Floor(st, f.open, f.taken)
  }

  /** g comes of f by some acts, with never more than cap deliveries open. */
  ghost predicate Leads(f: Floor, acts: seq<Act>, g: Floor, id: string, maxRetries: int, cap: nat)
    decreases |acts|
  {
    if acts == [] then g == f
    else
      && Legal(f, acts[0], id, maxRetries)
      && |Next(f, acts[0], id, maxRetries).open| <= cap
      && Leads(Next(f, acts[0], id, maxRetries), acts[1..], g, id, maxRetries, cap)
  }

  ghost predicate Reached(f: Floor, g: Floor, id: string, maxRetries: int, cap: nat) {
    exists acts :: Leads(f, acts, g, id, maxRetries, cap)
  }

  /** The event as it was saved: pending with that attempt count, and not delivered yet. */
  ghost predicate Fresh(f: Floor, id: string, attempt: int) {
    && WellFormed(f.st) && f.open == [] && f.taken == 0
    && id in f.st.events && f.st.events[id].event.attempt == attempt && f.st.events[id].event.dlqAt.None?
  }

  function Tries(attempt: int, maxRetries: int): int { Max(1, maxRetries - attempt) }

  // ---- what a step does to the event ----

  function CountOf(st: State, id: string): Option<int> {
    if id in st.events then Some(st.events[id].event.attempt) else None
  }

  predicate Takes(act: Act, id: string) {
    act.Take? && id in act.ids
  }

  lemma ElsewhereKeeps(st: State, op: Op, id: string)
    requires WellFormed(st) && !About(op, id)
    ensures CountOf(Apply(st, op), id) == CountOf(st, id)
  {}

  lemma FailCounts(st: State, op: Op)
    requires WellFormed(st) && op.FailOp?
    ensures CountOf(Apply(st, op), op.id)
            == if op.id !in st.events || op.attempt >= op.maxAttempts then None else Some(op.attempt)
  {}

  lemma StepCounts(f: Floor, act: Act, id: string, maxRetries: int)
    requires WellFormed(f.st) && Legal(f, act, id, maxRetries)
    ensures var g := Next(f, act, id, maxRetries);
            && WellFormed(g.st)
            && (!act.Fail? ==> CountOf(g.st, id) == CountOf(f.st, id))
            && (Takes(act, id) ==> CountOf(f.st, id).Some?)
            && g.open == (if act.Fail? then Without(f.open, act.k)
                          else if Takes(act, id) then f.open + [CountOf(f.st, id).value] else f.open)
            && g.taken == (if Takes(act, id) then f.taken + 1 else f.taken)
    ensures act.Fail? ==>
              CountOf(Next(f, act, id, maxRetries).st, id)
              == if CountOf(f.st, id).None? || f.open[act.k] + 1 >= maxRetries then None else Some(f.open[act.k] + 1)
  {
    var op := OpOf(f, act, id, maxRetries);
    OpKeepsWellFormed(f.st, op);
    if act.Elsewhere? {
      ElsewhereKeeps(f.st, op, id);
    } else if act.Fail? {
      FailCounts(f.st, op);
    }
  }

  // ---- one delivery at a time ----

  /** Every report counts, and the one open delivery knows the current count. */
  ghost predicate InTurn(f: Floor, id: string, attempt: int, maxRetries: int) {
    && WellFormed(f.st) && |f.open| <= 1 && f.taken <= Tries(attempt, maxRetries)
    && (CountOf(f.st, id).Some? ==>
          && f.taken - |f.open| < Tries(attempt, maxRetries)
          && CountOf(f.st, id).value == attempt + f.taken - |f.open|
          && forall c :: c in f.open ==> c == CountOf(f.st, id).value)
  }

  lemma StepInTurn(f: Floor, act: Act, id: string, attempt: int, maxRetries: int)
    requires InTurn(f, id, attempt, maxRetries) && Legal(f, act, id, maxRetries)
    requires |Next(f, act, id, maxRetries).open| <= 1
    ensures InTurn(Next(f, act, id, maxRetries), id, attempt, maxRetries)
    ensures var g := Next(f, act, id, maxRetries);
            CountOf(f.st, id).Some? && CountOf(g.st, id).Some? ==> CountOf(f.st, id).value <= CountOf(g.st, id).value
  {
    StepCounts(f, act, id, maxRetries);
    if act.Fail? { assert f.open[act.k] in f.open; }
  }

  lemma {:induction false} StayInTurn(f: Floor, acts: seq<Act>, g: Floor, id: string, attempt: int,
                                      maxRetries: int, cap: nat)
    requires InTurn(f, id, attempt, maxRetries) && Leads(f, acts, g, id, maxRetries, cap) && cap <= 1
    ensures InTurn(g, id, attempt, maxRetries)
    decreases |acts|
  {
    if acts != [] {
      StepInTurn(f, acts[0], id, attempt, maxRetries);
      StayInTurn(Next(f, acts[0], id, maxRetries), acts[1..], g, id, attempt, maxRetries, cap);
    }
  }

  // ---- runs with two at a time ----

  lemma {:induction false} OneMore(f: Floor, acts: seq<Act>, g: Floor, act: Act, id: string, maxRetries: int, cap: nat)
    requires Leads(f, acts, g, id, maxRetries, cap) && Legal(g, act, id, maxRetries)
    requires |Next(g, act, id, maxRetries).open| <= cap
    ensures Leads(f, acts + [act], Next(g, act, id, maxRetries), id, maxRetries, cap)
    decreases |acts|
  {
    if acts == [] {
      assert acts + [act] == [act] && [act][1..] == [];
    } else {
      assert (acts + [act])[1..] == acts[1..] + [act];
      OneMore(Next(f, acts[0], id, maxRetries), acts[1..], g, act, id, maxRetries, cap);
    }
  }

  // A floor with the event pending, its count, and the deliveries open and in all.
  ghost predicate Shows(g: Floor, id: string, count: int, open: seq<int>, taken: nat) {
    && WellFormed(g.st) && g.open == open && g.taken == taken
    && id in g.st.events && g.st.events[id].event.attempt == count && g.st.events[id].event.dlqAt.None?
  }

  lemma SomeoneTakes(f: Floor, acts: seq<Act>, g: Floor, id: string, maxRetries: int, cap: nat,
                     count: int, open: seq<int>, taken: nat) returns (more: seq<Act>, h: Floor)
    requires Leads(f, acts, g, id, maxRetries, cap) && Shows(g, id, count, open, taken) && |open| < cap
    ensures Leads(f, more, h, id, maxRetries, cap) && Shows(h, id, count, open + [count], taken + 1)
  {
    var act := Take(g.st.events[id].event.eventType, {id}, g.st.events[id].visibleAt);
    more, h := acts + [act], Next(g, act, id, maxRetries);
    StepCounts(g, act, id, maxRetries);
    OneMore(f, acts, g, act, id, maxRetries, cap);
  }

  function Report(k: nat, attempt: int): Act {
    Fail(k, Some("failed"), 0, EventRetry.Base(EventRetry.DEFAULT_POLICY, attempt))
  }

  lemma ReportIsLegal(g: Floor, id: string, maxRetries: int, k: nat)
    requires k < |g.open|
    ensures Legal(g, Report(k, g.open[k] + 1), id, maxRetries)
  {
    EventRetry.DefaultBase(g.open[k] + 1);
  }

  lemma SomeoneFails(f: Floor, acts: seq<Act>, g: Floor, id: string, maxRetries: int, cap: nat,
                     count: int, open: seq<int>, taken: nat, k: nat) returns (more: seq<Act>, h: Floor)
    requires Leads(f, acts, g, id, maxRetries, cap) && Shows(g, id, count, open, taken)
    requires |open| <= cap && k < |open| && open[k] + 1 < maxRetries
    ensures Leads(f, more, h, id, maxRetries, cap) && Shows(h, id, open[k] + 1, Without(open, k), taken)
  {
    var act := Report(k, open[k] + 1);
    ReportIsLegal(g, id, maxRetries, k);
    more, h := acts + [act], Next(g, act, id, maxRetries);
    StepCounts(g, act, id, maxRetries);
    OneMore(f, acts, g, act, id, maxRetries, cap);
  }

  /** The event fails n times, one delivery after another. */
  lemma {:induction false} FailsInTurn(f: Floor, id: string, attempt: int, maxRetries: int, cap: nat, n: nat)
    returns (acts: seq<Act>, g: Floor)
    requires Fresh(f, id, attempt) && cap >= 1 && (n == 0 || attempt + n < maxRetries)
    ensures Leads(f, acts, g, id, maxRetries, cap) && Shows(g, id, attempt + n, [], n)
  {
    acts, g := [], f;
    if n > 0 {
      var count := attempt + n - 1;
      acts, g := FailsInTurn(f, id, attempt, maxRetries, cap, n - 1);
      acts, g := SomeoneTakes(f, acts, g, id, maxRetries, cap, count, [], n - 1);
      acts, g := SomeoneFails(f, acts, g, id, maxRetries, cap, count, [count], n, 0);
    }
  }

  lemma OneTooMany(f: Floor, id: string, attempt: int, maxRetries: int, cap: nat) returns (acts: seq<Act>, g: Floor)
    requires Fresh(f, id, attempt) && cap >= 2
    ensures Leads(f, acts, g, id, maxRetries, cap) && g.taken == Tries(attempt, maxRetries) + 1
  {
    var n := Tries(attempt, maxRetries) - 1;
    var count := attempt + n;
    acts, g := FailsInTurn(f, id, attempt, maxRetries, cap, n);
    acts, g := SomeoneTakes(f, acts, g, id, maxRetries, cap, count, [], n);
    acts, g := SomeoneTakes(f, acts, g, id, maxRetries, cap, count, [count], n + 1);
  }

  /**
   * An event that always fails, from attempt count a on, is delivered at most max(1, maxRetries - a) times in every
   * interleaving exactly when it is never delivered again before the last delivery has been reported on.
   */
  lemma TriesAreKeptIffInTurn(f: Floor, id: string, attempt: int, maxRetries: int, cap: nat)
    requires Fresh(f, id, attempt)
    ensures (forall g :: Reached(f, g, id, maxRetries, cap) ==> g.taken <= Tries(attempt, maxRetries)) <==> cap <= 1
  {
    if cap <= 1 {
      forall g | Reached(f, g, id, maxRetries, cap)
        ensures g.taken <= Tries(attempt, maxRetries)
      {
        var acts :| Leads(f, acts, g, id, maxRetries, cap);
        StayInTurn(f, acts, g, id, attempt, maxRetries, cap);
      }
    } else {
      var acts, g := OneTooMany(f, id, attempt, maxRetries, cap);
      assert Reached(f, g, id, maxRetries, cap);
    }
  }

  // ---- when the count falls ----

  /** The last act sets the attempt count of the event back. */
  ghost predicate SetsBack(f: Floor, acts: seq<Act>, g: Floor, act: Act, id: string, maxRetries: int, cap: nat) {
    && Leads(f, acts, g, id, maxRetries, cap) && Legal(g, act, id, maxRetries)
    && |Next(g, act, id, maxRetries).open| <= cap
    && CountOf(g.st, id).Some? && CountOf(Next(g, act, id, maxRetries).st, id).Some?
    && CountOf(Next(g, act, id, maxRetries).st, id).value < CountOf(g.st, id).value
  }

  // Nobody was given less than the first count, and nobody has counted past the last attempt.
  ghost predicate Between(f: Floor, id: string, attempt: int, maxRetries: int) {
    && WellFormed(f.st) && (forall c :: c in f.open ==> c >= attempt)
    && (CountOf(f.st, id).Some? ==> attempt <= CountOf(f.st, id).value <= Max(attempt, maxRetries - 1))
  }

  lemma StepBetween(f: Floor, act: Act, id: string, attempt: int, maxRetries: int)
    requires Between(f, id, attempt, maxRetries) && Legal(f, act, id, maxRetries)
    ensures Between(Next(f, act, id, maxRetries), id, attempt, maxRetries)
    ensures var g := Next(f, act, id, maxRetries);
            CountOf(f.st, id).Some? && CountOf(g.st, id).Some? && CountOf(g.st, id).value < CountOf(f.st, id).value
            ==> maxRetries - attempt >= 3
  {
    StepCounts(f, act, id, maxRetries);
    if act.Fail? { assert f.open[act.k] in f.open; }
  }

  lemma {:induction false} StayBetween(f: Floor, acts: seq<Act>, g: Floor, id: string, attempt: int,
                                       maxRetries: int, cap: nat)
    requires Between(f, id, attempt, maxRetries) && Leads(f, acts, g, id, maxRetries, cap)
    ensures Between(g, id, attempt, maxRetries)
    decreases |acts|
  {
    if acts != [] {
      StepBetween(f, acts[0], id, attempt, maxRetries);
      StayBetween(Next(f, acts[0], id, maxRetries), acts[1..], g, id, attempt, maxRetries, cap);
    }
  }

  /**
   * A consumer slower than its lease sets the attempt count back in some interleaving exactly when two deliveries
   * may be open and there are three attempts to go.
   */
  lemma CountFallsIff(f: Floor, id: string, attempt: int, maxRetries: int, cap: nat)
    requires Fresh(f, id, attempt)
    ensures (exists acts, g, act :: SetsBack(f, acts, g, act, id, maxRetries, cap))
            <==> cap >= 2 && maxRetries - attempt >= 3
  {
    if acts, g, act :| SetsBack(f, acts, g, act, id, maxRetries, cap) {
      StayBetween(f, acts, g, id, attempt, maxRetries, cap);
      StepBetween(g, act, id, attempt, maxRetries);
      if cap <= 1 {
        StayInTurn(f, acts, g, id, attempt, maxRetries, cap);
        StepInTurn(g, act, id, attempt, maxRetries);
      }
    }
    if cap >= 2 && maxRetries - attempt >= 3 {
      var acts, g, act := SlowConsumerSetsBack(f, id, attempt, maxRetries, cap);
    }
  }

  /** Taken twice; one of the two fails, and the event is taken and fails again. */
  lemma OneConsumerIsSlow(f: Floor, id: string, a: int, maxRetries: int, cap: nat)
    returns (acts: seq<Act>, g: Floor)
    requires Fresh(f, id, a) && cap >= 2 && maxRetries - a >= 3
    ensures Leads(f, acts, g, id, maxRetries, cap) && Shows(g, id, a + 2, [a], 3)
  {
    assert Without([a, a], 1) == [a] && Without([a, a + 1], 1) == [a];
    acts, g := FailsInTurn(f, id, a, maxRetries, cap, 0);
    acts, g := SomeoneTakes(f, acts, g, id, maxRetries, cap, a, [], 0);
    acts, g := SomeoneTakes(f, acts, g, id, maxRetries, cap, a, [a], 1);
    acts, g := SomeoneFails(f, acts, g, id, maxRetries, cap, a, [a, a], 2, 1);
    acts, g := SomeoneTakes(f, acts, g, id, maxRetries, cap, a + 1, [a], 2);
    acts, g := SomeoneFails(f, acts, g, id, maxRetries, cap, a + 1, [a, a + 1], 3, 1);
  }

  /** Then the other one fails. */
  lemma SlowConsumerSetsBack(f: Floor, id: string, attempt: int, maxRetries: int, cap: nat)
    returns (acts: seq<Act>, g: Floor, act: Act)
    requires Fresh(f, id, attempt) && cap >= 2 && maxRetries - attempt >= 3
    ensures SetsBack(f, acts, g, act, id, maxRetries, cap)
  {
    acts, g := OneConsumerIsSlow(f, id, attempt, maxRetries, cap);
    act := Report(0, attempt + 1);
    ReportIsLegal(g, id, maxRetries, 0);
    StepCounts(g, act, id, maxRetries);
  }
}
