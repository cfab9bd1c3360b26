/**
 * The sequential history of a token client: one mark per write to an entry or start of an exchange.
 * A journal is lawful when each mark was decided on what the marks before it left.
 */
module TokenJournal {
  import opened Wrappers
  import opened TokenBreaker
  import opened TokenEntry

  datatype Target = Target(aud: string, scope: string)

  datatype Config = Config(renewBefore: int, policy: Policy)

  datatype Mark =
    | Launched(target: Target, now: int)
    | Settled(target: Target, now: int, outcome: Outcome)
    | Pulled(target: Target, now: int, sent: string)  // a rejected token's renewal was brought forward
    | Cleared(target: Target)

  type Journal = seq<Mark>

  function EntryAfter(c: Config, e: Entry, m: Mark): Entry {
    match m
    case Launched(_, _) => e
    case Settled(_, now, o) => Store(e, c.renewBefore, now, o)
    case Pulled(_, _, _) => e.(renewAt := 0)
    case Cleared(_) => Clear(e)
  }

  function BreakerAfter(c: Config, b: Breaker, m: Mark): Breaker {
    if m.Settled? then Trip(c.policy, b, m.now, m.outcome) else b
  }

  /** The start of the exchange that is under way after a mark. */
  function OpenAfter(m: Mark, before: Option<int>): Option<int> {
    if m.Launched? then Some(m.now) else if m.Settled? then None else before
  }

  function EntryOf(c: Config, j: Journal, t: Target): Entry {
    if j == [] then FRESH
    else
      var e := EntryOf(c, j[..|j| - 1], t);
      if j[|j| - 1].target == t then EntryAfter(c, e, j[|j| - 1]) else e
  }

  function BreakerOf(c: Config, j: Journal, aud: string): Breaker {
    if j == [] then CLOSED
    else
      var b := BreakerOf(c, j[..|j| - 1], aud);
      if j[|j| - 1].target.aud == aud then BreakerAfter(c, b, j[|j| - 1]) else b
  }

  function Open(j: Journal, t: Target): Option<int> {
    if j == [] then None
    else
      var o := Open(j[..|j| - 1], t);
      if j[|j| - 1].target == t then OpenAfter(j[|j| - 1], o) else o
  }

  /** No mark on t was timed after now. */
  ghost predicate NotAfter(j: Journal, t: Target, now: int) {
    forall m :: m in j && m.target == t && !m.Cleared? ==> m.now <= now
  }

  /** IAM names every token it issues and lets it live for a while, at most 300 s. */
  ghost predicate Sane(o: Outcome) {
    o.Issued? ==> o.token != "" && 0 < o.ttl <= TTL
  }

  /** A clock reading: the zero time lies more than 30 s before any of them. */
  ghost predicate Reading(now: int) {
    now >= MIN_REISSUE_AGE
  }

  /** A mark fits the entry, the breaker and the exchange under way that it was decided on. */
  ghost predicate Fits(c: Config, e: Entry, b: Breaker, open: Option<int>, m: Mark) {
    && (m.Cleared? || Reading(m.now))
    && match m
      case Launched(_, now) => open.None? && Decide(c.policy, e, b, now).Launch?
      case Settled(_, now, o) => open == Some(now) && Sane(o)
      case Pulled(_, now, sent) => open.None? && Judge(e, sent, now).Force?
      case Cleared(_) => open.None?
  }

  ghost predicate LawfulMark(c: Config, j: Journal, m: Mark) {
    && Fits(c, EntryOf(c, j, m.target), BreakerOf(c, j, m.target.aud), Open(j, m.target), m)
    && (m.Cleared? || NotAfter(j, m.target, m.now))
  }

  ghost predicate Lawful(c: Config, j: Journal) {
    j != [] ==> Lawful(c, j[..|j| - 1]) && LawfulMark(c, j[..|j| - 1], j[|j| - 1])
  }

  lemma Extend(c: Config, j: Journal, m: Mark, t: Target, aud: string)
    ensures EntryOf(c, j + [m], t) == if m.target == t then EntryAfter(c, EntryOf(c, j, t), m) else EntryOf(c, j, t)
    ensures BreakerOf(c, j + [m], aud)
            == if m.target.aud == aud then BreakerAfter(c, BreakerOf(c, j, aud), m) else BreakerOf(c, j, aud)
    ensures Open(j + [m], t) == if m.target == t then OpenAfter(m, Open(j, t)) else Open(j, t)
    ensures Lawful(c, j + [m]) <==> Lawful(c, j) && LawfulMark(c, j, m)
  {
    assert (j + [m])[..|j|] == j;
  }

  lemma {:induction false} LawfulAt(c: Config, j: Journal, k: nat)
    requires Lawful(c, j) && k < |j|
    ensures Lawful(c, j[..k]) && LawfulMark(c, j[..k], j[k])
  {
    if k < |j| - 1 {
      LawfulAt(c, j[..|j| - 1], k);
      assert j[..|j| - 1][..k] == j[..k];
    }
  }

  /** The last exchange started for t, when it is still under way. */
  lemma {:induction false} OpenIsLastLaunch(j: Journal, t: Target, i: nat)
    requires i < |j| && j[i].Launched? && j[i].target == t
    requires forall k :: i < k < |j| && j[k].target == t ==> !j[k].Launched? && !j[k].Settled?
    ensures Open(j, t) == Some(j[i].now)
  {
    if i < |j| - 1 { OpenIsLastLaunch(j[..|j| - 1], t, i); }
  }

  /** Single flight: between two exchanges started for one entry, the first has been settled. */
  lemma SettledBeforeNext(c: Config, j: Journal, t: Target, i: nat, k: nat)
    requires Lawful(c, j) && i < k < |j|
    requires j[i].Launched? && j[i].target == t && j[k].Launched? && j[k].target == t
    requires forall n :: i < n < k && j[n].target == t ==> !j[n].Launched?
    ensures exists n :: i < n < k && j[n].Settled? && j[n].target == t && j[n].now == j[i].now
  {
    LawfulAt(c, j, k);
    if forall n :: i < n < k && j[n].target == t ==> !j[n].Settled? {
      OpenIsLastLaunch(j[..k], t, i);
    } else {
      var n := FirstSettled(j, t, i, k);
      LawfulAt(c, j, n);
      OpenIsLastLaunch(j[..n], t, i);
    }
  }

  lemma {:induction false} FirstSettled(j: Journal, t: Target, i: nat, k: nat) returns (n: nat)
    requires i < k <= |j| && exists x :: i < x < k && j[x].target == t && j[x].Settled?
    ensures i < n < k && j[n].target == t && j[n].Settled?
    ensures forall x :: i < x < n && j[x].target == t ==> !j[x].Settled?
  {
    n := i + 1;
    while !(j[n].target == t && j[n].Settled?)
      invariant i < n < k && forall x :: i < x < n && j[x].target == t ==> !j[x].Settled?
      decreases k - n
    {
      assert exists x :: n < x < k && j[x].target == t && j[x].Settled?;
      n := n + 1;
    }
  }

  ghost predicate Replaces(m: Mark, t: Target) {
    m.target == t && (m.Cleared? || (m.Settled? && m.outcome.Issued?))
  }

  /** An issued token stays cached, with its expiry, until the next issue or an explicit clear. */
  lemma {:induction false} TokenSurvives(c: Config, j: Journal, t: Target, i: nat)
    requires Lawful(c, j) && i < |j| && j[i].Settled? && j[i].target == t && j[i].outcome.Issued?
    requires forall k :: i < k < |j| ==> !Replaces(j[k], t)
    ensures var e := EntryOf(c, j, t);
            && e.token == j[i].outcome.token && e.issuedAt == j[i].now && e.expiresAt == j[i].now + j[i].outcome.ttl
            && ((forall k :: i < k < |j| && j[k].target == t ==> !j[k].Pulled?) ==>
                  e.renewAt == e.expiresAt - c.renewBefore)
    decreases |j|
  {
    if i < |j| - 1 {
      assert !Replaces(j[|j| - 1], t);
      TokenSurvives(c, j[..|j| - 1], t, i);
    }
  }

  /**
   * The reaction to rejections. While the token issued at i is cached, a caller rejected with that very token
   * may ask for another only once it is 30 s old, and a caller rejected with an older one not before it expires:
   * of a batch of callers rejected with the same token, one renews it and the rest adopt the replacement.
   */
  lemma RejectionsAdopt(c: Config, j: Journal, t: Target, i: nat, k: nat)
    requires Lawful(c, j) && i < k < |j|
    requires j[i].Settled? && j[i].target == t && j[i].outcome.Issued?
    requires j[k].Pulled? && j[k].target == t
    requires forall n :: i < n < k ==> !Replaces(j[n], t)
    ensures j[k].sent == j[i].outcome.token ==> j[k].now >= j[i].now + MIN_REISSUE_AGE
    ensures j[k].sent != j[i].outcome.token ==> j[k].now >= j[i].now + j[i].outcome.ttl
  {
    LawfulAt(c, j, i);
    LawfulAt(c, j, k);
    TokenSurvives(c, j[..k], t, i);
  }

  /** Unless a rejection brought it forward, an exchange starts no sooner than the renewal of the cached token. */
  lemma RenewalWaits(c: Config, j: Journal, t: Target, i: nat, k: nat)
    requires Lawful(c, j) && i < k < |j|
    requires j[i].Settled? && j[i].target == t && j[i].outcome.Issued?
    requires j[k].Launched? && j[k].target == t
    requires forall n :: i < n < k ==> !Replaces(j[n], t) && !(j[n].target == t && j[n].Pulled?)
    ensures j[k].now >= j[i].now + j[i].outcome.ttl - c.renewBefore
  {
    LawfulAt(c, j, i);
    LawfulAt(c, j, k);
    TokenSurvives(c, j[..k], t, i);
  }

  /**
   * However many callers are rejected with the same token, once it has been replaced their rejections start no
   * exchange before the replacement itself is due for renewal.
   */
  lemma BatchIsRenewedOnce(c: Config, j: Journal, t: Target, i: nat, k: nat, sent: string)
    requires Lawful(c, j) && c.renewBefore >= 0 && i < k < |j|
    requires j[i].Settled? && j[i].target == t && j[i].outcome.Issued? && j[i].outcome.token != sent
    requires j[k].Launched? && j[k].target == t
    requires forall n :: i < n < k ==> !Replaces(j[n], t) && (j[n].target == t && j[n].Pulled? ==> j[n].sent == sent)
    ensures j[k].now >= j[i].now + j[i].outcome.ttl - c.renewBefore
  {
    if n :| i < n < k && j[n].target == t && j[n].Pulled? {
      RejectionsAdopt(c, j, t, i, n);
      LawfulAt(c, j, k);
      assert j[..k][n] in j[..k];
    } else {
      RenewalWaits(c, j, t, i, k);
    }
  }

  /**
   * Whatever is called meanwhile, no exchange starts for an entry before its cached token is 30 s old, due for
   * renewal, or expired, whichever comes first.
   */
  lemma NoExchangeIsEarly(c: Config, j: Journal, t: Target, i: nat, k: nat)
    requires Lawful(c, j) && i < k < |j|
    requires j[i].Settled? && j[i].target == t && j[i].outcome.Issued?
    requires j[k].Launched? && j[k].target == t
    requires forall n :: i < n < k ==> !Replaces(j[n], t)
    ensures var ttl := j[i].outcome.ttl;
            j[k].now >= j[i].now + Min(MIN_REISSUE_AGE, Min(ttl, ttl - c.renewBefore))
  {
    if n :| i < n < k && j[n].target == t && j[n].Pulled? {
      RejectionsAdopt(c, j, t, i, n);
      LawfulAt(c, j, k);
      assert j[..k][n] in j[..k];
    } else {
      RenewalWaits(c, j, t, i, k);
    }
  }

  lemma {:induction false} BackoffSurvives(c: Config, j: Journal, t: Target, i: nat)
    requires i < |j| && j[i].Settled? && j[i].target == t
    requires j[i].outcome.Refused? && !TripsBreaker(j[i].outcome.reason)
    requires forall k :: i < k < |j| && j[k].target == t ==> !j[k].Settled?
    ensures var e := EntryOf(c, j, t); e.lastErr.Some? && e.retryAt == j[i].now + RETRY_BACKOFF
    decreases |j|
  {
    if i < |j| - 1 { BackoffSurvives(c, j[..|j| - 1], t, i); }
  }

  /** After a permanent rejection the same entry starts no exchange for 5 s, whatever is called meanwhile. */
  lemma {:induction false} BackoffIsKept(c: Config, j: Journal, t: Target, i: nat, k: nat)
    requires Lawful(c, j) && i < k < |j|
    requires j[i].Settled? && j[i].target == t && j[i].outcome.Refused? && !TripsBreaker(j[i].outcome.reason)
    requires j[k].Launched? && j[k].target == t
    ensures j[k].now >= j[i].now + RETRY_BACKOFF
    decreases k
  {
    LawfulAt(c, j, k);
    if n :| i < n < k && j[n].Launched? && j[n].target == t {
      BackoffIsKept(c, j, t, i, n);
      assert j[..k][n] in j[..k];
    } else {
      NothingSettlesUnlaunched(c, j[..k], t, i);
      BackoffSurvives(c, j[..k], t, i);
    }
  }

  lemma {:induction false} NothingSettlesUnlaunched(c: Config, j: Journal, t: Target, i: nat)
    requires Lawful(c, j) && i < |j| && j[i].Settled? && j[i].target == t
    requires forall n :: i < n < |j| && j[n].target == t ==> !j[n].Launched?
    ensures Open(j, t).None? && forall n :: i < n < |j| && j[n].target == t ==> !j[n].Settled?
    decreases |j|
  {
    if i < |j| - 1 { NothingSettlesUnlaunched(c, j[..|j| - 1], t, i); }
  }

  /** tok was issued for t and is alive at now. */
  ghost predicate Backed(j: Journal, t: Target, tok: string, now: int) {
    exists m :: m in j && m.Settled? && m.target == t && m.outcome.Issued? && m.outcome.token == tok
      && m.now <= now < m.now + m.outcome.ttl && m.outcome.ttl <= TTL
  }

  /** A cached token that looks valid was issued for this very audience and scope, and is alive. */
  lemma {:induction false} CachedTokenIsBacked(c: Config, j: Journal, t: Target, now: int)
    requires Lawful(c, j) && c.renewBefore >= 0
    ensures Coherent(EntryOf(c, j, t)) && (EntryOf(c, j, t).token != "" ==> EntryOf(c, j, t).expiresAt >= 0)
    ensures Valid(EntryOf(c, j, t), now) && NotAfter(j, t, now) ==> Backed(j, t, EntryOf(c, j, t).token, now)
  {
    if j != [] {
      var front, m := j[..|j| - 1], j[|j| - 1];
      assert j == front + [m];
      CachedTokenIsBacked(c, front, t, now);
      assert forall x :: x in front ==> x in j;
      assert m in j;
    }
  }
}
