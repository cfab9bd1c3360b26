/**
 * One cache entry of the service-token client: what a call does with it, and what an exchange with IAM
 * leaves in it. Times are in nanoseconds; 0 is Go's zero time, before any clock reading.
 */
module TokenEntry {
  import opened Wrappers
  import opened TokenBreaker

  const SECOND: int := 1_000_000_000
  const TTL: int := 300 * SECOND
  const RETRY_BACKOFF: int := 5 * SECOND
  const MIN_REISSUE_AGE: int := 30 * SECOND

  datatype Reason = Sign | Transport | Http5xx | Http429 | Http4xx | Decode

  datatype Error = Canceled | CircuitOpen | Rejected(reason: Reason)

  /** Only the signs of a down or saturated IAM count for the circuit. */
  predicate TripsBreaker(r: Reason) {
    r.Transport? || r.Http5xx? || r.Http429? || r.Decode?
  }

  // What happened on the wire; the body is an access token with its expires_in, or does not parse.
  datatype Exchange = Unsigned | Unreachable | Response(status: int, body: Option<(string, int)>)

  datatype Outcome = Issued(token: string, ttl: int) | Refused(reason: Reason)

  function Classify(x: Exchange): Outcome {
    match x
    case Unsigned => Refused(Sign)
    case Unreachable => Refused(Transport)
    case Response(status, body) =>
      if status != 200 then
        Refused(if status == 429 then Http429 else if status < 500 then Http4xx else Http5xx)
      else if body.None? || body.value.0 == "" || body.value.1 <= 0 then Refused(Decode)
      else Issued(body.value.0, Min(Wrap64(body.value.1 * SECOND), TTL))
  }

  /** Every issued token has a name and lives at most 300 s; it is alive at all unless the product overflows. */
  lemma IssuedLifetime(x: Exchange)
    requires Classify(x).Issued?
    ensures Classify(x).token != "" && Classify(x).ttl <= TTL
    ensures Fits64(x.body.value.1 * SECOND) ==> Classify(x).ttl >= SECOND
    ensures Classify(x).ttl > 0 <==> Wrap64(x.body.value.1 * SECOND) > 0
  {}

  datatype Entry = Entry(token: string, issuedAt: int, renewAt: int, expiresAt: int,
                         lastErr: Option<Error>, retryAt: int)

  const FRESH := Entry("", 0, 0, 0, None, 0)

  predicate Valid(e: Entry, now: int) {
    e.token != "" && now < e.expiresAt
  }

  datatype Decision = Serve(token: string) | Refuse(error: Error) | Launch(valid: bool)

  /** What a call holding the entry does at `now`. */
  function Decide(p: Policy, e: Entry, b: Breaker, now: int): Decision {
    if e.token != "" && now < e.renewAt then Serve(e.token)
    else if e.lastErr.Some? && now < e.retryAt then
      if Valid(e, now) then Serve(e.token) else Refuse(e.lastErr.value)
    else if !Allows(p, b, now) then
      if Valid(e, now) then Serve(e.token) else Refuse(CircuitOpen)
    else Launch(Valid(e, now))
  }

  /** The entry after an exchange that started at `now`. */
  function Store(e: Entry, renewBefore: int, now: int, o: Outcome): Entry {
    match o
    case Issued(token, ttl) => Entry(token, now, now + ttl - renewBefore, now + ttl, None, 0)
    case Refused(reason) =>
      if TripsBreaker(reason) then e else e.(lastErr := Some(Rejected(reason)), retryAt := now + RETRY_BACKOFF)
  }

  function Trip(p: Policy, b: Breaker, now: int, o: Outcome): Breaker {
    match o
    case Issued(_, _) => CLOSED
    case Refused(reason) => if TripsBreaker(reason) then AfterFailure(p, b, now) else b
  }

  /** What the launching call gets: a refused renewal still serves the token that was valid at `now`. */
  function Answer(e: Entry, valid: bool, o: Outcome): Result<string, Error> {
    match o
    case Issued(token, _) => Ok(token)
    case Refused(reason) => if valid then Ok(e.token) else Err(Rejected(reason))
  }

  /** The caller is handed every issued token; it is expired at once exactly when the product wraps to 0 or below. */
  lemma HandedExpiredIffWrapped(e: Entry, renewBefore: int, valid: bool, now: int, x: Exchange)
    requires Classify(x).Issued?
    ensures var o, stored := Classify(x), Store(e, renewBefore, now, Classify(x));
            && Answer(e, valid, o) == Ok(o.token) && stored.token == o.token
            && (!Valid(stored, now) <==> Wrap64(x.body.value.1 * SECOND) <= 0)
  {
    IssuedLifetime(x);
  }

  /** An expires_in of 9223372037 s, some 292 years, wraps. */
  lemma LongLifetimeIsExpired(e: Entry, renewBefore: int, valid: bool, now: int, token: string)
    requires token != ""
    ensures var o := Classify(Response(200, Some((token, 9_223_372_037))));
            Answer(e, valid, o) == Ok(token) && !Valid(Store(e, renewBefore, now, o), now)
  {
    HandedExpiredIffWrapped(e, renewBefore, valid, now, Response(200, Some((token, 9_223_372_037))));
  }

  datatype Verdict = Adopt(token: string) | TooYoung | Force

  /** The reaction to a receiver's 401 for the token `sent`. */
  function Judge(e: Entry, sent: string, now: int): Verdict {
    if e.token != "" && e.token != sent && now < e.expiresAt then Adopt(e.token)
    else if e.token == sent && now - e.issuedAt < MIN_REISSUE_AGE then TooYoung
    else Force
  }

  function Clear(e: Entry): Entry {
    e.(token := "", issuedAt := 0, renewAt := 0, expiresAt := 0)
  }

  /** Renewal never falls after expiry. */
  ghost predicate Coherent(e: Entry) {
    e.token != "" ==> e.renewAt <= e.expiresAt
  }

  /** A call never fails while the cached token is unexpired, whatever the breaker or the backoff say. */
  lemma ValidTokenIsServed(p: Policy, e: Entry, b: Breaker, now: int, o: Outcome)
    requires Coherent(e)
    ensures Decide(p, e, b, now).Serve? ==> Valid(e, now) && Decide(p, e, b, now).token == e.token
    ensures Valid(e, now) ==> !Decide(p, e, b, now).Refuse?
    ensures Valid(e, now) && Decide(p, e, b, now).Launch? ==> Answer(e, Decide(p, e, b, now).valid, o).Ok?
  {}

  /** An expired token can be served exactly when the configured renewal lead is negative. */
  lemma ServesExpiredIffLeadIsNegative(p: Policy, e: Entry, b: Breaker, renewBefore: int,
                                       start: int, token: string, ttl: int)
    requires token != ""
    ensures var stored := Store(e, renewBefore, start, Issued(token, ttl));
            (exists now :: Decide(p, stored, b, now).Serve? && now >= stored.expiresAt) <==> renewBefore < 0
  {
    var stored := Store(e, renewBefore, start, Issued(token, ttl));
    if renewBefore < 0 {
      assert Decide(p, stored, b, stored.expiresAt).Serve?;
    }
  }

  class Client {
    const renewBefore: int
    const circuits: Circuits
    var entries: map<string, Entry>

    constructor (renewBefore: int, policy: Policy)
      ensures fresh(circuits) && circuits.policy == policy && circuits.breakers == map[]
      ensures this.renewBefore == renewBefore && entries == map[]
    {
      this.renewBefore, entries := renewBefore, map[];
      circuits := new Circuits(policy);
    }

    function EntryAt(key: string): Entry
      reads this
    {
      if key in entries then entries[key] else FRESH
    }

    method ObtainLocked(key: string, aud: string, now: int) returns (d: Decision)
      modifies circuits
      ensures d == Decide(circuits.policy, EntryAt(key), old(circuits.Of(aud)), now)
      ensures forall a :: circuits.Of(a) == old(circuits.Of(a))
    {
      var e := EntryAt(key);
      if e.token != "" && now < e.renewAt { return Serve(e.token); }
      var valid := e.token != "" && now < e.expiresAt;
      if e.lastErr.Some? && now < e.retryAt {
        if valid { return Serve(e.token); }
        return Refuse(e.lastErr.value);
      }
      var allowed := circuits.Allow(aud, now);
      if !allowed {
        if valid { return Serve(e.token); }
        return Refuse(CircuitOpen);
      }
      return Launch(valid);
    }

    method IssueAndStore(key: string, aud: string, now: int, valid: bool, x: Exchange)
      returns (r: Result<string, Error>)
      modifies this, circuits
      ensures r == Answer(old(EntryAt(key)), valid, Classify(x))
      ensures forall k :: EntryAt(k)
                == if k == key then Store(old(EntryAt(key)), renewBefore, now, Classify(x)) else old(EntryAt(k))
      ensures forall a :: circuits.Of(a)
                == if a == aud then Trip(circuits.policy, old(circuits.Of(a)), now, Classify(x))
                   else old(circuits.Of(a))
    {
      var e := EntryAt(key);
      match Classify(x) {
        case Refused(reason) =>
          if TripsBreaker(reason) {
            circuits.RecordFailure(aud, now);
          } else {
            entries := entries[key := e.(lastErr := Some(Rejected(reason)), retryAt := now + RETRY_BACKOFF)];
          }
          if valid { return Ok(e.token); }
          return Err(Rejected(reason));
        case Issued(token, ttl) =>
          circuits.RecordSuccess(aud);
          e := e.(lastErr := None, retryAt := 0);
          e := e.(token := token, issuedAt := now);
          e := e.(expiresAt := now + ttl);
          e := e.(renewAt := e.expiresAt - renewBefore);
          entries := entries[key := e];
          return Ok(token);
      }
    }

    /** The part of Refresh before the forced renewal: the token stays, only its renewal is brought forward. */
    method CheckRefresh(key: string, sent: string, now: int) returns (v: Verdict)
      modifies this
      ensures v == Judge(old(EntryAt(key)), sent, now)
      ensures forall k :: EntryAt(k) == if k == key && v.Force? then old(EntryAt(k)).(renewAt := 0) else old(EntryAt(k))
    {
      var e := EntryAt(key);
      if e.token != "" && e.token != sent && now < e.expiresAt { return Adopt(e.token); }
      if e.token == sent && now - e.issuedAt < MIN_REISSUE_AGE { return TooYoung; }
      entries := entries[key := e.(renewAt := 0)];
      return Force;
    }

    method Invalidate(key: string)
      modifies this
      ensures forall k :: EntryAt(k) == if k == key then Clear(old(EntryAt(k))) else old(EntryAt(k))
    {
      entries := entries[key := Clear(EntryAt(key))];
    }
  }
}
