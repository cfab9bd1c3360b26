/** The HTTP transport that attaches a service token: at most two sends, and the credential only to its host. */
module TokenTransport {
  import opened Wrappers
  import opened Text
  import opened TokenEntry
  import opened TokenJournal
  import opened TokenSteps
  import opened TokenRuns

  const UNAUTHORIZED := 401

  // replay: the body can be produced again; replayWorks: producing it succeeds.
  datatype Request = Request(redirected: bool, host: string, hasBody: bool, replay: bool, replayWorks: bool)

  datatype Answer = Status(code: int) | Broken

  // Answered(n) is the answer to the n-th send, counted from 0.
  datatype Outcome = Answered(send: nat) | HostMismatch | NoToken(error: Error)

  /** What the client replies to a Refresh for a rejected token. */
  type Refresher = string -> Result<Option<string>, Error>

  predicate Mismatch(host: string, req: Request) {
    host != "" && !EqualFold(req.host, Trim(host))
  }

  /** A second send carries the renewed token, if the first was rejected and can be repeated. */
  function Retry(req: Request, token: string, refresh: Refresher, first: Answer): Option<string> {
    var repeatable := (req.hasBody ==> req.replay) && (req.replay ==> req.replayWorks);
    if first == Status(UNAUTHORIZED) && repeatable && refresh(token).Ok? then refresh(token).value else None
  }

  /** The credentials of the sends of one request, all of them to the request's host. */
  function Credentials(host: string, req: Request, token: Result<string, Error>, refresh: Refresher, first: Answer)
    : seq<Option<string>>
  {
    if req.redirected then [None]
    else if Mismatch(host, req) || token.Err? then []
    else
      var retry := Retry(req, token.value, refresh, first);
      [Some(token.value)] + if retry.Some? then [retry] else []
  }

  /** answer(n) is what comes back from the n-th send; the caller gets the answer to the last one. */
  method RoundTrip(host: string, req: Request, token: Result<string, Error>, refresh: Refresher, answer: nat -> Answer)
    returns (outcome: Outcome, sends: seq<Option<string>>)
    ensures sends == Credentials(host, req, token, refresh, answer(0))
    ensures |sends| > 0 ==> outcome == Answered(|sends| - 1)
    ensures sends == [] && Mismatch(host, req) ==> outcome == HostMismatch
    ensures sends == [] && !Mismatch(host, req) ==> token.Err? && outcome == NoToken(token.error)
  {
    sends := [];
    if req.redirected { return Answered(0), [None]; }
    if host != "" && !EqualFold(req.host, Trim(host)) { return HostMismatch, sends; }
    if token.Err? { return NoToken(token.error), sends; }
    sends := sends + [Some(token.value)];
    if answer(0) != Status(UNAUTHORIZED) { return Answered(0), sends; }
    if req.hasBody && !req.replay { return Answered(0), sends; }
    var renewed := refresh(token.value);
    if renewed.Err? || renewed.value.None? { return Answered(0), sends; }
    if req.replay && !req.replayWorks { return Answered(0), sends; }
    return Answered(1), sends + [renewed.value];
  }

  /** What a finished Refresh hands to the transport. */
  function RefreshReply(r: Reply): Result<Option<string>, Error> {
    match r
    case Got(token) => Ok(Some(token))
    case Failed(e) => Err(e)
    case _ => Ok(None)
  }

  /**
   * A request is sent at most twice; a credential leaves only for the configured host and never on a redirect;
   * and the second send carries another token than the rejected one, alive when it was handed out.
   */
  lemma SendsAreBounded(c: Config, st: State, id: nat, host: string, req: Request, token: string,
                        refresh: Refresher, first: Answer)
    requires Reached(c, st) && c.renewBefore >= 0 && id in st.threads
    requires st.threads[id].pc.Returned? && st.threads[id].call == RefreshCall(token)
    requires refresh(token) == RefreshReply(st.threads[id].pc.reply)
    ensures var sends, th := Credentials(host, req, Ok(token), refresh, first), st.threads[id];
            && |sends| <= 2
            && (forall s :: s in sends && s.Some? ==>
                  !req.redirected && (host == "" || EqualFold(req.host, Trim(host))))
            && (|sends| == 2 ==>
                  && first == Status(UNAUTHORIZED) && sends[0] == Some(token)
                  && sends[1].Some? && sends[1] != sends[0] && Backed(st.journal, th.target, sends[1].value, th.at))
  {
    RepliesAreHonest(c, st, id);
  }

  /** No host is configured, or it is the request's, white space around it and the case of letters aside. */
  predicate IsHome(host: string, req: Request) {
    host == "" || (|req.host| == |Trim(host)|
                   && forall i :: 0 <= i < |req.host| ==> Lower(req.host[i]) == Lower(Trim(host)[i]))
  }

  /**
   * A redirected request is sent once, without a credential. Any other is sent exactly when it goes to its host and a
   * token could be had; and it is sent again exactly when the answer is a 401, the body, if any, can be produced
   * again, and the client renews the token.
   */
  lemma SendsIff(host: string, req: Request, token: Result<string, Error>, refresh: Refresher, first: Answer)
    ensures var sends := Credentials(host, req, token, refresh, first);
            var again := first == Status(401) && (req.hasBody ==> req.replay) && (req.replay ==> req.replayWorks);
            && (req.redirected ==> sends == [None])
            && (!req.redirected && IsHome(host, req) && token.Ok? ==>
                  && (again && (exists t :: refresh(token.value) == Ok(Some(t))) ==>
                        sends == [Some(token.value), refresh(token.value).value])
                  && (!again || !(exists t :: refresh(token.value) == Ok(Some(t))) ==> sends == [Some(token.value)]))
            && (!req.redirected && !(IsHome(host, req) && token.Ok?) ==> sends == [])
  {
    var home := Trim(host);
    assert EqualFold(req.host, home) ==> |LowerAll(req.host)| == |LowerAll(home)|;
    assert EqualFold(req.host, home) ==> forall i :: 0 <= i < |req.host| ==> LowerAll(req.host)[i] == LowerAll(home)[i];
    if |req.host| == |home| && forall i :: 0 <= i < |req.host| ==> Lower(req.host[i]) == Lower(home[i]) {
      assert LowerAll(req.host) == LowerAll(home);
    }
    if token.Ok? {
      assert !(exists t :: refresh(token.value) == Ok(Some(t))) ==>
        refresh(token.value).Err? || refresh(token.value).value.None?;
    }
  }
}
