/** When asking more of a request may make a route accept it: the exact routes, with a request that shows it. */
module RouteStrictness {
  import opened Wrappers
  import opened Text
  import opened ServiceToken
  import opened PayloadReadings
  import opened Receiver

  /** The route is wired up, open to some kind of token, and lacks at most a declaration of scopes. */
  ghost predicate Servable(r: Route) {
    && ValidConfig(r.service.(anyScope := true))
    && !r.denySub.invalid && (r.allowUser || !r.system.SystemDenied?)
  }

  lemma {:induction false} Longest(texts: set<string>) returns (n: nat)
    ensures forall t :: t in texts ==> |t| <= n
  {
    n := 0;
    if texts != {} {
      var t :| t in texts;
      n := Longest(texts - {t});
      if n < |t| { n := |t|; }
    }
  }

  function Letters(n: nat): (w: string)
    ensures |w| == n && forall i :: 0 <= i < n ==> w[i] == 'a'
  {
    seq(n, _ => 'a')
  }

  lemma FreshWord(avoid: set<string>) returns (w: string)
    ensures w !in avoid && Trim(w) == w && w != "" && Fields(w) == [w]
  {
    var n := Longest(avoid);
    w := Letters(n + 1);
    FieldsOfWord(w, "");
    assert w + "" == w;
  }

  const UUID_ZERO: string := "00000000-0000-0000-0000-000000000000"

  function PassNames(r: Route, name: string): Reading {
    var x := With(NOTHING, "iss", "iss", Json.Text(ISSUER));
    var y := With(x, "sub", "sub", Json.Text(name));
    With(y, "aud", "aud", Json.Text(r.service.audience))
  }

  function PassUse(x: Reading, name: string, kind: string): Reading {
    var y := With(x, "scope", "scope", Json.Text(name));
    var z := With(y, "token_use", "token_use", Json.Text(TOKEN_USE));
    With(z, "tenant_scope", "tenant_scope", Json.Text(kind))
  }

  function PassTimes(r: Route, x: Reading): Reading {
    var y := With(x, "namespace", "namespace", Json.Text(r.service.namespace));
    var z := With(y, "iat", "iat", Num(0));
    With(With(z, "exp", "exp", Num(300)), "jti", "jti", Json.Text("j"))
  }

  function PassReading(r: Route, name: string, kind: string): Reading {
    PassTimes(r, PassUse(PassNames(r, name), name, kind))
  }

  /** A service token issued at 0 by the service of that name, with one scope of the same name. */
  function ServicePass(r: Route, name: string, kind: string): Token {
    Token(true, TOKEN_TYPE, "", PassReading(r, name, kind).d)
  }

  function UserPass(r: Route): Token {
    Token(true, "", "",
          [("iss", Json.Text(USER_ISSUER)), ("exp", Num(300)), ("tenant_id", Json.Text("t")),
           ("namespace", Json.Text(UserNamespace(r)))])
  }

  lemma NamesRead(r: Route, name: string)
    ensures Reads(PassNames(r, name))
  {
    assert "iss" in TEXT_CLAIMS && "sub" in TEXT_CLAIMS && "aud" in TEXT_CLAIMS;
    assert FoldName("iss") == "iss" && FoldName("sub") == "sub" && FoldName("aud") == "aud";
    OneMore(NOTHING, "iss", "iss", Json.Text(ISSUER));
    var x := With(NOTHING, "iss", "iss", Json.Text(ISSUER));
    OneMore(x, "sub", "sub", Json.Text(name));
    OneMore(With(x, "sub", "sub", Json.Text(name)), "aud", "aud", Json.Text(r.service.audience));
  }

  lemma UseReads(x: Reading, name: string, kind: string)
    requires Reads(x)
    ensures Reads(PassUse(x, name, kind))
  {
    assert "scope" in TEXT_CLAIMS && "token_use" in TEXT_CLAIMS && "tenant_scope" in TEXT_CLAIMS;
    assert FoldName("scope") == "scope" && FoldName("token_use") == "token_use";
    assert FoldName("tenant_scope") == "tenant_scope";
    OneMore(x, "scope", "scope", Json.Text(name));
    var y := With(x, "scope", "scope", Json.Text(name));
    OneMore(y, "token_use", "token_use", Json.Text(TOKEN_USE));
    OneMore(With(y, "token_use", "token_use", Json.Text(TOKEN_USE)), "tenant_scope", "tenant_scope", Json.Text(kind));
  }

  lemma TimesRead(r: Route, x: Reading)
    requires Reads(x)
    ensures Reads(PassTimes(r, x))
  {
    assert "namespace" in TEXT_CLAIMS && "jti" in TEXT_CLAIMS && "iat" in TIME_CLAIMS && "exp" in TIME_CLAIMS;
    assert FoldName("namespace") == "namespace" && FoldName("iat") == "iat";
    assert FoldName("exp") == "exp" && FoldName("jti") == "jti";
    OneMore(x, "namespace", "namespace", Json.Text(r.service.namespace));
    var y := With(x, "namespace", "namespace", Json.Text(r.service.namespace));
    OneMore(y, "iat", "iat", Num(0));
    var z := With(y, "iat", "iat", Num(0));
    OneMore(z, "exp", "exp", Num(300));
    OneMore(With(z, "exp", "exp", Num(300)), "jti", "jti", Json.Text("j"));
  }

  lemma PassFields(r: Route, name: string, kind: string)
    ensures var p := PassReading(r, name, kind).fields;
            && TextOf(p, "iss") == ISSUER && TextOf(p, "sub") == name && TextOf(p, "aud") == r.service.audience
            && TextOf(p, "scope") == name && TextOf(p, "token_use") == TOKEN_USE
  {}

  lemma PassRest(r: Route, name: string, kind: string)
    ensures var p := PassReading(r, name, kind).fields;
            && TextOf(p, "tenant_scope") == kind && TextOf(p, "namespace") == r.service.namespace
            && TextOf(p, "jti") == "j" && TimeOf(p, "iat") == Some(0) && TimeOf(p, "nbf") == None
            && TimeOf(p, "exp") == Some(300 * SECOND)
  {}

  lemma ServicePassDecodes(r: Route, name: string, kind: string)
    ensures var t := ServicePass(r, name, kind);
            && Struct(t.document) == Some(PassReading(r, name, kind).fields)
            && ClaimsOf(t) == Claims(ISSUER, name, r.service.audience, name, TOKEN_USE, kind, r.service.namespace,
                                     Some(0), None, Some(300 * SECOND), "j")
  {
    NamesRead(r, name);
    UseReads(PassNames(r, name), name, kind);
    TimesRead(r, PassUse(PassNames(r, name), name, kind));
    PassFields(r, name, kind);
    PassRest(r, name, kind);
  }

  lemma UserPassReads(r: Route)
    ensures var p := Exact(UserPass(r).document);
            && "iss" in p && p["iss"] == Json.Text(USER_ISSUER) && "exp" in p && p["exp"] == Num(300)
            && TextOf(p, "tenant_id") == "t" && TextOf(p, "namespace") == UserNamespace(r)
            && "nbf" !in p && "token_use" !in p
  {
    var d: Document := [];
    OneMoreExact(d, "iss", Json.Text(USER_ISSUER));
    d := d + [("iss", Json.Text(USER_ISSUER))];
    OneMoreExact(d, "exp", Num(300));
    d := d + [("exp", Num(300))];
    OneMoreExact(d, "tenant_id", Json.Text("t"));
    d := d + [("tenant_id", Json.Text("t"))];
    OneMoreExact(d, "namespace", Json.Text(UserNamespace(r)));
    assert UserPass(r).document == d + [("namespace", Json.Text(UserNamespace(r)))];
  }

  lemma ServicePassVerifies(r: Route, name: string, kind: string)
    requires ValidConfig(r.service) && r.service.requiredScopes == [name]
    requires Trim(name) != "" && Fields(name) == [name] && (kind == "user" || kind == "system")
    ensures var v := Verify(Some(ServicePass(r, name, kind)), r.service, 0);
            && v.Ok? && v.value.subject == name && v.value.scopes == [name]
            && (v.value.tenantScope.System? <==> kind == "system")
  {
    ServicePassDecodes(r, name, kind);
    DecodedVerifies(ServicePass(r, name, kind), r, name, kind);
  }

  lemma DecodedVerifies(t: Token, r: Route, name: string, kind: string)
    requires ValidConfig(r.service) && r.service.requiredScopes == [name]
    requires Trim(name) != "" && Fields(name) == [name] && (kind == "user" || kind == "system")
    requires t.genuine && t.typ == TOKEN_TYPE && Struct(t.document).Some?
    requires ClaimsOf(t) == Claims(ISSUER, name, r.service.audience, name, TOKEN_USE, kind, r.service.namespace,
                                  Some(0), None, Some(300 * SECOND), "j")
    ensures var v := Verify(Some(t), r.service, 0);
            && v.Ok? && v.value.subject == name && v.value.scopes == [name]
            && (v.value.tenantScope.System? <==> kind == "system")
  {
    assert Trim("j") == "j";
    assert Authentic(t, r.service, 0);
  }

  lemma UserPassIsAccepted(r: Route, decode: Decoder, p: Principal, q: Request)
    requires r.allowUser && r.service.keyring && forall s :: s in r.systemOnlyScopes ==> s !in p.scopes
    requires q.authorization == "Bearer u" && q.tenantHeader == "" && q.wall == 0
    requires decode("u") == Some(UserPass(r))
    ensures AuthenticateUser(r, decode, p, q).Ok?
  {
    UserPassReads(r);
    assert BearerOf(q.authorization) == "u" && Trim("u") == "u";
    assert ParseUser(decode("u"), r.service.keyring, q.wall).Ok?;
  }

  /** The header the route wants from a system token. */
  function SystemHeader(r: Route): string {
    if r.system.SystemPerTenant? then UUID_ZERO else ""
  }

  lemma SystemPassIsAccepted(r: Route, p: Principal)
    requires !r.system.SystemDenied?
    ensures AuthenticateSystem(r, p, SystemHeader(r)).Ok?
  {
    assert IsUuid(UUID_ZERO);
  }

  lemma AdmittedAsVerified(r: Route, decode: Decoder, p: Principal, q: Request)
    requires !r.denySub.invalid && p.subject !in r.denySub.subs
    requires forall s :: s in r.systemOnlyScopes ==> s !in p.scopes
    requires q.authorization == "Bearer u" && q.wall == 0 && q.tenantHeader == SystemHeader(r)
    requires decode("u") == Some(UserPass(r)) && r.service.keyring
    requires if r.system.SystemDenied? then r.allowUser && p.tenantScope.User? else p.tenantScope.System?
    ensures Admit(r, decode, Ok(p), q).Ok?
  {
    if r.system.SystemDenied? {
      UserPassIsAccepted(r, decode, p, q);
    } else {
      SystemPassIsAccepted(r, p);
    }
  }

  /** A servable route that declares a scope nobody reserves accepts some request. */
  lemma SomeRequestIsAccepted(r: Route, name: string) returns (decode: Decoder, q: Request)
    requires Servable(r) && r.service.requiredScopes == [name]
    requires Trim(name) == name && name != "" && Fields(name) == [name]
    requires name !in r.denySub.subs && name !in r.systemOnlyScopes
    ensures Authenticate(r, decode, q).Ok?
  {
    var kind := if r.system.SystemDenied? then "user" else "system";
    var service, user := ServicePass(r, name, kind), UserPass(r);
    decode := s => if s == "s" then Some(service) else Some(user);
    q := Request("s", "Bearer u", SystemHeader(r), 0, 0);
    ServicePassVerifies(r, name, kind);
    var v := Verified(r, decode, q);
    AdmittedAsVerified(r, decode, v.value, q);
    assert Trim(q.token) == "s" by { assert Trim("s") == "s"; }
  }

  /** Every stricter route accepts no more than r does, and in the same way. */
  ghost predicate StrictnessIsSafe(r: Route) {
    forall s, decode, q :: Stricter(s, r) && Authenticate(s, decode, q).Ok? ==>
      Authenticate(r, decode, q) == Authenticate(s, decode, q)
  }

  /** Making a route stricter is safe exactly when it declares its scopes already, or could not serve with any. */
  lemma StrictnessIsSafeIff(r: Route)
    ensures StrictnessIsSafe(r) <==> r.service.requiredScopes != [] || r.service.anyScope || !Servable(r)
  {
    if r.service.requiredScopes != [] || r.service.anyScope {
      forall s, decode, q | Stricter(s, r) && Authenticate(s, decode, q).Ok?
        ensures Authenticate(r, decode, q) == Authenticate(s, decode, q)
      {
        StricterAcceptsNoMore(r, s, decode, q);
      }
    } else if Servable(r) {
      var name := FreshWord(r.denySub.subs + set s | s in r.systemOnlyScopes);
      var s := r.(service := r.service.(requiredScopes := [name]));
      var decode, q := SomeRequestIsAccepted(s, name);
      UndeclaredScopesRejectAll(r, decode, q);
      assert Stricter(s, r);
    } else {
      forall s, decode, q | Stricter(s, r)
        ensures Authenticate(s, decode, q).Err?
      {
        NotServable(r, s, decode, q);
      }
    }
  }

  lemma NotServable(r: Route, s: Route, decode: Decoder, q: Request)
    requires !Servable(r) && Stricter(s, r)
    ensures Authenticate(s, decode, q).Err?
  {
    AcceptedIsAtHome(s, decode, q);
  }
}
