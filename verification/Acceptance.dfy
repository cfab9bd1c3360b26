/** Exactly which requests a receiver accepts, in terms of the members that the payloads write down. */
module Acceptance {
  import opened Wrappers
  import opened Text
  import opened ServiceToken
  import opened Receiver

  const S: int := 1_000_000_000

  // ---- what a payload says ----

  /** A struct reads that text from it: the last member of the name, in any case, that is not null. */
  ghost predicate Says(d: Document, key: string, s: string) {
    exists i :: SaysAt(d, key, s, i)
  }

  ghost predicate SaysAt(d: Document, key: string, s: string, i: int) {
    && 0 <= i < |d| && FoldName(d[i].0) == key && d[i].1 == Json.Text(s)
    && forall j :: i < j < |d| && FoldName(d[j].0) == key ==> d[j].1.Empty?
  }

  /** A struct reads that time from it, in seconds: the last member of the name, in any case. */
  ghost predicate Times(d: Document, key: string, seconds: int) {
    exists i :: TimesAt(d, key, seconds, i)
  }

  ghost predicate TimesAt(d: Document, key: string, seconds: int, i: int) {
    && 0 <= i < |d| && FoldName(d[i].0) == key && d[i].1 == Num(seconds)
    && forall j :: i < j < |d| ==> FoldName(d[j].0) != key
  }

  /** A map has that value of it: the last member of exactly that name. */
  ghost predicate Has(d: Document, name: string, v: Json) {
    exists i :: HasAt(d, name, v, i)
  }

  ghost predicate HasAt(d: Document, name: string, v: Json, i: int) {
    0 <= i < |d| && d[i] == (name, v) && forall j :: i < j < |d| ==> d[j].0 != name
  }

  lemma {:induction false} ExactHas(d: Document, name: string, v: Json)
    ensures name in Exact(d) && Exact(d)[name] == v <==> Has(d, name, v)
  {
    if d != [] {
      var front, n := d[..|d| - 1], |d| - 1;
      ExactHas(front, name, v);
      if d[n].0 == name {
        if d[n].1 == v { assert HasAt(d, name, v, n); }
        assert forall i :: HasAt(d, name, v, i) ==> i == n;
      } else {
        forall i
          ensures HasAt(front, name, v, i) <==> HasAt(d, name, v, i)
        {}
      }
    }
  }

  lemma {:induction false} StructSays(d: Document, key: string, s: string)
    requires Struct(d).Some? && key in TEXT_CLAIMS
    ensures key in Struct(d).value && Struct(d).value[key] == Json.Text(s) <==> Says(d, key, s)
    ensures key in Struct(d).value ==> Struct(d).value[key].Text?
  {
    if d != [] {
      var front, n := d[..|d| - 1], |d| - 1;
      StructSays(front, key, s);
      if FoldName(d[n].0) == key && d[n].1.Text? {
        if d[n].1 == Json.Text(s) { assert SaysAt(d, key, s, n); }
        assert forall i :: SaysAt(d, key, s, i) ==> i == n;
      } else {
        forall i
          ensures SaysAt(front, key, s, i) <==> SaysAt(d, key, s, i)
        {}
      }
    }
  }

  lemma {:induction false} StructTimes(d: Document, key: string, seconds: int)
    requires Struct(d).Some? && key in TIME_CLAIMS && key !in TEXT_CLAIMS
    ensures key in Struct(d).value && Struct(d).value[key] == Num(seconds) <==> Times(d, key, seconds)
  {
    if d != [] {
      var front, n := d[..|d| - 1], |d| - 1;
      StructTimes(front, key, seconds);
      if FoldName(d[n].0) == key {
        if d[n].1 == Num(seconds) { assert TimesAt(d, key, seconds, n); }
        assert forall i :: TimesAt(d, key, seconds, i) ==> i == n;
      } else {
        forall i
          ensures TimesAt(front, key, seconds, i) <==> TimesAt(d, key, seconds, i)
        {}
      }
    }
  }

  ghost predicate IsTextName(key: string) {
    key in ["iss", "sub", "aud", "scope", "token_use", "tenant_scope", "namespace", "jti"]
  }

  ghost predicate IsTimeName(key: string) {
    key in ["iat", "nbf", "exp"]
  }

  /** Whatever names a field, in any case, is null or of the field's type. */
  ghost predicate WellTyped(d: Document) {
    forall i :: 0 <= i < |d| ==>
      && (IsTextName(FoldName(d[i].0)) ==> d[i].1.Empty? || d[i].1.Text?)
      && (IsTimeName(FoldName(d[i].0)) ==> d[i].1.Empty? || d[i].1.Num?)
  }

  lemma {:induction false} StructDecodes(d: Document)
    ensures Struct(d).Some? <==> WellTyped(d)
  {
    if d != [] {
      var front, n := d[..|d| - 1], |d| - 1;
      StructDecodes(front);
      assert forall i :: 0 <= i < n ==> front[i] == d[i];
      assert WellTyped(d) ==> WellTyped(front);
    }
  }

  // ---- service tokens ----

  /** The text that a struct reads from it, as Says has it; nothing is read as the empty text. */
  lemma ClaimIsSaid(d: Document, key: string, s: string)
    requires Struct(d).Some? && key in TEXT_CLAIMS
    ensures Says(d, key, s) ==> TextOf(Struct(d).value, key) == s
    ensures TextOf(Struct(d).value, key) != "" ==> Says(d, key, TextOf(Struct(d).value, key))
  {
    StructSays(d, key, s);
    StructSays(d, key, TextOf(Struct(d).value, key));
  }

  lemma TimeIsSaid(d: Document, key: string, seconds: int)
    requires Struct(d).Some? && key in TIME_CLAIMS
    ensures Times(d, key, seconds) <==> TimeOf(Struct(d).value, key) == Some(seconds * S)
  {
    StructTimes(d, key, seconds);
  }

  /** Written for this receiver by iam, in the form of a service token. */
  ghost predicate IsAddressed(d: Document, cfg: Config) {
    && Says(d, "iss", "iam-service/s2s") && Says(d, "token_use", "service") && Says(d, "aud", cfg.audience)
    && (Says(d, "tenant_scope", "user") || Says(d, "tenant_scope", "system"))
  }

  ghost predicate IsNamed(d: Document, key: string) {
    exists s :: Says(d, key, s) && Trim(s) != ""
  }

  /** It lives for 300 s at the most, and is read within 30 s of that life. */
  ghost predicate IsAlive(d: Document, now: int) {
    && (exists iat, exp :: Times(d, "iat", iat) && Times(d, "exp", exp)
                           && exp - iat <= 300 && iat * S - 30 * S <= now < exp * S + 30 * S)
    && forall nbf :: Times(d, "nbf", nbf) ==> nbf * S - 30 * S <= now
  }

  ghost predicate Carries(d: Document, scope: string) {
    exists s :: Says(d, "scope", s) && scope in Fields(s)
  }

  /** The receiver is wired up: it knows its keys and its name, and says which scopes it wants. */
  ghost predicate IsReady(cfg: Config) {
    && cfg.keyring && Trim(cfg.audience) != "" && Trim(cfg.namespace) != ""
    && cfg.audience != "iam-service/s2s/token" && (cfg.requiredScopes != [] || cfg.anyScope)
  }

  ghost predicate IsServiceToken(t: Token, cfg: Config, now: int) {
    && t.genuine && t.typ == "s2s+jwt" && WellTyped(t.document)
    && IsAddressed(t.document, cfg) && IsNamed(t.document, "sub") && IsNamed(t.document, "jti")
    && IsAlive(t.document, now)
  }

  /** What a service token that is valid may still lack here. */
  ghost predicate Suffices(d: Document, cfg: Config) {
    && Says(d, "namespace", cfg.namespace)
    && forall scope :: scope in cfg.requiredScopes ==> Carries(d, scope)
  }

  lemma AddressIsRead(t: Token, cfg: Config)
    requires Struct(t.document).Some? && IsReady(cfg)
    ensures var c := ClaimsOf(t);
            IsAddressed(t.document, cfg) <==>
              && c.iss == "iam-service/s2s" && c.tokenUse == "service" && c.aud == cfg.audience
              && (c.tenantScope == "user" || c.tenantScope == "system")
    ensures Says(t.document, "namespace", cfg.namespace) <==> ClaimsOf(t).namespace == cfg.namespace
    ensures Says(t.document, "tenant_scope", "system") <==> ClaimsOf(t).tenantScope == "system"
  {
    var d := t.document;
    assert Trim("") == "";
    ClaimIsSaid(d, "iss", "iam-service/s2s");
    ClaimIsSaid(d, "token_use", "service");
    ClaimIsSaid(d, "aud", cfg.audience);
    ClaimIsSaid(d, "namespace", cfg.namespace);
    ClaimIsSaid(d, "tenant_scope", "user");
    ClaimIsSaid(d, "tenant_scope", "system");
  }

  lemma NameIsRead(d: Document, key: string)
    requires Struct(d).Some? && key in TEXT_CLAIMS
    ensures IsNamed(d, key) <==> Trim(TextOf(Struct(d).value, key)) != ""
  {
    assert Trim("") == "";
    ClaimIsSaid(d, key, "");
    forall s | Says(d, key, s)
      ensures TextOf(Struct(d).value, key) == s
    {
      ClaimIsSaid(d, key, s);
    }
  }

  lemma ScopeIsRead(d: Document, scope: string)
    requires Struct(d).Some?
    ensures Carries(d, scope) <==> scope in Fields(TextOf(Struct(d).value, "scope"))
  {
    assert Fields("") == [];
    ClaimIsSaid(d, "scope", "");
    forall s | Says(d, "scope", s)
      ensures TextOf(Struct(d).value, "scope") == s
    {
      ClaimIsSaid(d, "scope", s);
    }
  }

  lemma TimesAreRead(p: Payload, key: string)
    ensures var t := TimeOf(p, key);
            t.Some? ==> exists seconds :: t == Some(seconds * S)
  {}

  lemma LifeIsRead(t: Token, now: int)
    requires Struct(t.document).Some?
    ensures var c := ClaimsOf(t);
            IsAlive(t.document, now) <==>
              && c.iat.Some? && c.exp.Some? && c.exp.value - c.iat.value <= 300 * S
              && c.iat.value - 30 * S <= now < c.exp.value + 30 * S
              && (c.nbf.Some? ==> c.nbf.value - 30 * S <= now)
  {
    var d, p := t.document, Struct(t.document).value;
    forall key: string, seconds | key in TIME_CLAIMS
      ensures Times(d, key, seconds) <==> TimeOf(p, key) == Some(seconds * S)
    {
      TimeIsSaid(d, key, seconds);
    }
    assert "iat" in TIME_CLAIMS && "exp" in TIME_CLAIMS && "nbf" in TIME_CLAIMS;
    TimesAreRead(p, "iat");
    TimesAreRead(p, "exp");
    TimesAreRead(p, "nbf");
  }

  /** What a receiver checks of a token is what its payload says. */
  lemma CredentialIsRead(t: Token, cfg: Config, now: int)
    requires IsReady(cfg)
    ensures Authentic(t, cfg, now) <==> IsServiceToken(t, cfg, now)
  {
    StructDecodes(t.document);
    if WellTyped(t.document) {
      AddressIsRead(t, cfg);
      NameIsRead(t.document, "sub");
      NameIsRead(t.document, "jti");
      LifeIsRead(t, now);
    }
  }

  lemma SufficiencyIsRead(t: Token, cfg: Config)
    requires IsReady(cfg) && WellTyped(t.document)
    ensures Suffices(t.document, cfg) <==>
              && ClaimsOf(t).namespace == cfg.namespace
              && forall i :: 0 <= i < |cfg.requiredScopes| ==> cfg.requiredScopes[i] in Fields(ClaimsOf(t).scope)
  {
    StructDecodes(t.document);
    AddressIsRead(t, cfg);
    forall scope
      ensures Carries(t.document, scope) <==> scope in Fields(ClaimsOf(t).scope)
    {
      ScopeIsRead(t.document, scope);
    }
  }

  /**
   * A receiver knows exactly the service tokens that are written for it and alive, and of these it accepts the ones
   * that carry what it asks for; the others are forbidden, and anything else is unknown to it.
   */
  lemma ServiceTokenIsAcceptedIff(t: Option<Token>, cfg: Config, now: int)
    ensures var known := IsReady(cfg) && t.Some? && IsServiceToken(t.value, cfg, now);
            StatusCode(Verify(t, cfg, now)) ==
              if !known then 401 else if Suffices(t.value.document, cfg) then 200 else 403
  {
    if IsReady(cfg) && t.Some? {
      CredentialIsRead(t.value, cfg, now);
      if IsServiceToken(t.value, cfg, now) { SufficiencyIsRead(t.value, cfg); }
    }
  }

  // ---- user tokens ----

  /** Genuine, of iam's users, and read within 30 s of its life. */
  ghost predicate IsUserToken(t: Token, wall: int) {
    var d := t.document;
    && t.genuine && Has(d, "iss", Json.Text("iam-service"))
    && (exists exp :: Has(d, "exp", Num(exp)) && wall < exp * S + 30 * S)
    && (forall v :: Has(d, "nbf", v) ==> v.Num? && v.seconds * S - 30 * S <= wall)
    && (forall v :: Has(d, "token_use", v) ==> v == Json.Text(""))
  }

  /** A user token is accepted exactly while it is alive. */
  lemma UserTokenIsAcceptedIff(t: Token, keyring: bool, wall: int)
    ensures ParseUser(Some(t), keyring, wall).Ok? <==> keyring && IsUserToken(t, wall)
  {
    var d, p := t.document, Exact(t.document);
    forall name: string, v
      ensures Has(d, name, v) <==> name in p && p[name] == v
    {
      ExactHas(d, name, v);
    }
    assert "exp" in p && p["exp"].Num? ==> Has(d, "exp", Num(p["exp"].seconds));
    assert "nbf" in p ==> Has(d, "nbf", p["nbf"]);
    assert "token_use" in p ==> Has(d, "token_use", p["token_use"]);
  }

  // ---- requests ----

  ghost predicate AllHex(s: string) {
    forall i :: 0 <= i < |s| ==> s[i] in "0123456789abcdefABCDEF"
  }

  /** Thirty-two hexadecimal digits in groups of 8, 4, 4, 4 and 12, with a hyphen between them. */
  ghost predicate IsTenantId(s: string) {
    && |s| == 36 && s[8] == s[13] == s[18] == s[23] == '-'
    && AllHex(s[..8]) && AllHex(s[9..13]) && AllHex(s[14..18]) && AllHex(s[19..23]) && AllHex(s[24..])
  }

  lemma GroupIsHex(s: string, from: nat, to: nat)
    requires from <= to <= |s|
    ensures AllHex(s[from..to]) <==> forall k :: from <= k < to ==> IsHex(s[k])
  {
    forall c: char
      ensures IsHex(c) <==> c in "0123456789abcdefABCDEF"
    {}
    var group := s[from..to];
    forall k | from <= k < to
      ensures s[k] == group[k - from]
    {}
  }

  lemma UuidIsTenantId(s: string)
    ensures IsUuid(s) <==> IsTenantId(s)
  {
    if |s| == 36 {
      GroupIsHex(s, 0, 8);
      GroupIsHex(s, 9, 13);
      GroupIsHex(s, 14, 18);
      GroupIsHex(s, 19, 23);
      GroupIsHex(s, 24, 36);
      assert s[..8] == s[0..8] && s[24..] == s[24..36];
    }
  }

  /** What a route asks of a system token: its mode decides whether a tenant must be named or must not be. */
  ghost predicate SystemMayEnter(r: Route, header: string) {
    || (r.system.SystemGlobal? && header == "")
    || (r.system.SystemPerTenant? && IsTenantId(header))
  }

  /** The user whose token is u belongs to the namespace that the route serves, and to the tenant that is named. */
  ghost predicate BelongsHere(r: Route, u: Document, header: string) {
    && Has(u, "namespace", Json.Text(if r.userNamespace != "" then r.userNamespace else r.service.namespace))
    && exists tenant :: Has(u, "tenant_id", Json.Text(tenant)) && tenant != "" && (header == "" || header == tenant)
  }

  ghost predicate IsBearer(decode: Decoder, q: Request, bearer: string) {
    && q.authorization == "Bearer " + bearer && Trim(bearer) != ""
    && decode(bearer).Some? && IsUserToken(decode(bearer).value, q.wall)
  }

  ghost predicate UsersMayAsk(r: Route, d: Document) {
    r.allowUser && forall scope :: scope in r.systemOnlyScopes ==> !Carries(d, scope)
  }

  /** The request comes with a service token that this receiver knows. */
  ghost predicate IsKnown(r: Route, decode: Decoder, q: Request) {
    && Trim(q.token) != "" && !r.denySub.invalid && IsReady(r.service)
    && decode(q.token).Some? && IsServiceToken(decode(q.token).value, r.service, q.now)
  }

  ghost predicate IsDenied(r: Route, d: Document) {
    exists sub :: Says(d, "sub", sub) && sub in r.denySub.subs
  }

  ghost predicate IsSystem(d: Document) { Says(d, "tenant_scope", "system") }

  ghost predicate UserMayEnter(r: Route, decode: Decoder, d: Document, q: Request) {
    && UsersMayAsk(r, d)
    && exists bearer :: IsBearer(decode, q, bearer) && BelongsHere(r, decode(bearer).value.document, q.tenantHeader)
  }

  ghost predicate MayEnter(r: Route, decode: Decoder, q: Request) {
    && IsKnown(r, decode, q)
    && var d := decode(q.token).value.document;
    && Suffices(d, r.service) && !IsDenied(r, d)
    && if IsSystem(d) then SystemMayEnter(r, q.tenantHeader) else UserMayEnter(r, decode, d, q)
  }

  /** Its service token is good enough, but the service is denied, or no user stands behind the call of one. */
  ghost predicate IsTurnedAway(r: Route, decode: Decoder, d: Document, q: Request) {
    && Suffices(d, r.service)
    && (IsDenied(r, d) || (!IsSystem(d) && UsersMayAsk(r, d) && !exists bearer :: IsBearer(decode, q, bearer)))
  }

  lemma SystemEntersIff(r: Route, p: Principal, header: string)
    ensures StatusCode(AuthenticateSystem(r, p, header)) == if SystemMayEnter(r, header) then 200 else 403
  {
    UuidIsTenantId(header);
  }

  lemma UserBelongs(r: Route, u: Document, header: string)
    requires Trim(r.service.namespace) != ""
    ensures BelongsHere(r, u, header) <==>
              && TextOf(Exact(u), "namespace") == UserNamespace(r) && TextOf(Exact(u), "tenant_id") != ""
              && (header == "" || header == TextOf(Exact(u), "tenant_id"))
  {
    assert Trim("") == "";
    var p := Exact(u);
    forall name: string, v
      ensures Has(u, name, v) <==> name in p && p[name] == v
    {
      ExactHas(u, name, v);
    }
    var tenant := TextOf(p, "tenant_id");
    assert tenant != "" ==> Has(u, "tenant_id", Json.Text(tenant));
  }

  lemma BearerIsFound(authorization: string, bearer: string)
    ensures authorization == "Bearer " + bearer ==> BearerOf(authorization) == bearer
    ensures BearerOf(authorization) != "" ==> authorization == "Bearer " + BearerOf(authorization)
  {}

  lemma UserEntersIff(r: Route, decode: Decoder, p: Principal, d: Document, q: Request)
    requires r.service.keyring && Trim(r.service.namespace) != ""
    requires forall scope :: Carries(d, scope) <==> scope in p.scopes
    ensures StatusCode(AuthenticateUser(r, decode, p, q)) ==
              if UserMayEnter(r, decode, d, q) then 200
              else if UsersMayAsk(r, d) && !exists bearer :: IsBearer(decode, q, bearer) then 401
              else 403
  {
    var bearer := BearerOf(q.authorization);
    assert Trim("") == "";
    forall b: string
      ensures q.authorization == "Bearer " + b && b != "" <==> b == bearer && b != ""
    {
      BearerIsFound(q.authorization, b);
    }
    if decode(bearer).Some? {
      UserTokenIsAcceptedIff(decode(bearer).value, r.service.keyring, q.wall);
      UserBelongs(r, decode(bearer).value.document, q.tenantHeader);
    }
    assert IsBearer(decode, q, bearer) || !exists b :: IsBearer(decode, q, b);
    assert (forall scope :: scope in r.systemOnlyScopes ==> scope !in p.scopes) <==>
           !exists i :: 0 <= i < |r.systemOnlyScopes| && r.systemOnlyScopes[i] in p.scopes;
  }

  lemma PrincipalIsSaid(t: Token, cfg: Config, now: int)
    requires Verify(Some(t), cfg, now).Ok?
    ensures var p, d := Verify(Some(t), cfg, now).value, t.document;
            && Says(d, "sub", p.subject) && p.audience == cfg.audience && p.namespace == cfg.namespace
            && Says(d, "jti", p.id) && p.kid == t.kid
            && (exists exp :: Times(d, "exp", exp) && p.expiresAt == exp * S)
            && (if IsSystem(d) then p.tenantScope.System? else p.tenantScope.User?)
            && forall scope :: Carries(d, scope) <==> scope in p.scopes
  {
    var d, p := t.document, Struct(t.document).value;
    assert Trim("") == "";
    ClaimIsSaid(d, "sub", "");
    ClaimIsSaid(d, "jti", "");
    ClaimIsSaid(d, "tenant_scope", "system");
    TimesAreRead(p, "exp");
    var exp :| TimeOf(p, "exp") == Some(exp * S);
    TimeIsSaid(d, "exp", exp);
    forall scope
      ensures Carries(d, scope) <==> scope in Fields(ClaimsOf(t).scope)
    {
      ScopeIsRead(d, scope);
    }
  }

  /** Only one text is read from a name. */
  lemma OneSubject(d: Document, sub: string)
    requires Says(d, "sub", sub)
    ensures forall s :: Says(d, "sub", s) ==> s == sub
  {
    var i :| SaysAt(d, "sub", sub, i);
    forall s | Says(d, "sub", s)
      ensures s == sub
    {
      var j :| SaysAt(d, "sub", s, j);
    }
  }

  lemma VerifiedEntersIff(r: Route, decode: Decoder, p: Principal, d: Document, q: Request)
    requires IsReady(r.service) && !r.denySub.invalid && Says(d, "sub", p.subject)
    requires if IsSystem(d) then p.tenantScope.System? else p.tenantScope.User?
    requires forall scope :: Carries(d, scope) <==> scope in p.scopes
    ensures StatusCode(Admit(r, decode, Ok(p), q)) ==
              if IsDenied(r, d) then 401
              else if IsSystem(d) then if SystemMayEnter(r, q.tenantHeader) then 200 else 403
              else if UserMayEnter(r, decode, d, q) then 200
              else if UsersMayAsk(r, d) && !exists bearer :: IsBearer(decode, q, bearer) then 401
              else 403
  {
    OneSubject(d, p.subject);
    if IsSystem(d) { SystemEntersIff(r, p, q.tenantHeader); } else { UserEntersIff(r, decode, p, d, q); }
  }

  /** A request is let in, unknown or forbidden exactly as its two payloads, its headers and the clocks say. */
  lemma RequestEntersIff(r: Route, decode: Decoder, q: Request)
    ensures StatusCode(Authenticate(r, decode, q)) ==
              if MayEnter(r, decode, q) then 200
              else if !IsKnown(r, decode, q) || IsTurnedAway(r, decode, decode(q.token).value.document, q) then 401
              else 403
  {
    ServiceTokenIsAcceptedIff(decode(q.token), r.service, q.now);
    if IsKnown(r, decode, q) && Suffices(decode(q.token).value.document, r.service) {
      PrincipalIsSaid(decode(q.token).value, r.service, q.now);
      VerifiedEntersIff(r, decode, Verified(r, decode, q).value, decode(q.token).value.document, q);
    }
  }

  // ---- what an accepted request is given ----

  ghost predicate RolesAreListed(u: Document, roles: seq<string>) {
    && (forall items :: Has(u, "roles", Items(items)) ==> roles == Texts(items))
    && (roles != [] ==> exists items :: Has(u, "roles", Items(items)))
  }

  lemma RolesAreRead(u: Document)
    ensures RolesAreListed(u, RolesOf(Exact(u)))
  {
    var p := Exact(u);
    forall v
      ensures Has(u, "roles", v) <==> "roles" in p && p["roles"] == v
    {
      ExactHas(u, "roles", v);
    }
    assert "roles" in p && p["roles"].Items? ==> Has(u, "roles", Items(p["roles"].items));
  }

  ghost predicate IsSystemGrant(r: Route, x: Accepted, header: string) {
    && x.userClaims.None? && x.roles == []
    && x.tenant == if r.system.SystemPerTenant? then LowerAll(header) else ""
  }

  ghost predicate IsUserGrant(u: Document, x: Accepted) {
    && x.userClaims.Some? && (forall name, v :: Has(u, name, v) <==> (name, v) in x.userClaims.value.Items)
    && Has(u, "tenant_id", Json.Text(x.tenant)) && RolesAreListed(u, x.roles)
  }

  lemma UserIsGranted(r: Route, decode: Decoder, p: Principal, q: Request)
    ensures var x := AuthenticateUser(r, decode, p, q);
            x.Ok? ==> IsUserGrant(decode(BearerOf(q.authorization)).value.document, x.value)
  {
    UserSide(r, decode, p, q);
    var x := AuthenticateUser(r, decode, p, q);
    if x.Ok? {
      var u := decode(BearerOf(q.authorization)).value.document;
      RolesAreRead(u);
      forall name, v
        ensures Has(u, name, v) <==> name in Exact(u) && Exact(u)[name] == v
      {
        ExactHas(u, name, v);
      }
    }
  }

  /**
   * An accepted request gets the service its own token names and, in user scope, the tenant, the roles and every other
   * member of the user's payload; in system scope at most the tenant its header names, in lower case.
   */
  lemma AcceptedIsGranted(r: Route, decode: Decoder, q: Request)
    ensures var x, t := Authenticate(r, decode, q), decode(q.token);
            x.Ok? ==>
              t.Some? &&
              var d := t.value.document;
              && Says(d, "sub", x.value.service.subject)
              && (forall scope :: Carries(d, scope) <==> scope in x.value.service.scopes)
              && if IsSystem(d) then IsSystemGrant(r, x.value, q.tenantHeader)
                 else exists bearer :: IsBearer(decode, q, bearer)
                                       && IsUserGrant(decode(bearer).value.document, x.value)
  {
    var x := Authenticate(r, decode, q);
    if x.Ok? {
      var p := Verified(r, decode, q).value;
      PrincipalIsSaid(decode(q.token).value, r.service, q.now);
      if IsSystem(decode(q.token).value.document) {
        SystemSide(r, p, q.tenantHeader);
      } else {
        UserIsGranted(r, decode, p, q);
        BearerIsFound(q.authorization, BearerOf(q.authorization));
        UserTokenIsAcceptedIff(decode(BearerOf(q.authorization)).value, r.service.keyring, q.wall);
        assert IsBearer(decode, q, BearerOf(q.authorization));
      }
    }
  }
}
