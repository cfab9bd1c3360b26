/** Verification of service tokens, and the contract that keeps user tokens apart from them. */
module ServiceToken {
  import opened Wrappers
  import opened Text

  const SECOND: int := 1_000_000_000
  const TTL: int := 300 * SECOND
  const LEEWAY: int := 30 * SECOND

  const ISSUER: string := "iam-service/s2s"
  const USER_ISSUER: string := "iam-service"
  const TOKEN_USE: string := "service"
  const TOKEN_TYPE: string := "s2s+jwt"
  const ASSERTION_AUDIENCE: string := "iam-service/s2s/token"

  datatype Json = Empty | Text(text: string) | Num(seconds: int) | Items(items: seq<Json>) | Other

  type Payload = map<string, Json>

  // The members of a JSON object in the order in which they are written; names may repeat.
  type Document = seq<(string, Json)>

  // What the JWT library says of a token string: genuine means signed with RS256 by a key of iam's keyring.
  datatype Token = Token(genuine: bool, typ: string, kid: string, document: Document)

  // None stands for a string that is not a JWT at all.
  type Decoder = string -> Option<Token>

  datatype Failure = Unauthenticated | Forbidden

  datatype Config = Config(keyring: bool, audience: string, namespace: string,
                           requiredScopes: seq<string>, anyScope: bool)

  datatype Claims = Claims(iss: string, sub: string, aud: string, scope: string, tokenUse: string, tenantScope: string,
                           namespace: string, iat: Option<int>, nbf: Option<int>, exp: Option<int>, id: string)

  datatype TenantScope = User | System

  datatype Principal = Principal(subject: string, audience: string, scopes: seq<string>, tenantScope: TenantScope,
                                 namespace: string, id: string, kid: string, expiresAt: int)

  function StatusCode<T>(r: Result<T, Failure>): int {
    if r.Ok? then 200 else if r.error.Forbidden? then 403 else 401
  }

  predicate ValidConfig(cfg: Config) {
    && cfg.keyring && Trim(cfg.audience) != "" && Trim(cfg.namespace) != ""
    && cfg.audience != ASSERTION_AUDIENCE
    && (cfg.requiredScopes != [] || cfg.anyScope)
  }

  // ---- two ways of reading a payload ----

  /** Into a map: names as they are, and the last of equal ones counts. */
  function Exact(d: Document): Payload {
    if d == [] then map[] else Exact(d[..|d| - 1])[d[|d| - 1].0 := d[|d| - 1].1]
  }

  /** encoding/json takes two letters beyond ASCII for a k and an s. */
  function FoldChar(c: char): char {
    if c as int == 0x212A then 'k' else if c as int == 0x17F then 's' else Lower(c)
  }

  function FoldName(name: string): (key: string)
    ensures |key| == |name| && forall i :: 0 <= i < |name| ==> key[i] == FoldChar(name[i])
  {
    seq(|name|, i requires 0 <= i < |name| => FoldChar(name[i]))
  }

  /** c is the small letter k, its capital, or one of the two letters that stand for k and s. */
  ghost predicate SameLetter(c: char, k: char) {
    || c == k || ('A' <= c <= 'Z' && 'a' <= k <= 'z' && c - 'A' == k - 'a')
    || (c as int == 0x212A && k == 'k') || (c as int == 0x17F && k == 's')
  }

  /** A name in small letters is read from any name with the same letters in any case. */
  lemma NameIsReadIff(name: string, key: string)
    requires forall i :: 0 <= i < |key| ==> 'a' <= key[i] <= 'z' || key[i] == '_'
    ensures FoldName(name) == key <==> |name| == |key| && forall i :: 0 <= i < |key| ==> SameLetter(name[i], key[i])
  {}

  const TEXT_CLAIMS: seq<string> := ["iss", "sub", "aud", "scope", "token_use", "tenant_scope", "namespace", "jti"]
  const TIME_CLAIMS: seq<string> := ["iat", "nbf", "exp"]

  /**
   * Into a struct: names are taken without regard to case, and the last member that names a field counts. A value of
   * the wrong type makes the whole payload undecodable; a null leaves a text as it was and takes a time away.
   */
  function Struct(d: Document): Option<Payload> {
    if d == [] then Some(map[])
    else
      var p, key, v := Struct(d[..|d| - 1]), FoldName(d[|d| - 1].0), d[|d| - 1].1;
      if p.None? then None
      else if key in TEXT_CLAIMS then
        if v.Empty? then p else if v.Text? then Some(p.value[key := v]) else None
      else if key in TIME_CLAIMS then
        if v.Empty? || v.Num? then Some(p.value[key := v]) else None
      else p
  }

  function TextOf(p: Payload, name: string): string {
    if name in p && p[name].Text? then p[name].text else ""
  }

  function TimeOf(p: Payload, name: string): Option<int> {
    if name in p && p[name].Num? then Some(p[name].seconds * SECOND) else None
  }

  function Decoded(p: Payload): Claims {
    Claims(TextOf(p, "iss"), TextOf(p, "sub"), TextOf(p, "aud"), TextOf(p, "scope"), TextOf(p, "token_use"),
           TextOf(p, "tenant_scope"), TextOf(p, "namespace"), TimeOf(p, "iat"), TimeOf(p, "nbf"), TimeOf(p, "exp"),
           TextOf(p, "jti"))
  }

  /** The claims a receiver sees; an undecodable payload has none. */
  function ClaimsOf(t: Token): Claims {
    Decoded(Struct(t.document).GetOr(map[]))
  }

  /** The library's checks on times, each with the leeway; exp is required. */
  predicate Timely(c: Claims, now: int) {
    && c.exp.Some? && now < c.exp.value + LEEWAY
    && (c.nbf.Some? ==> now >= c.nbf.value - LEEWAY)
    && (c.iat.Some? ==> now >= c.iat.value - LEEWAY)
  }

  /** Everything that makes a token no credential for this receiver: 401. */
  predicate Authentic(t: Token, cfg: Config, now: int) {
    && t.genuine && Struct(t.document).Some? &&
    var c := ClaimsOf(t);
    && c.iss == ISSUER && Timely(c, now)
    && t.typ == TOKEN_TYPE && c.tokenUse == TOKEN_USE
    && c.iat.Some? && c.exp.value - c.iat.value <= TTL
    && c.aud == cfg.audience
    && Trim(c.sub) != "" && Trim(c.id) != ""
    && (c.tenantScope == "user" || c.tenantScope == "system")
  }

  function Verify(t: Option<Token>, cfg: Config, now: int): Result<Principal, Failure> {
    if !ValidConfig(cfg) || t.None? || !Authentic(t.value, cfg, now) then Err(Unauthenticated)
    else
      var c := ClaimsOf(t.value);
      var p := Principal(c.sub, c.aud, Fields(c.scope), if c.tenantScope == "user" then User else System,
                         c.namespace, c.id, t.value.kid, c.exp.value);
      if c.namespace != cfg.namespace then Err(Forbidden)
      else if exists i :: 0 <= i < |cfg.requiredScopes| && cfg.requiredScopes[i] !in p.scopes then Err(Forbidden)
      else Ok(p)
  }

  predicate UserClaims(p: Payload) {
    ("token_use" in p ==> p["token_use"] == Text("")) && "iss" in p && p["iss"] == Text(USER_ISSUER)
  }

  /** now is the wall clock: unlike Verify, the check of a user token takes no clock of the receiver. */
  function ParseUser(t: Option<Token>, keyring: bool, now: int): Result<Payload, Failure> {
    if !keyring || t.None? || !t.value.genuine then Err(Unauthenticated)
    else
      var p := Exact(t.value.document);
      if !("exp" in p && p["exp"].Num? && now < p["exp"].seconds * SECOND + LEEWAY) then Err(Unauthenticated)
      else if "nbf" in p && !(p["nbf"].Num? && now >= p["nbf"].seconds * SECOND - LEEWAY) then Err(Unauthenticated)
      else if !UserClaims(p) then Err(Unauthenticated)
      else Ok(p)
  }

  // ---- no token is both ----

  /** Written otherwise, but read into the same field. */
  predicate IsAlias(name: string, key: string) {
    name != key && FoldName(name) == key
  }

  predicate Aliased(d: Document, key: string) {
    exists i :: 0 <= i < |d| && IsAlias(d[i].0, key)
  }

  lemma ClaimsFoldToThemselves()
    ensures FoldName("iss") == "iss" && FoldName("token_use") == "token_use"
  {}

  /** Without an alias, what the map has of a text is what the struct has, if both have one. */
  lemma {:induction false} ReadingsAgree(d: Document, key: string)
    requires !Aliased(d, key) && key in TEXT_CLAIMS && FoldName(key) == key && Struct(d).Some?
    ensures key in Exact(d) && Exact(d)[key].Text? ==> TextOf(Struct(d).value, key) == Exact(d)[key].text
    ensures key !in Exact(d) ==> key !in Struct(d).value
  {
    if d != [] {
      var front := d[..|d| - 1];
      assert forall i :: 0 <= i < |front| ==> front[i] == d[i];
      ReadingsAgree(front, key);
      assert !IsAlias(d[|d| - 1].0, key);
    }
  }

  /** A token that passes both checks writes iss and token_use in two ways. */
  lemma BothNeedsAliases(t: Token, cfg: Config, now: int, keyring: bool, wall: int)
    requires Verify(Some(t), cfg, now).Ok? && ParseUser(Some(t), keyring, wall).Ok?
    ensures Aliased(t.document, "iss") && Aliased(t.document, "token_use")
  {
    ClaimsFoldToThemselves();
    if !Aliased(t.document, "iss") { ReadingsAgree(t.document, "iss"); }
    if !Aliased(t.document, "token_use") { ReadingsAgree(t.document, "token_use"); }
  }

  /**
   * No token is both a service token and a user token, whatever the clocks and the receivers, unless its payload
   * writes both iss and token_use in another case as well.
   */
  lemma NoTokenIsBoth(t: Option<Token>, cfg: Config, now: int, keyring: bool, wall: int)
    ensures Verify(t, cfg, now).Ok? && ParseUser(t, keyring, wall).Ok? ==>
              Aliased(t.value.document, "iss") && Aliased(t.value.document, "token_use")
  {
    if Verify(t, cfg, now).Ok? && ParseUser(t, keyring, wall).Ok? {
      BothNeedsAliases(t.value, cfg, now, keyring, wall);
    }
  }

  /** An accepted service token was issued at most 30 s in the future and less than 330 s ago. */
  lemma AcceptedIsRecent(t: Token, cfg: Config, now: int)
    requires Verify(Some(t), cfg, now).Ok?
    ensures var iat := ClaimsOf(t).iat;
            iat.Some? && iat.value - LEEWAY <= now < iat.value + TTL + LEEWAY
  {}

  /** A receiver answers 403 only to an authentic token, and 200 only to one that carries every required scope. */
  lemma ForbiddenIsAuthentic(t: Option<Token>, cfg: Config, now: int)
    ensures StatusCode(Verify(t, cfg, now)) == 403 ==> t.Some? && Authentic(t.value, cfg, now)
    ensures StatusCode(Verify(t, cfg, now)) == 200 ==>
              forall s :: s in cfg.requiredScopes ==> s in Fields(ClaimsOf(t.value).scope)
    ensures StatusCode(Verify(t, cfg, now)) in {200, 401, 403}
  {
    if Verify(t, cfg, now).Ok? {
      forall s | s in cfg.requiredScopes
        ensures s in Fields(ClaimsOf(t.value).scope)
      {
        var i :| 0 <= i < |cfg.requiredScopes| && cfg.requiredScopes[i] == s;
      }
    }
  }

  /** An accepted token is genuine, of the service type, and made out to this receiver by a named service. */
  lemma AcceptedIsForThisReceiver(t: Option<Token>, cfg: Config, now: int)
    ensures var r := Verify(t, cfg, now);
            r.Ok? ==>
              && t.Some? && t.value.genuine && t.value.typ == TOKEN_TYPE
              && r.value.audience == cfg.audience && r.value.namespace == cfg.namespace
              && Trim(r.value.subject) != "" && Trim(r.value.id) != "" && cfg.audience != ASSERTION_AUDIENCE
  {}

  /** No token is accepted by receivers of different names or namespaces, at any two instants. */
  lemma OneReceiverPerToken(t: Option<Token>, c: Config, d: Config, now: int, later: int)
    ensures Verify(t, c, now).Ok? && Verify(t, d, later).Ok? ==> c.audience == d.audience && c.namespace == d.namespace
  {
    AcceptedIsForThisReceiver(t, c, now);
    AcceptedIsForThisReceiver(t, d, later);
  }

  ghost predicate Includes(more: seq<string>, fewer: seq<string>) {
    forall s :: s in fewer ==> s in more
  }

  /**
   * Asking for more scopes never accepts more, except that it can turn a route that declares none, and so
   * rejects everything, into one that works: the exact exception is a config without scopes and without anyScope.
   */
  lemma MoreScopesAcceptNoMore(t: Option<Token>, cfg: Config, more: seq<string>, now: int)
    requires Includes(more, cfg.requiredScopes)
    requires cfg.requiredScopes != [] || cfg.anyScope
    ensures var stricter := Verify(t, cfg.(requiredScopes := more), now);
            stricter.Ok? ==> Verify(t, cfg, now) == stricter
  {
    var strict := cfg.(requiredScopes := more);
    if Verify(t, strict, now).Ok? {
      ForbiddenIsAuthentic(t, strict, now);
      assert Authentic(t.value, cfg, now);
      forall i | 0 <= i < |cfg.requiredScopes|
        ensures cfg.requiredScopes[i] in Fields(ClaimsOf(t.value).scope)
      {
        assert cfg.requiredScopes[i] in more;
      }
    }
  }
}
