/** The receiver's decision on a request that carries a service token. */
module Receiver {
  import opened Wrappers
  import opened Text
  import opened ServiceToken

  datatype SystemMode = SystemDenied | SystemGlobal | SystemPerTenant

  datatype DenyList = DenyList(subs: set<string>, invalid: bool) {
    predicate Denies(sub: string) { invalid || sub in subs }
  }

  datatype Route = Route(service: Config, allowUser: bool, system: SystemMode, systemOnlyScopes: seq<string>,
                         userNamespace: string, denySub: DenyList)

  datatype Accepted = Accepted(service: Principal, tenant: string, userClaims: Option<Payload>, roles: seq<string>)

  /** The namespace in force for an accepted request. */
  function Namespace(a: Accepted): string {
    if a.userClaims.Some? then TextOf(a.userClaims.value, "namespace") else a.service.namespace
  }

  function Texts(items: seq<Json>): seq<string> {
    if items == [] then []
    else Texts(items[..|items| - 1]) + if items[|items| - 1].Text? then [items[|items| - 1].text] else []
  }

  function RolesOf(p: Payload): seq<string> {
    if "roles" in p && p["roles"].Items? then Texts(p["roles"].items) else []
  }

  /** The texts of a list are its roles, as often as they occur; anything else is passed over. */
  lemma {:induction false} RolesAreTheTexts(items: seq<Json>, role: string)
    ensures multiset(Texts(items))[role] == multiset(items)[Json.Text(role)]
  {
    if items != [] {
      RolesAreTheTexts(items[..|items| - 1], role);
      assert items == items[..|items| - 1] + [items[|items| - 1]];
    }
  }

  /** Roles keep the order in which the list has them. */
  lemma {:induction false} RolesKeepTheirOrder(items: seq<Json>, more: seq<Json>)
    ensures Texts(items + more) == Texts(items) + Texts(more)
    ensures forall role :: Texts([Json.Text(role)]) == [role]
  {
    if more == [] {
      assert items + more == items;
    } else {
      var front, n := more[..|more| - 1], |more| - 1;
      RolesKeepTheirOrder(items, front);
      assert (items + more)[..|items + more| - 1] == items + front && (items + more)[|items + more| - 1] == more[n];
    }
    forall role
      ensures Texts([Json.Text(role)]) == [role]
    {
      assert [Json.Text(role)][..0] == [];
    }
  }

  predicate IsHex(c: char) {
    '0' <= c <= '9' || 'a' <= c <= 'f' || 'A' <= c <= 'F'
  }

  /** The 36 characters of a UUID in its usual form. */
  predicate IsUuid(s: string) {
    |s| == 36 && forall i :: 0 <= i < 36 ==> if i in {8, 13, 18, 23} then s[i] == '-' else IsHex(s[i])
  }

  /** Bearer is the only scheme. */
  function BearerOf(authorization: string): string {
    if "Bearer " <= authorization then authorization[7..] else ""
  }

  // A request as the adapter hands it over, at an instant of the receiver's clock, which judges the service
  // token, and of the wall clock, which judges the user's.
  datatype Request = Request(token: string, authorization: string, tenantHeader: string, now: int, wall: int)

  function AuthenticateSystem(r: Route, p: Principal, header: string): Result<Accepted, Failure> {
    match r.system
    case SystemGlobal => if header != "" then Err(Forbidden) else Ok(Accepted(p, "", None, []))
    case SystemPerTenant =>
      if header == "" || !IsUuid(header) then Err(Forbidden) else Ok(Accepted(p, LowerAll(header), None, []))
    case SystemDenied => Err(Forbidden)
  }

  function UserNamespace(r: Route): string {
    if r.userNamespace == "" then r.service.namespace else r.userNamespace
  }

  function AuthenticateUser(r: Route, decode: Decoder, p: Principal, q: Request): Result<Accepted, Failure> {
    if !r.allowUser then Err(Forbidden)
    else if exists i :: 0 <= i < |r.systemOnlyScopes| && r.systemOnlyScopes[i] in p.scopes then Err(Forbidden)
    else
      var bearer := BearerOf(q.authorization);
      if Trim(bearer) == "" then Err(Unauthenticated)
      else
        var user := ParseUser(decode(bearer), r.service.keyring, q.wall);
        if user.Err? then Err(user.error)
        else
          var claims := user.value;
          var tenant := TextOf(claims, "tenant_id");
          if TextOf(claims, "namespace") != UserNamespace(r) then Err(Forbidden)
          else if tenant == "" then Err(Forbidden)
          else if q.tenantHeader != "" && q.tenantHeader != tenant then Err(Forbidden)
          else Ok(Accepted(p, tenant, Some(claims), RolesOf(claims)))
  }

  /** The decision once the service token has been verified, or not. */
  function Admit(r: Route, decode: Decoder, verified: Result<Principal, Failure>, q: Request): Result<Accepted, Failure>
  {
    if verified.Err? then Err(verified.error)
    else
      var p := verified.value;
      if r.denySub.Denies(p.subject) then Err(Unauthenticated)
      else if p.tenantScope.System? then AuthenticateSystem(r, p, q.tenantHeader)
      else AuthenticateUser(r, decode, p, q)
  }

  function Verified(r: Route, decode: Decoder, q: Request): Result<Principal, Failure> {
    Verify(decode(q.token), r.service, q.now)
  }

  function Authenticate(r: Route, decode: Decoder, q: Request): Result<Accepted, Failure> {
    if Trim(q.token) == "" || r.denySub.invalid then Err(Unauthenticated)
    else Admit(r, decode, Verified(r, decode, q), q)
  }

  /** The request's service token is a system token. */
  ghost predicate IsSystemToken(decode: Decoder, q: Request) {
    decode(q.token).Some? && ClaimsOf(decode(q.token).value).tenantScope == "system"
  }

  lemma ScopeIsDecoded(r: Route, decode: Decoder, q: Request)
    ensures var v := Verified(r, decode, q);
            v.Ok? ==> (v.value.tenantScope.System? <==> IsSystemToken(decode, q))
  {}

  // ---- system scope ----

  /** Whatever the Authorization header says, a system token gets the same answer. */
  lemma SystemIgnoresAuthorization(r: Route, decode: Decoder, q: Request, authorization: string)
    requires IsSystemToken(decode, q)
    ensures Authenticate(r, decode, q) == Authenticate(r, decode, q.(authorization := authorization))
  {
    ScopeIsDecoded(r, decode, q);
  }

  ghost predicate HasNoUser(r: Route, x: Accepted, header: string) {
    && x.roles == [] && x.userClaims.None?
    && match r.system
       case SystemDenied => false
       case SystemGlobal => header == "" && x.tenant == ""
       case SystemPerTenant => IsUuid(x.tenant) && LowerAll(x.tenant) == x.tenant && EqualFold(x.tenant, header)
  }

  lemma SystemSide(r: Route, p: Principal, header: string)
    ensures var x := AuthenticateSystem(r, p, header);
            x.Ok? ==> HasNoUser(r, x.value, header) && x.value.service == p
  {
    var l := LowerAll(header);
    assert LowerAll(l) == l;
    assert IsUuid(header) ==> IsUuid(l);
  }

  /** A system request never carries user rights, and its tenant, if any, is a canonical UUID from the header. */
  lemma SystemHasNoUser(r: Route, decode: Decoder, q: Request)
    requires IsSystemToken(decode, q)
    ensures Authenticate(r, decode, q).Ok? ==> HasNoUser(r, Authenticate(r, decode, q).value, q.tenantHeader)
  {
    ScopeIsDecoded(r, decode, q);
    if Verified(r, decode, q).Ok? { SystemSide(r, Verified(r, decode, q).value, q.tenantHeader); }
  }

  // ---- user scope ----

  lemma UserSide(r: Route, decode: Decoder, p: Principal, q: Request)
    ensures var x := AuthenticateUser(r, decode, p, q);
            x.Ok? ==>
              var user := decode(BearerOf(q.authorization));
              user.Some? &&
              var claims := Exact(user.value.document);
              && ParseUser(user, r.service.keyring, q.wall) == Ok(claims)
              && x.value == Accepted(p, TextOf(claims, "tenant_id"), Some(claims), RolesOf(claims))
              && x.value.tenant != "" && TextOf(claims, "namespace") == UserNamespace(r)
  {}

  /** What an accepted user request is given, all of it taken from the payload of its Bearer. */
  lemma UserIsTheBearer(r: Route, decode: Decoder, q: Request)
    requires !IsSystemToken(decode, q)
    ensures var x, user := Authenticate(r, decode, q), decode(BearerOf(q.authorization));
            x.Ok? ==>
              && user.Some? && x.value.userClaims == Some(Exact(user.value.document))
              && x.value.roles == RolesOf(Exact(user.value.document))
              && x.value.tenant == TextOf(Exact(user.value.document), "tenant_id") && x.value.tenant != ""
              && Namespace(x.value) == TextOf(Exact(user.value.document), "namespace") == UserNamespace(r)
  {
    ScopeIsDecoded(r, decode, q);
    if Verified(r, decode, q).Ok? { UserSide(r, decode, Verified(r, decode, q).value, q); }
  }

  /** In user scope the tenant, the roles and the namespace are functions of the Bearer alone. */
  lemma UserRightsComeFromTheBearer(r: Route, s: Route, decode: Decoder, q: Request, p: Request)
    requires !IsSystemToken(decode, q) && !IsSystemToken(decode, p) && q.authorization == p.authorization
    ensures var x, y := Authenticate(r, decode, q), Authenticate(s, decode, p);
            x.Ok? && y.Ok? ==>
              && x.value.tenant == y.value.tenant && x.value.roles == y.value.roles
              && Namespace(x.value) == Namespace(y.value) && x.value.userClaims == y.value.userClaims
  {
    UserIsTheBearer(r, decode, q);
    UserIsTheBearer(s, decode, p);
  }

  lemma HeaderOnlyRejects(r: Route, decode: Decoder, verified: Result<Principal, Failure>, q: Request)
    requires verified.Ok? ==> verified.value.tenantScope.User?
    ensures var free, bound := Admit(r, decode, verified, q.(tenantHeader := "")), Admit(r, decode, verified, q);
            var mismatch := free.Ok? && q.tenantHeader != "" && q.tenantHeader != free.value.tenant;
            bound == if mismatch then Err(Forbidden) else free
  {}

  /** In user scope X-Tenant-ID only turns acceptance into rejection, and exactly when it names another tenant. */
  lemma TenantHeaderOnlyRejects(r: Route, decode: Decoder, q: Request)
    requires !IsSystemToken(decode, q)
    ensures var free, bound := Authenticate(r, decode, q.(tenantHeader := "")), Authenticate(r, decode, q);
            var mismatch := free.Ok? && q.tenantHeader != "" && q.tenantHeader != free.value.tenant;
            bound == if mismatch then Err(Forbidden) else free
  {
    ScopeIsDecoded(r, decode, q);
    HeaderOnlyRejects(r, decode, Verified(r, decode, q), q);
  }

  // ---- both scopes ----

  lemma AdmittedIsVerified(r: Route, decode: Decoder, verified: Result<Principal, Failure>, q: Request)
    ensures var x := Admit(r, decode, verified, q);
            x.Ok? ==>
              && verified == Ok(x.value.service) && !r.denySub.Denies(x.value.service.subject)
              && x == if x.value.service.tenantScope.System? then AuthenticateSystem(r, x.value.service, q.tenantHeader)
                      else AuthenticateUser(r, decode, x.value.service, q)
  {
    if verified.Ok? { UserSide(r, decode, verified.value, q); }
  }

  lemma ReservedScopes(r: Route, decode: Decoder, p: Principal, q: Request, scope: string)
    requires scope in r.systemOnlyScopes && scope in p.scopes
    ensures AuthenticateUser(r, decode, p, q).Err?
  {
    var i :| 0 <= i < |r.systemOnlyScopes| && r.systemOnlyScopes[i] == scope;
  }

  /**
   * An accepted request comes from a verified service that is not denied, of a kind the route is open to, in the
   * namespace the route expects; a user's namespace is checked as well, and the user's token is not the service's,
   * unless that one writes iss and token_use in two ways.
   */
  lemma AcceptedIsAtHome(r: Route, decode: Decoder, q: Request)
    ensures var x := Authenticate(r, decode, q);
            x.Ok? ==>
              && Verified(r, decode, q) == Ok(x.value.service) && !r.denySub.Denies(x.value.service.subject)
              && (if x.value.service.tenantScope.System? then !r.system.SystemDenied?
                  else r.allowUser && forall s :: s in r.systemOnlyScopes ==> s !in x.value.service.scopes)
              && Namespace(x.value) == (if x.value.userClaims.Some? then UserNamespace(r) else r.service.namespace)
              && (x.value.userClaims.Some? && decode(BearerOf(q.authorization)) == decode(q.token) ==>
                    var d := decode(q.token).value.document; Aliased(d, "iss") && Aliased(d, "token_use"))
  {
    var v := Verified(r, decode, q);
    AdmittedIsVerified(r, decode, v, q);
    AcceptedIsForThisReceiver(decode(q.token), r.service, q.now);
    if v.Ok? {
      UserSide(r, decode, v.value, q);
      NoTokenIsBoth(decode(q.token), r.service, q.now, r.service.keyring, q.wall);
      forall s | s in r.systemOnlyScopes && s in v.value.scopes
        ensures AuthenticateUser(r, decode, v.value, q).Err?
      {
        ReservedScopes(r, decode, v.value, q, s);
      }
    }
  }

  /** s is r with more subjects denied, more scopes reserved for system tokens and more scopes required. */
  ghost predicate Stricter(s: Route, r: Route) {
    && s == r.(denySub := s.denySub, systemOnlyScopes := s.systemOnlyScopes,
               service := r.service.(requiredScopes := s.service.requiredScopes))
    && (s.denySub.invalid || (!r.denySub.invalid && r.denySub.subs <= s.denySub.subs))
    && Includes(s.systemOnlyScopes, r.systemOnlyScopes)
    && Includes(s.service.requiredScopes, r.service.requiredScopes)
  }

  lemma StricterAdmitsNoMore(r: Route, s: Route, decode: Decoder, verified: Result<Principal, Failure>, q: Request)
    requires Stricter(s, r)
    ensures Admit(s, decode, verified, q).Ok? ==> Admit(r, decode, verified, q) == Admit(s, decode, verified, q)
  {
    if verified.Ok? {
      forall i | 0 <= i < |r.systemOnlyScopes| && r.systemOnlyScopes[i] in verified.value.scopes
        ensures AuthenticateUser(s, decode, verified.value, q).Err?
      {
        ReservedScopes(s, decode, verified.value, q, r.systemOnlyScopes[i]);
      }
    }
  }

  /** A stricter route accepts no more, and what it still accepts it accepts in the same way. */
  lemma StricterAcceptsNoMore(r: Route, s: Route, decode: Decoder, q: Request)
    requires Stricter(s, r) && (r.service.requiredScopes != [] || r.service.anyScope)
    ensures Authenticate(s, decode, q).Ok? ==> Authenticate(r, decode, q) == Authenticate(s, decode, q)
  {
    MoreScopesAcceptNoMore(decode(q.token), r.service, s.service.requiredScopes, q.now);
    StricterAdmitsNoMore(r, s, decode, Verified(s, decode, q), q);
    AdmittedIsVerified(s, decode, Verified(s, decode, q), q);
  }

  /** A route that declares no scope and not anyScope rejects everything. */
  lemma UndeclaredScopesRejectAll(r: Route, decode: Decoder, q: Request)
    requires r.service.requiredScopes == [] && !r.service.anyScope
    ensures StatusCode(Authenticate(r, decode, q)) == 401
  {}

  // ---- the deny list ----

  const COMMA: char := ','

  /** strings.Split(raw, ","). */
  function Split(raw: string): (parts: seq<string>)
    ensures |parts| > 0
  {
    if raw == "" then [""]
    else
      var rest := Split(raw[1..]);
      if raw[0] == COMMA then [""] + rest else [[raw[0]] + rest[0]] + rest[1..]
  }

  predicate IsCanonicalName(s: string) {
    && 1 <= |s| <= 63 && s[0] != '-'
    && forall i :: 0 <= i < |s| ==> 'a' <= s[i] <= 'z' || '0' <= s[i] <= '9' || s[i] == '-'
  }

  /** One to sixty-three small letters, digits and hyphens, and no hyphen first. */
  lemma CanonicalNameIff(s: string)
    ensures IsCanonicalName(s) <==>
              && 0 < |s| < 64 && s[0] != '-'
              && forall c :: c in s ==> 'a' <= c <= 'z' || '0' <= c <= '9' || c == '-'
  {
    assert forall i :: 0 <= i < |s| ==> s[i] in s;
  }

  /** Every part is a canonical name, white space aside. */
  predicate Readable(parts: seq<string>) {
    forall part :: part in parts ==> IsCanonicalName(Trim(part))
  }

  function Names(parts: seq<string>): set<string> {
    set part | part in parts :: Trim(part)
  }

  lemma OneMoreName(parts: seq<string>, part: string)
    ensures Names(parts + [part]) == Names(parts) + {Trim(part)}
    ensures Readable(parts + [part]) <==> Readable(parts) && IsCanonicalName(Trim(part))
  {
    var all := parts + [part];
    assert all[|parts|] == part;
    forall x | x in parts
      ensures x in all
    {
      var i :| 0 <= i < |parts| && parts[i] == x;
      assert all[i] == x;
    }
    assert forall x :: x in all ==> x in parts || x == part;
  }

  /** Any name that does not parse makes the receiver reject every service token. */
  method ParseDenySub(raw: string) returns (d: DenyList, failed: bool)
    ensures failed == d.invalid
    ensures d.invalid <==> Trim(raw) != "" && !Readable(Split(raw))
    ensures !d.invalid ==> d.subs == if Trim(raw) == "" then {} else Names(Split(raw))
  {
    d := DenyList({}, false);
    if Trim(raw) == "" { return d, false; }
    var parts := Split(raw);
    var i := 0;
    while i < |parts|
      invariant 0 <= i <= |parts| && !d.invalid
      invariant Readable(parts[..i]) && d.subs == Names(parts[..i])
    {
      var name := Trim(parts[i]);
      if !IsCanonicalName(name) {
        assert parts[i] in parts;
        return d.(invalid := true), true;
      }
      OneMoreName(parts[..i], parts[i]);
      assert parts[..i + 1] == parts[..i] + [parts[i]];
      d := d.(subs := d.subs + {name});
      i := i + 1;
    }
    assert parts[..|parts|] == parts;
    return d, false;
  }

  function JoinCommas(names: seq<string>): string {
    if |names| == 0 then "" else if |names| == 1 then names[0] else names[0] + [COMMA] + JoinCommas(names[1..])
  }

  lemma {:induction false} SplitHead(name: string, rest: string)
    requires COMMA !in name
    ensures Split(name + [COMMA] + rest) == [name] + Split(rest)
    ensures Split(name) == [name]
  {
    var s := name + [COMMA] + rest;
    if name == "" {
      assert s == [COMMA] + rest && s[1..] == rest;
    } else {
      assert s[1..] == name[1..] + [COMMA] + rest && name == [name[0]] + name[1..] && name[0] in name;
      SplitHead(name[1..], rest);
    }
  }

  /** Splitting undoes joining, so a list of canonical names written with commas denies exactly those names. */
  lemma {:induction false} SplitOfJoin(names: seq<string>)
    requires |names| > 0 && forall n :: n in names ==> COMMA !in n
    ensures Split(JoinCommas(names)) == names
  {
    SplitHead(names[0], JoinCommas(names[1..]));
    if |names| > 1 {
      SplitOfJoin(names[1..]);
      assert names == [names[0]] + names[1..];
    }
  }
}
