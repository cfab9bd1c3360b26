/** Which names a signer must not use, so that no token it signs passes for a service token and for a user token. */
module ClaimAliases {
  import opened Wrappers
  import opened Text
  import opened ServiceToken
  import opened PayloadReadings

  ghost predicate NamedFrom(d: Document, names: set<string>) {
    forall i :: 0 <= i < |d| ==> d[i].0 in names
  }

  ghost predicate IsBoth(t: Token) {
    exists cfg, now, keyring, wall :: PassesBoth(t, cfg, now, keyring, wall)
  }

  ghost predicate PassesBoth(t: Token, cfg: Config, now: int, keyring: bool, wall: int) {
    Verify(Some(t), cfg, now).Ok? && ParseUser(Some(t), keyring, wall).Ok?
  }

  /** Some name is read into that field. */
  ghost predicate Spells(names: set<string>, key: string) {
    exists n :: n in names && FoldName(n) == key
  }

  const NEEDED: seq<string> := ["sub", "aud", "tenant_scope", "namespace", "iat", "jti"]

  /** iss and exp as they are, another spelling of iss and one of token_use, and the other claims in any spelling. */
  ghost predicate Confusing(names: set<string>) {
    && "iss" in names && "exp" in names
    && (exists n :: n in names && IsAlias(n, "iss")) && (exists n :: n in names && IsAlias(n, "token_use"))
    && forall key :: key in NEEDED ==> Spells(names, key)
  }

  // ---- what a token that is both must have ----

  lemma {:induction false} ReadIsSpelled(d: Document, key: string, names: set<string>)
    requires NamedFrom(d, names) && Struct(d).Some? && key in Struct(d).value
    ensures Spells(names, key)
  {
    var front := d[..|d| - 1];
    assert forall i :: 0 <= i < |front| ==> front[i] == d[i];
    if FoldName(d[|d| - 1].0) == key {
      assert d[|d| - 1].0 in names;
    } else {
      ReadIsSpelled(front, key, names);
    }
  }

  lemma {:induction false} ExactIsNamed(d: Document, name: string, names: set<string>)
    requires NamedFrom(d, names) && name in Exact(d)
    ensures name in names
  {
    var front := d[..|d| - 1];
    assert forall i :: 0 <= i < |front| ==> front[i] == d[i];
    if d[|d| - 1].0 != name { ExactIsNamed(front, name, names); } else { assert d[|d| - 1].0 in names; }
  }

  lemma AuthenticHasAll(t: Token, cfg: Config, now: int)
    requires Verify(Some(t), cfg, now).Ok?
    ensures Struct(t.document).Some? && forall key :: key in NEEDED ==> key in Struct(t.document).value
  {
    var p := Struct(t.document).value;
    assert Trim("") == "";
    assert "sub" in p && "aud" in p && "tenant_scope" in p;
    assert "namespace" in p && "iat" in p && "jti" in p;
  }

  lemma BothIsConfusing(t: Token, names: set<string>)
    requires IsBoth(t) && NamedFrom(t.document, names)
    ensures Confusing(names)
  {
    var cfg, now, keyring, wall :| PassesBoth(t, cfg, now, keyring, wall);
    BothNeedsAliases(t, cfg, now, keyring, wall);
    AuthenticHasAll(t, cfg, now);
    ExactIsNamed(t.document, "iss", names);
    ExactIsNamed(t.document, "exp", names);
    forall key | key in NEEDED
      ensures Spells(names, key)
    {
      ReadIsSpelled(t.document, key, names);
    }
  }

  // ---- a token of confusing names ----

  datatype Spelling = Spelling(iss: string, tokenUse: string, sub: string, aud: string, tenantScope: string,
                               namespace: string, iat: string, jti: string)

  ghost predicate Spelled(x: Spelling) {
    && IsAlias(x.iss, "iss") && IsAlias(x.tokenUse, "token_use") && FoldName(x.sub) == "sub"
    && FoldName(x.aud) == "aud" && FoldName(x.tenantScope) == "tenant_scope"
    && FoldName(x.namespace) == "namespace" && FoldName(x.iat) == "iat" && FoldName(x.jti) == "jti"
  }

  lemma WithReads(r: Reading, name: string, key: string, v: Json, names: set<string>)
    requires Reads(r) && FoldName(name) == key && NamedFrom(r.d, names) && name in names && Fits(key, v)
    ensures Reads(With(r, name, key, v)) && NamedFrom(With(r, name, key, v).d, names)
  {
    OneMore(r, name, key, v);
  }

  function First(x: Spelling): Reading {
    var r := With(NOTHING, "iss", "iss", Json.Text(USER_ISSUER));
    var s := With(r, x.iss, "iss", Json.Text(ISSUER));
    With(s, x.tokenUse, "token_use", Json.Text(TOKEN_USE))
  }

  function Second(x: Spelling, r: Reading): Reading {
    var s := With(r, x.sub, "sub", Json.Text("x"));
    var t := With(s, x.aud, "aud", Json.Text("x"));
    With(t, x.tenantScope, "tenant_scope", Json.Text("user"))
  }

  function Third(x: Spelling, r: Reading): Reading {
    var s := With(r, x.namespace, "namespace", Json.Text("x"));
    var t := With(s, x.iat, "iat", Num(0));
    var u := With(t, "exp", "exp", Num(300));
    With(u, x.jti, "jti", Json.Text("x"))
  }

  ghost predicate Available(x: Spelling, names: set<string>) {
    && Spelled(x) && "iss" in names && "exp" in names && x.iss in names && x.tokenUse in names && x.sub in names
    && x.aud in names && x.tenantScope in names && x.namespace in names && x.iat in names && x.jti in names
  }

  lemma FirstReads(x: Spelling, names: set<string>)
    requires Available(x, names)
    ensures Reads(First(x)) && NamedFrom(First(x).d, names)
  {
    ClaimsFoldToThemselves();
    var r := NOTHING;
    assert "iss" in TEXT_CLAIMS && "token_use" in TEXT_CLAIMS;
    WithReads(r, "iss", "iss", Json.Text(USER_ISSUER), names);
    var s := With(r, "iss", "iss", Json.Text(USER_ISSUER));
    WithReads(s, x.iss, "iss", Json.Text(ISSUER), names);
    WithReads(With(s, x.iss, "iss", Json.Text(ISSUER)), x.tokenUse, "token_use", Json.Text(TOKEN_USE), names);
  }

  lemma SecondReads(x: Spelling, r: Reading, names: set<string>)
    requires Available(x, names) && Reads(r) && NamedFrom(r.d, names)
    ensures Reads(Second(x, r)) && NamedFrom(Second(x, r).d, names)
  {
    assert "sub" in TEXT_CLAIMS && "aud" in TEXT_CLAIMS && "tenant_scope" in TEXT_CLAIMS;
    WithReads(r, x.sub, "sub", Json.Text("x"), names);
    var s := With(r, x.sub, "sub", Json.Text("x"));
    WithReads(s, x.aud, "aud", Json.Text("x"), names);
    WithReads(With(s, x.aud, "aud", Json.Text("x")), x.tenantScope, "tenant_scope", Json.Text("user"), names);
  }

  lemma ThirdReads(x: Spelling, r: Reading, names: set<string>)
    requires Available(x, names) && Reads(r) && NamedFrom(r.d, names)
    ensures Reads(Third(x, r)) && NamedFrom(Third(x, r).d, names)
  {
    assert "namespace" in TEXT_CLAIMS && "jti" in TEXT_CLAIMS && "iat" in TIME_CLAIMS && "exp" in TIME_CLAIMS;
    assert FoldName("exp") == "exp";
    WithReads(r, x.namespace, "namespace", Json.Text("x"), names);
    var s := With(r, x.namespace, "namespace", Json.Text("x"));
    WithReads(s, x.iat, "iat", Num(0), names);
    var t := With(s, x.iat, "iat", Num(0));
    WithReads(t, "exp", "exp", Num(300), names);
    WithReads(With(t, "exp", "exp", Num(300)), x.jti, "jti", Json.Text("x"), names);
  }

  function Whole(x: Spelling): Reading { Third(x, Second(x, First(x))) }

  lemma WholeReads(x: Spelling, names: set<string>)
    requires Available(x, names)
    ensures Reads(Whole(x)) && NamedFrom(Whole(x).d, names)
  {
    FirstReads(x, names);
    SecondReads(x, First(x), names);
    ThirdReads(x, Second(x, First(x)), names);
  }

  lemma WholeNames(x: Spelling)
    ensures var p := Whole(x).fields;
            && TextOf(p, "iss") == ISSUER && TextOf(p, "token_use") == TOKEN_USE && TextOf(p, "sub") == "x"
            && TextOf(p, "aud") == "x" && TextOf(p, "tenant_scope") == "user"
  {}

  lemma WholeRest(x: Spelling)
    ensures var p := Whole(x).fields;
            && TextOf(p, "namespace") == "x" && TextOf(p, "jti") == "x" && TextOf(p, "scope") == ""
            && TimeOf(p, "iat") == Some(0) && TimeOf(p, "exp") == Some(300 * SECOND) && TimeOf(p, "nbf") == None
  {}

  lemma FieldsDecode(p: Payload, kind: string)
    requires TextOf(p, "iss") == ISSUER && TextOf(p, "token_use") == TOKEN_USE && TextOf(p, "sub") == "x"
    requires TextOf(p, "aud") == "x" && TextOf(p, "tenant_scope") == kind
    requires TextOf(p, "namespace") == "x" && TextOf(p, "jti") == "x" && TextOf(p, "scope") == ""
    requires TimeOf(p, "iat") == Some(0) && TimeOf(p, "exp") == Some(300 * SECOND) && TimeOf(p, "nbf") == None
    ensures Decoded(p) == Claims(ISSUER, "x", "x", "", TOKEN_USE, kind, "x", Some(0), None, Some(300 * SECOND), "x")
  {}

  lemma WholeFields(x: Spelling)
    ensures Decoded(Whole(x).fields)
            == Claims(ISSUER, "x", "x", "", TOKEN_USE, "user", "x", Some(0), None, Some(300 * SECOND), "x")
  {
    WholeNames(x);
    WholeRest(x);
    FieldsDecode(Whole(x).fields, "user");
  }

  lemma WholeExact(x: Spelling)
    requires Spelled(x)
    ensures var p := Whole(x).exact;
            && "iss" in p && p["iss"] == Json.Text(USER_ISSUER) && "exp" in p && p["exp"] == Num(300)
            && "nbf" !in p && "token_use" !in p
  {
    ClaimsFoldToThemselves();
    assert FoldName("exp") == "exp" && FoldName("nbf") == "nbf";
  }

  lemma WholeIsBoth(x: Spelling)
    requires Spelled(x) && Reads(Whole(x))
    ensures IsBoth(Token(true, TOKEN_TYPE, "", Whole(x).d))
  {
    var t, cfg := Token(true, TOKEN_TYPE, "", Whole(x).d), Config(true, "x", "x", [], true);
    WholeFields(x);
    WholeExact(x);
    assert Trim("x") == "x";
    assert Authentic(t, cfg, 0);
    assert PassesBoth(t, cfg, 0, true, 0);
  }

  lemma Pick(names: set<string>, i: nat) returns (n: string)
    requires Confusing(names) && i < |NEEDED|
    ensures n in names && FoldName(n) == NEEDED[i]
  {
    assert NEEDED[i] in NEEDED;
    n :| n in names && FoldName(n) == NEEDED[i];
  }

  lemma ConfusingIsAvailable(names: set<string>) returns (x: Spelling)
    requires Confusing(names)
    ensures Available(x, names)
  {
    var iss :| iss in names && IsAlias(iss, "iss");
    var use :| use in names && IsAlias(use, "token_use");
    var sub := Pick(names, 0);
    var aud := Pick(names, 1);
    var kind := Pick(names, 2);
    var ns := Pick(names, 3);
    var iat := Pick(names, 4);
    var jti := Pick(names, 5);
    x := Spelling(iss, use, sub, aud, kind, ns, iat, jti);
  }

  /** Payloads with the given member names: some token is both exactly when the names are confusing. */
  lemma SomeTokenIsBothIff(names: set<string>)
    ensures (exists t: Token :: NamedFrom(t.document, names) && IsBoth(t)) <==> Confusing(names)
  {
    if t: Token :| NamedFrom(t.document, names) && IsBoth(t) { BothIsConfusing(t, names); }
    if Confusing(names) {
      var x := ConfusingIsAvailable(names);
      WholeReads(x, names);
      WholeIsBoth(x);
      assert NamedFrom(Token(true, TOKEN_TYPE, "", Whole(x).d).document, names);
    }
  }
}
