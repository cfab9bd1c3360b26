/** PostgreSQL's LIKE, and why wrapping a plain text in % makes it a substring search. */
module SqlLike {
  import opened Text

  /** % matches any text, _ any character, and a backslash takes the next character literally. */
  predicate Like(t: string, p: string)
    decreases |p|, |t|
  {
    if p == "" then t == ""
    else if p[0] == '%' then Like(t, p[1..]) || (t != "" && Like(t[1..], p))
    else if p[0] == '\\' && |p| > 1 then t != "" && t[0] == p[1] && Like(t[1..], p[2..])
    else t != "" && (p[0] == '_' || t[0] == p[0]) && Like(t[1..], p[1..])
  }

  predicate ILike(t: string, p: string) {
    Like(LowerAll(t), LowerAll(p))
  }

  predicate IsPlain(s: string) {
    '%' !in s && '_' !in s && '\\' !in s
  }

  /** s occurs in t at position i. */
  predicate At(t: string, s: string, i: nat) {
    i + |s| <= |t| && t[i..i + |s|] == s
  }

  /** strings.Contains. */
  predicate Holds(t: string, s: string) {
    exists i: nat :: i <= |t| && At(t, s, i)
  }

  lemma {:induction false} PercentMatchesAnything(t: string)
    ensures Like(t, "%")
  {
    if t == "" {
      assert "%"[1..] == "";
    } else {
      PercentMatchesAnything(t[1..]);
    }
  }

  lemma {:induction false} PlainPrefix(t: string, s: string)
    requires IsPlain(s)
    ensures Like(t, s + "%") <==> At(t, s, 0)
  {
    if s == "" {
      assert s + "%" == "%";
      PercentMatchesAnything(t);
    } else {
      var p := s + "%";
      assert p[0] == s[0] && p[1..] == s[1..] + "%" && s[0] in s;
      if t != "" {
        PlainPrefix(t[1..], s[1..]);
        if |s| <= |t| {
          assert t[0..|s|] == [t[0]] + t[1..][0..|s| - 1];
          assert s == [s[0]] + s[1..];
        }
      }
    }
  }

  /** A plain text between two % signs is searched for anywhere. */
  lemma {:induction false} WrappedIsSubstring(t: string, s: string)
    requires IsPlain(s)
    ensures Like(t, "%" + s + "%") <==> Holds(t, s)
    decreases |t|
  {
    var p := "%" + s + "%";
    assert p[0] == '%' && p[1..] == s + "%";
    PlainPrefix(t, s);
    if t != "" {
      WrappedIsSubstring(t[1..], s);
      if Holds(t[1..], s) {
        var i: nat :| i <= |t[1..]| && At(t[1..], s, i);
        assert t[i + 1..i + 1 + |s|] == t[1..][i..i + |s|];
        assert At(t, s, i + 1);
      }
      if Holds(t, s) && !At(t, s, 0) {
        var i: nat :| i <= |t| && At(t, s, i);
        assert t[1..][i - 1..i - 1 + |s|] == t[i..i + |s|];
        assert At(t[1..], s, i - 1);
      }
    }
  }

  lemma LowerKeepsPlain(s: string)
    requires IsPlain(s)
    ensures IsPlain(LowerAll(s)) && LowerAll("%" + s + "%") == "%" + LowerAll(s) + "%"
  {
    var l := LowerAll(s);
    forall c | c in l
      ensures c != '%' && c != '_' && c != '\\'
    {
      var i :| 0 <= i < |l| && l[i] == c;
      assert s[i] in s;
    }
    var w := "%" + s + "%";
    assert forall i :: 0 <= i < |w| ==> LowerAll(w)[i] == ("%" + l + "%")[i];
  }

  /** The same for ILIKE, without regard to the case of ASCII letters. */
  lemma ILikeIsSubstring(t: string, s: string)
    requires IsPlain(s)
    ensures ILike(t, "%" + s + "%") <==> Holds(LowerAll(t), LowerAll(s))
  {
    LowerKeepsPlain(s);
    WrappedIsSubstring(LowerAll(t), LowerAll(s));
  }

  // ---- every pattern, by the places where its pieces stand ----

  // What stands between two %: characters, and places that take any character.
  datatype Glyph = One | Char(c: char)

  function Prepend(g: Glyph, ps: seq<seq<Glyph>>): seq<seq<Glyph>>
    requires |ps| > 0
  {
    [[g] + ps[0]] + ps[1..]
  }

  /** The pieces of a pattern, split at every % that is not escaped. */
  function Pieces(p: string): (ps: seq<seq<Glyph>>)
    ensures |ps| > 0
    decreases |p|
  {
    if p == "" then [[]]
    else if p[0] == '%' then [[]] + Pieces(p[1..])
    else if p[0] == '\\' && |p| > 1 then Prepend(Char(p[1]), Pieces(p[2..]))
    else Prepend(if p[0] == '_' then One else Char(p[0]), Pieces(p[1..]))
  }

  predicate Fits(t: string, piece: seq<Glyph>, i: nat) {
    i + |piece| <= |t| && forall k :: 0 <= k < |piece| ==> piece[k].One? || piece[k].c == t[i + k]
  }

  /** The pieces stand in t one after the other, the first at its start and the last at its end. */
  predicate Spread(t: string, ps: seq<seq<Glyph>>)
    requires |ps| > 0
    decreases |ps|
  {
    if |ps| == 1 then |t| == |ps[0]| && Fits(t, ps[0], 0)
    else Fits(t, ps[0], 0) && exists i :: |ps[0]| <= i <= |t| && Spread(t[i..], ps[1..])
  }

  lemma SpreadAfterPercent(t: string, ps: seq<seq<Glyph>>)
    requires |ps| > 0
    ensures Spread(t, [[]] + ps) <==> Spread(t, ps) || (t != "" && Spread(t[1..], [[]] + ps))
  {
    var all := [[]] + ps;
    assert all[1..] == ps && all[0] == [];
    if Spread(t, all) {
      var i :| 0 <= i <= |t| && Spread(t[i..], ps);
      if i > 0 { assert t[1..][i - 1..] == t[i..]; } else { assert t[0..] == t; }
    }
    if Spread(t, ps) { assert t[0..] == t; }
    if t != "" && Spread(t[1..], all) {
      var i :| 0 <= i <= |t[1..]| && Spread(t[1..][i..], ps);
      assert t[1..][i..] == t[i + 1..];
    }
  }

  lemma FitsAfterGlyph(t: string, g: Glyph, piece: seq<Glyph>)
    ensures Fits(t, [g] + piece, 0) <==> t != "" && (g.One? || g.c == t[0]) && Fits(t[1..], piece, 0)
  {
    var all := [g] + piece;
    if Fits(t, all, 0) {
      forall k | 0 <= k < |piece|
        ensures piece[k].One? || piece[k].c == t[1..][k]
      {
        assert all[k + 1] == piece[k];
      }
      assert all[0] == g;
    }
  }

  lemma SpreadAfterGlyph(t: string, g: Glyph, ps: seq<seq<Glyph>>)
    requires |ps| > 0
    ensures Spread(t, Prepend(g, ps)) <==> t != "" && (g.One? || g.c == t[0]) && Spread(t[1..], ps)
  {
    var all := Prepend(g, ps);
    assert all[1..] == ps[1..] && all[0] == [g] + ps[0];
    FitsAfterGlyph(t, g, ps[0]);
    if |ps| > 1 {
      if Spread(t, all) {
        var i :| |all[0]| <= i <= |t| && Spread(t[i..], ps[1..]);
        assert t[1..][i - 1..] == t[i..];
      }
      if t != "" && Spread(t[1..], ps) {
        var i :| |ps[0]| <= i <= |t[1..]| && Spread(t[1..][i..], ps[1..]);
        assert t[1..][i..] == t[i + 1..];
      }
    }
  }

  /** Whatever the pattern, LIKE asks that its pieces stand in the text in order and without overlap. */
  lemma {:induction false} LikeIsSpread(t: string, p: string)
    ensures Like(t, p) <==> Spread(t, Pieces(p))
    decreases |p|, |t|
  {
    if p == "" {
    } else if p[0] == '%' {
      LikeIsSpread(t, p[1..]);
      if t != "" { LikeIsSpread(t[1..], p); }
      SpreadAfterPercent(t, Pieces(p[1..]));
    } else if p[0] == '\\' && |p| > 1 {
      if t != "" { LikeIsSpread(t[1..], p[2..]); }
      SpreadAfterGlyph(t, Char(p[1]), Pieces(p[2..]));
    } else {
      if t != "" { LikeIsSpread(t[1..], p[1..]); }
      SpreadAfterGlyph(t, if p[0] == '_' then One else Char(p[0]), Pieces(p[1..]));
    }
  }

  // ---- the shapes patterns usually have ----

  /** A text with _ in it, but neither % nor backslash, as glyphs. */
  function Glyphs(s: string): (g: seq<Glyph>)
    ensures |g| == |s| && forall k :: 0 <= k < |s| ==> g[k] == if s[k] == '_' then One else Char(s[k])
  {
    seq(|s|, k requires 0 <= k < |s| => if s[k] == '_' then One else Char(s[k]))
  }

  predicate IsSimple(s: string) {
    '%' !in s && '\\' !in s
  }

  lemma {:induction false} PiecesOfSimple(s: string, p: string)
    requires IsSimple(s)
    ensures var ps := Pieces(p); Pieces(s + p) == [Glyphs(s) + ps[0]] + ps[1..]
  {
    var ps := Pieces(p);
    if s == "" {
      assert s + p == p && Glyphs(s) + ps[0] == ps[0];
      assert ps == [ps[0]] + ps[1..];
    } else {
      assert (s + p)[0] == s[0] && (s + p)[1..] == s[1..] + p && s[0] in s;
      PiecesOfSimple(s[1..], p);
      assert Glyphs(s) == [if s[0] == '_' then One else Char(s[0])] + Glyphs(s[1..]);
      assert Glyphs(s) + ps[0] == [if s[0] == '_' then One else Char(s[0])] + (Glyphs(s[1..]) + ps[0]);
    }
  }

  lemma PiecesOfOne(s: string)
    requires IsSimple(s)
    ensures Pieces(s) == [Glyphs(s)]
  {
    PiecesOfSimple(s, "");
    assert s + "" == s && Pieces("") == [[]];
    assert Glyphs(s) + [] == Glyphs(s);
  }

  lemma PiecesOfTwo(r: string, s: string)
    requires IsSimple(r) && IsSimple(s)
    ensures Pieces(r + "%" + s) == [Glyphs(r), Glyphs(s)]
  {
    var p := "%" + s;
    PiecesOfOne(s);
    assert p[0] == '%' && p[1..] == s;
    assert Pieces(p) == [[], Glyphs(s)];
    PiecesOfSimple(r, p);
    assert r + "%" + s == r + p && Glyphs(r) + [] == Glyphs(r);
  }

  lemma PiecesOfWrapped(s: string)
    requires IsSimple(s)
    ensures Pieces("%" + s + "%") == [[], Glyphs(s), []]
  {
    var p := s + "%";
    PiecesOfTwo(s, "");
    assert p + "" == p && Glyphs("") == [];
    assert "%" + s + "%" == "%" + p && ("%" + p)[1..] == p;
  }

  lemma FitsShift(t: string, piece: seq<Glyph>, i: nat)
    requires i <= |t|
    ensures Fits(t[i..], piece, 0) <==> Fits(t, piece, i)
  {
    var u := t[i..];
    if Fits(t, piece, i) {
      forall k | 0 <= k < |piece|
        ensures piece[k].One? || piece[k].c == u[0 + k]
      {
        assert u[k] == t[i + k];
      }
    }
    if Fits(u, piece, 0) {
      forall k | 0 <= k < |piece|
        ensures piece[k].One? || piece[k].c == t[i + k]
      {
        assert u[0 + k] == t[i + k];
      }
    }
  }

  lemma SpreadTwo(t: string, first: seq<Glyph>, last: seq<Glyph>)
    ensures Spread(t, [first, last])
            <==> Fits(t, first, 0) && |first| + |last| <= |t| && Fits(t, last, |t| - |last|)
  {
    var ps := [first, last];
    assert ps[1..] == [last];
    if Spread(t, ps) {
      var i :| |first| <= i <= |t| && Spread(t[i..], ps[1..]);
      FitsShift(t, last, i);
    }
    if |first| + |last| <= |t| && Fits(t, last, |t| - |last|) {
      FitsShift(t, last, |t| - |last|);
      assert Spread(t[|t| - |last|..], ps[1..]);
    }
  }

  /** A pattern of two pieces: one at the start, one at the end, without overlap. */
  lemma LikeTwo(t: string, p: string, first: seq<Glyph>, last: seq<Glyph>)
    requires Pieces(p) == [first, last]
    ensures Like(t, p) <==> Fits(t, first, 0) && |first| + |last| <= |t| && Fits(t, last, |t| - |last|)
  {
    LikeIsSpread(t, p);
    SpreadTwo(t, first, last);
  }

  /** A pattern %s%, with _ for any character: s stands somewhere. */
  lemma LikeWrapped(t: string, s: string)
    requires IsSimple(s)
    ensures Like(t, "%" + s + "%") <==> exists i: nat :: Fits(t, Glyphs(s), i)
  {
    LikeIsSpread(t, "%" + s + "%");
    PiecesOfWrapped(s);
    var ps := [[], Glyphs(s), []];
    assert ps[1..] == [Glyphs(s), []] && ps[1..][1..] == [[]];
    if Spread(t, ps) {
      var i :| 0 <= i <= |t| && Spread(t[i..], ps[1..]);
      assert Fits(t[i..], Glyphs(s), 0);
      assert Fits(t, Glyphs(s), i);
    }
    if i: nat :| Fits(t, Glyphs(s), i) {
      var u := t[i..];
      assert Fits(u, Glyphs(s), 0);
      assert u[|u|..] == "" && Spread(u[|u|..], [[]]);
      assert Spread(u, ps[1..]);
    }
  }

  /** Without _ a piece stands where its text does. */
  lemma FitsIsAt(t: string, s: string, i: nat)
    requires '_' !in s
    ensures Fits(t, Glyphs(s), i) <==> At(t, s, i)
  {
    if i + |s| <= |t| {
      var u := t[i..i + |s|];
      assert forall k :: 0 <= k < |s| ==> s[k] in s && u[k] == t[i + k];
      if Fits(t, Glyphs(s), i) {
        forall k | 0 <= k < |s|
          ensures u[k] == s[k]
        {
          assert Glyphs(s)[k].c == t[i + k];
        }
      }
    }
  }
}
