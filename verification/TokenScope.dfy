/** Which cache entry a call uses: the audience together with the canonical form of its scopes. */
module TokenScope {
  import opened Text

  /** The scope words of a call, in any order and grouping. */
  ghost function Words(scopes: seq<string>): set<string> {
    set i, w | 0 <= i < |scopes| && w in Fields(scopes[i]) :: w
  }

  ghost predicate Ascending(l: seq<string>) {
    forall i, j :: 0 <= i < j < |l| ==> Before(l[i], l[j])
  }

  ghost predicate Lists(l: seq<string>, words: set<string>) {
    Ascending(l) && forall w :: w in l <==> w in words
  }

  lemma {:induction false} ListingIsUnique(a: seq<string>, b: seq<string>, words: set<string>)
    requires Lists(a, words) && Lists(b, words)
    ensures a == b
    decreases |a|
  {
    EmptyListing(a, words);
    EmptyListing(b, words);
    if a != [] {
      assert a[0] in a && a[0] in b;
      assert b[0] in b && b[0] in a;
      HeadIsFirst(a, b[0]);
      HeadIsFirst(b, a[0]);
      BeforeIsTotal(a[0], b[0]);
      var less := words - {a[0]};
      TailLists(a, words);
      TailLists(b, words);
      ListingIsUnique(a[1..], b[1..], less);
      assert a == [a[0]] + a[1..] && b == [b[0]] + b[1..];
    }
  }

  lemma EmptyListing(l: seq<string>, words: set<string>)
    requires Lists(l, words)
    ensures l == [] <==> words == {}
  {
    if |l| > 0 { assert l[0] in words; }
  }

  lemma HeadIsFirst(l: seq<string>, w: string)
    requires Ascending(l) && w in l
    ensures w == l[0] || Before(l[0], w)
  {}

  lemma TailLists(l: seq<string>, words: set<string>)
    requires |l| > 0 && Lists(l, words)
    ensures Lists(l[1..], words - {l[0]})
  {
    assert l == [l[0]] + l[1..];
    forall w | w in l[1..]
      ensures w != l[0]
    {
      var k :| 0 <= k < |l[1..]| && l[1..][k] == w;
      assert Before(l[0], l[k + 1]);
      BeforeIsTotal(w, w);
    }
  }

  function Insert(w: string, l: seq<string>): seq<string> {
    if l == [] || Before(w, l[0]) then [w] + l else [l[0]] + Insert(w, l[1..])
  }

  lemma {:induction false} InsertLists(w: string, l: seq<string>, words: set<string>)
    requires Lists(l, words) && w !in words
    ensures Lists(Insert(w, l), words + {w})
  {
    if l == [] {
    } else if Before(w, l[0]) {
      var r := [w] + l;
      forall j | 0 <= j < |l|
        ensures Before(w, l[j])
      {
        if j > 0 { BeforeIsTransitive(w, l[0], l[j]); }
      }
      assert forall x :: x in r <==> x == w || x in l;
    } else {
      TailLists(l, words);
      InsertLists(w, l[1..], words - {l[0]});
      BeforeIsTotal(w, l[0]);
      var rest := Insert(w, l[1..]);
      assert l[0] in l;
      forall j | 0 <= j < |rest|
        ensures Before(l[0], rest[j])
      {
        assert rest[j] in rest;
        if rest[j] != w { HeadIsFirst(l, rest[j]); }
      }
    }
  }

  lemma {:induction false} ListingExists(words: set<string>)
    ensures exists l :: Lists(l, words)
  {
    if words == {} {
      assert Lists([], words);
    } else {
      var w :| w in words;
      ListingExists(words - {w});
      var l :| Lists(l, words - {w});
      InsertLists(w, l, words - {w});
      assert words - {w} + {w} == words;
    }
  }

  ghost function Canonical(words: set<string>): string {
    ListingExists(words);
    var l :| Lists(l, words);
    Join(l)
  }

  /** The set is built in a loop and visited in an arbitrary order before it is sorted. */
  method NormalizeScope(scopes: seq<string>) returns (scope: string)
    ensures scope == Canonical(Words(scopes))
  {
    var words: set<string> := {};
    var i := 0;
    while i < |scopes|
      invariant 0 <= i <= |scopes| && words == Words(scopes[..i])
    {
      var fields := Fields(scopes[i]);
      WordsAppend(scopes[..i], scopes[i]);
      assert scopes[..i + 1] == scopes[..i] + [scopes[i]];
      words := words + set w | w in fields;
      i := i + 1;
    }
    assert scopes[..|scopes|] == scopes;
    var out: seq<string> := [];
    var todo := words;
    while todo != {}
      invariant todo <= words && Lists(out, words - todo)
      decreases |todo|
    {
      var w :| w in todo;
      InsertLists(w, out, words - todo);
      assert words - (todo - {w}) == (words - todo) + {w};
      out, todo := Insert(w, out), todo - {w};
    }
    assert words - todo == words;
    CanonicalIs(out, words);
    scope := Join(out);
  }

  lemma WordIn(scopes: seq<string>, i: nat, w: string)
    requires i < |scopes| && w in Fields(scopes[i])
    ensures w in Words(scopes)
  {}

  lemma WordsAppend(scopes: seq<string>, s: string)
    ensures Words(scopes + [s]) == Words(scopes) + set w | w in Fields(s)
  {
    var all := scopes + [s];
    forall w | w in Words(scopes)
      ensures w in Words(all)
    {
      var i :| 0 <= i < |scopes| && w in Fields(scopes[i]);
      WordIn(all, i, w);
    }
    forall w | w in Fields(s)
      ensures w in Words(all)
    {
      WordIn(all, |scopes|, w);
    }
    forall w | w in Words(all)
      ensures w in Words(scopes) || w in Fields(s)
    {
      var i :| 0 <= i < |all| && w in Fields(all[i]);
      if i < |scopes| { WordIn(scopes, i, w); }
    }
  }

  lemma CanonicalIs(l: seq<string>, words: set<string>)
    requires Lists(l, words)
    ensures Canonical(words) == Join(l)
  {
    ListingExists(words);
    var k :| Lists(k, words) && Canonical(words) == Join(k);
    ListingIsUnique(l, k, words);
  }

  lemma WordsAreWords(scopes: seq<string>)
    ensures forall w :: w in Words(scopes) ==> IsWord(w)
  {
    forall i | 0 <= i < |scopes|
      ensures forall w :: w in Fields(scopes[i]) ==> IsWord(w)
    {
      FieldsAreWords(scopes[i]);
    }
  }

  /** The canonical form names the set of words: neither order, repetition nor grouping matters. */
  lemma CanonicalIffSameWords(a: seq<string>, b: seq<string>)
    ensures Canonical(Words(a)) == Canonical(Words(b)) <==> Words(a) == Words(b)
  {
    ListingExists(Words(a));
    ListingExists(Words(b));
    var k :| Lists(k, Words(a)) && Canonical(Words(a)) == Join(k);
    var l :| Lists(l, Words(b)) && Canonical(Words(b)) == Join(l);
    WordsAreWords(a);
    WordsAreWords(b);
    FieldsOfJoin(k);
    FieldsOfJoin(l);
  }

  ghost predicate EarlierWord(a: string, b: string) {
    exists k :: FirstDiffers(a, b, k)
  }

  /** The canonical form has each word of the call once, in alphabetical order, with one blank between them. */
  lemma CanonicalIsSorted(scopes: seq<string>)
    ensures var l := Fields(Canonical(Words(scopes)));
            && Canonical(Words(scopes)) == Join(l)
            && (forall w :: w in l <==> exists i :: 0 <= i < |scopes| && w in Fields(scopes[i]))
            && (forall i, j :: 0 <= i < j < |l| ==> EarlierWord(l[i], l[j]))
  {
    ListingExists(Words(scopes));
    var l :| Lists(l, Words(scopes)) && Canonical(Words(scopes)) == Join(l);
    WordsAreWords(scopes);
    FieldsOfJoin(l);
    forall i, j | 0 <= i < j < |l|
      ensures EarlierWord(l[i], l[j])
    {
      BeforeIff(l[i], l[j]);
    }
  }

  const NUL: char := '\0'

  /** The key of the entry map. */
  function Key(aud: string, scope: string): string {
    aud + [NUL] + scope
  }

  lemma {:induction false} KeySplits(aud1: string, scope1: string, aud2: string, scope2: string)
    requires NUL !in aud1 && NUL !in aud2
    requires Key(aud1, scope1) == Key(aud2, scope2)
    ensures aud1 == aud2 && scope1 == scope2
  {
    StartsWithNul(aud1, scope1);
    StartsWithNul(aud2, scope2);
    var k1, k2 := Key(aud1, scope1), Key(aud2, scope2);
    if aud1 == "" {
      assert k1[1..] == scope1 && k2[1..] == scope2;
    } else {
      assert k1[0] == aud1[0] && k2[0] == aud2[0];
      assert k1[1..] == Key(aud1[1..], scope1) && k2[1..] == Key(aud2[1..], scope2);
      KeySplits(aud1[1..], scope1, aud2[1..], scope2);
      assert aud1 == [aud1[0]] + aud1[1..] && aud2 == [aud2[0]] + aud2[1..];
    }
  }

  lemma StartsWithNul(aud: string, scope: string)
    requires NUL !in aud
    ensures Key(aud, scope)[0] == NUL <==> aud == ""
  {
    if aud != "" { assert Key(aud, scope)[0] == aud[0]; }
  }

  /** Two calls share a cache entry exactly when they ask for the same audience and the same scope words. */
  lemma SameEntryIff(aud1: string, scopes1: seq<string>, aud2: string, scopes2: seq<string>)
    requires NUL !in aud1 && NUL !in aud2
    ensures Key(aud1, Canonical(Words(scopes1))) == Key(aud2, Canonical(Words(scopes2)))
            <==> aud1 == aud2 && Words(scopes1) == Words(scopes2)
  {
    CanonicalIffSameWords(scopes1, scopes2);
    if Key(aud1, Canonical(Words(scopes1))) == Key(aud2, Canonical(Words(scopes2))) {
      KeySplits(aud1, Canonical(Words(scopes1)), aud2, Canonical(Words(scopes2)));
    }
  }
}
