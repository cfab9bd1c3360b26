/** The pieces of Go's string library the modelled code leans on. */
module Text {

  /** unicode.IsSpace. */
  predicate IsSpace(c: char) {
    var n := c as int;
    || 9 <= n <= 13 || n == 32 || n == 0x85 || n == 0xA0 || n == 0x1680 || 0x2000 <= n <= 0x200A
    || n == 0x2028 || n == 0x2029 || n == 0x202F || n == 0x205F || n == 0x3000
  }

  /** The 25 characters that Unicode calls white space. */
  lemma SpacesAre(c: char)
    ensures IsSpace(c) <==>
              c as int in [0x9, 0xA, 0xB, 0xC, 0xD, 0x20, 0x85, 0xA0, 0x1680, 0x2000, 0x2001, 0x2002, 0x2003, 0x2004,
                           0x2005, 0x2006, 0x2007, 0x2008, 0x2009, 0x200A, 0x2028, 0x2029, 0x202F, 0x205F, 0x3000]
  {}

  /** strings.TrimSpace. */
  function Trim(s: string): string {
    if s == "" then s
    else if IsSpace(s[0]) then Trim(s[1..])
    else if IsSpace(s[|s| - 1]) then Trim(s[..|s| - 1])
    else s
  }

  ghost predicate AllSpace(s: string) {
    forall i :: 0 <= i < |s| ==> IsSpace(s[i])
  }

  ghost predicate NoEdgeSpace(s: string) {
    s != "" ==> !IsSpace(s[0]) && !IsSpace(s[|s| - 1])
  }

  lemma {:induction false} TrimTakesTail(t: string, right: string)
    requires AllSpace(right) && NoEdgeSpace(t)
    ensures Trim(t + right) == t
  {
    if right != "" {
      if t == "" {
        TrimTakesTail(t, right[1..]);
        assert t + right == right && t + right[1..] == right[1..];
      } else {
        var n, s := |right| - 1, t + right;
        assert s[..|s| - 1] == t + right[..n] && s[0] == t[0] && s[|s| - 1] == right[n];
        TrimTakesTail(t, right[..n]);
      }
    } else {
      assert t + right == t;
    }
  }

  /** White space around a text without any at its edges is taken off, and nothing else. */
  lemma {:induction false} TrimTakesOff(left: string, t: string, right: string)
    requires AllSpace(left) && AllSpace(right) && NoEdgeSpace(t)
    ensures Trim(left + t + right) == t
  {
    if left != "" {
      assert (left + t + right)[1..] == left[1..] + t + right;
      TrimTakesOff(left[1..], t, right);
    } else {
      TrimTakesTail(t, right);
      assert left + t + right == t + right;
    }
  }

  /** Length of the longest prefix without white space. */
  function WordLength(s: string): nat
    ensures WordLength(s) <= |s|
  {
    if s == "" || IsSpace(s[0]) then 0 else 1 + WordLength(s[1..])
  }

  /** strings.Fields. */
  function Fields(s: string): seq<string> {
    if s == "" then []
    else if IsSpace(s[0]) then Fields(s[1..])
    else [s[..WordLength(s)]] + Fields(s[WordLength(s)..])
  }

  /** strings.Join(words, " "). */
  function Join(words: seq<string>): string {
    if |words| == 0 then ""
    else if |words| == 1 then words[0]
    else words[0] + " " + Join(words[1..])
  }

  predicate IsWord(w: string) {
    w != "" && forall i :: 0 <= i < |w| ==> !IsSpace(w[i])
  }

  lemma {:induction false} WordLengthIsMaximal(s: string)
    ensures forall i :: 0 <= i < WordLength(s) ==> !IsSpace(s[i])
    ensures WordLength(s) < |s| ==> IsSpace(s[WordLength(s)])
  {
    if s != "" && !IsSpace(s[0]) { WordLengthIsMaximal(s[1..]); }
  }

  lemma {:induction false} FieldsAreWords(s: string)
    ensures forall w :: w in Fields(s) ==> IsWord(w)
    decreases |s|
  {
    if s == "" {
    } else if IsSpace(s[0]) {
      FieldsAreWords(s[1..]);
    } else {
      WordLengthIsMaximal(s);
      FieldsAreWords(s[WordLength(s)..]);
    }
  }

  /** From i to j the text has no white space, and it could not be longer on either side. */
  ghost predicate IsRun(s: string, i: int, j: int) {
    && 0 <= i < j <= |s| && (forall k :: i <= k < j ==> !IsSpace(s[k]))
    && (i > 0 ==> IsSpace(s[i - 1])) && (j < |s| ==> IsSpace(s[j]))
  }

  ghost predicate IsWordOf(s: string, w: string) {
    exists i, j :: IsRun(s, i, j) && s[i..j] == w
  }

  lemma RunsOfRest(s: string, n: int, w: string)
    requires 0 < n <= |s| && (IsSpace(s[n - 1]) || n == |s| || IsSpace(s[n]))
    ensures IsWordOf(s[n..], w) <==> exists i, j :: n <= i && IsRun(s, i, j) && s[i..j] == w
  {
    var rest := s[n..];
    if i, j :| IsRun(rest, i, j) && rest[i..j] == w {
      assert IsRun(s, n + i, n + j) && s[n + i..n + j] == w;
    }
    if i, j :| n <= i && IsRun(s, i, j) && s[i..j] == w {
      assert IsRun(rest, i - n, j - n) && rest[i - n..j - n] == w;
    }
  }

  /** The words of a text are its longest stretches without white space. */
  lemma {:induction false} FieldsIff(s: string, w: string)
    ensures w in Fields(s) <==> IsWordOf(s, w)
    decreases |s|
  {
    if s == "" {
    } else if IsSpace(s[0]) {
      FieldsIff(s[1..], w);
      RunsOfRest(s, 1, w);
    } else {
      var n := WordLength(s);
      WordLengthIsMaximal(s);
      FieldsIff(s[n..], w);
      RunsOfRest(s, n, w);
      assert IsRun(s, 0, n) && s[0..n] == s[..n];
      forall i, j | i < n && IsRun(s, i, j)
        ensures i == 0 && j == n
      {}
    }
  }

  lemma {:induction false} WordLengthOfWord(w: string, rest: string)
    requires forall i :: 0 <= i < |w| ==> !IsSpace(w[i])
    requires rest != "" ==> IsSpace(rest[0])
    ensures WordLength(w + rest) == |w|
  {
    if w == "" {
      assert w + rest == rest;
    } else {
      assert (w + rest)[1..] == w[1..] + rest;
      WordLengthOfWord(w[1..], rest);
    }
  }

  lemma FieldsOfWord(w: string, rest: string)
    requires IsWord(w) && (rest != "" ==> IsSpace(rest[0]))
    ensures Fields(w + rest) == [w] + Fields(rest)
  {
    var s := w + rest;
    WordLengthOfWord(w, rest);
    assert s[..|w|] == w && s[|w|..] == rest;
    assert s[0] == w[0];
  }

  /** Splitting undoes joining. */
  lemma {:induction false} FieldsOfJoin(words: seq<string>)
    requires forall w :: w in words ==> IsWord(w)
    ensures Fields(Join(words)) == words
  {
    if |words| == 1 {
      FieldsOfWord(words[0], "");
      assert words[0] + "" == words[0];
    } else if |words| > 1 {
      var rest := " " + Join(words[1..]);
      assert Join(words) == words[0] + rest;
      FieldsOfWord(words[0], rest);
      assert rest[1..] == Join(words[1..]);
      FieldsOfJoin(words[1..]);
    }
  }

  /** The order of sort.Strings. */
  predicate Before(a: string, b: string) {
    b != "" && (a == "" || a[0] < b[0] || (a[0] == b[0] && Before(a[1..], b[1..])))
  }

  lemma {:induction false} BeforeIsTotal(a: string, b: string)
    ensures a == b || Before(a, b) || Before(b, a)
    ensures !(Before(a, b) && Before(b, a)) && !Before(a, a)
  {
    if a != "" {
      if b != "" { BeforeIsTotal(a[1..], b[1..]); }
      BeforeIsTotal(a[1..], a[1..]);
      if b != "" && a[0] == b[0] && a[1..] == b[1..] {
        assert a == [a[0]] + a[1..] && b == [b[0]] + b[1..];
      }
    }
  }

  lemma {:induction false} BeforeIsTransitive(a: string, b: string, c: string)
    requires Before(a, b) && Before(b, c)
    ensures Before(a, c)
  {
    if a != "" && a[0] == b[0] == c[0] { BeforeIsTransitive(a[1..], b[1..], c[1..]); }
  }

  /** b goes on where a ends, or has the later character where the two first differ. */
  ghost predicate FirstDiffers(a: string, b: string, k: int) {
    0 <= k <= |a| && k < |b| && a[..k] == b[..k] && (k == |a| || a[k] < b[k])
  }

  /** The order of texts is that of the first place where they differ. */
  lemma {:induction false} BeforeIff(a: string, b: string)
    ensures Before(a, b) <==> exists k :: FirstDiffers(a, b, k)
  {
    if Before(a, b) {
      if a == "" || a[0] < b[0] {
        assert FirstDiffers(a, b, 0);
      } else {
        BeforeIff(a[1..], b[1..]);
        var k :| FirstDiffers(a[1..], b[1..], k);
        assert a[..k + 1] == [a[0]] + a[1..][..k] && b[..k + 1] == [b[0]] + b[1..][..k];
        assert FirstDiffers(a, b, k + 1);
      }
    } else if k :| FirstDiffers(a, b, k) {
      if k > 0 {
        BeforeIff(a[1..], b[1..]);
        assert a[0] == a[..k][0] == b[..k][0] == b[0];
        assert a[1..][..k - 1] == a[..k][1..] && b[1..][..k - 1] == b[..k][1..];
        assert FirstDiffers(a[1..], b[1..], k - 1);
      }
    }
  }

  /** The lower case of an ASCII letter; every other character is its own lower case. */
  function Lower(c: char): char {
    if 'A' <= c <= 'Z' then c + 32 as char else c
  }

  /** Each capital becomes the small letter of its place in the alphabet, and nothing else changes. */
  lemma LowerIsTheAlphabet(c: char)
    ensures 'A' <= c <= 'Z' ==> 'a' <= Lower(c) <= 'z' && Lower(c) - 'a' == c - 'A'
    ensures Lower(c) != c <==> 'A' <= c <= 'Z'
  {}

  /** strings.ToLower. */
  function LowerAll(s: string): (r: string)
    ensures |r| == |s| && forall i :: 0 <= i < |s| ==> r[i] == Lower(s[i])
  {
    seq(|s|, i requires 0 <= i < |s| => Lower(s[i]))
  }

  /** strings.EqualFold. */
  predicate EqualFold(a: string, b: string) {
    LowerAll(a) == LowerAll(b)
  }
}
