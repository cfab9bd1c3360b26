/** For every operator, exactly when the in-memory filter and the WHERE clause say the same of a column. */
module FilterAgreement {
  import opened Criteria
  import opened Float64
  import opened SqlLike
  import opened SqlWhere
  import opened MemoryFilter
  import opened Text

  // ---- equality, null tests and lists ----

  // Equal in the database: the same number, text, instant or truth value.
  predicate Alike(a: Value, v: Value) {
    DatumOf(a) == DatumOf(v) && Scalar(a)
  }

  predicate Scalar(a: Value) {
    !DatumOf(a).Missing? && !DatumOf(a).Composite?
  }

  // Different in the database, which compares only within a family.
  predicate ToldApart(a: Value, v: Value) {
    DatumOf(a) != DatumOf(v) && SameFamily(DatumOf(a), DatumOf(v))
  }

  lemma EqualOrApart(a: Value, v: Value)
    ensures SqlCompare(Equal, a, v) == True <==> Alike(a, v)
    ensures SqlCompare(Equal, a, v) == False <==> ToldApart(a, v)
    ensures SqlCompare(NotEqual, a, v) == True <==> ToldApart(a, v)
  {
    var d, e := DatumOf(a), DatumOf(v);
    if d.Words? && e.Words? { BeforeIsTotal(d.text, e.text); }
  }

  /** Equality agrees exactly for equal scalars, and for values that differ in the database as well as in Go. */
  lemma EqualityAgreesIff(f: Filter, row: Row)
    requires f.field in row && (f.op.Equal? || f.op.Undeclared?)
    ensures Agree(f, row) <==>
            var a, v := row[f.field], f.value;
            if a == v then Scalar(a) else !Alike(a, v)
  {
    EqualOrApart(row[f.field], f.value);
    assert SqlCompare(f.op, row[f.field], f.value) == SqlCompare(Equal, row[f.field], f.value);
  }

  /** Inequality agrees exactly for equal values, and for different ones the database tells apart. */
  lemma InequalityAgreesIff(f: Filter, row: Row)
    requires f.field in row && f.op.NotEqual?
    ensures Agree(f, row) <==> row[f.field] == f.value || ToldApart(row[f.field], f.value)
  {
    EqualOrApart(row[f.field], f.value);
  }

  /** A named text type is enough to keep equality from agreeing: with a plain text of the same characters. */
  lemma NamedTextsDisagree(f: Filter, row: Row, kind: nat, s: string)
    requires f.field in row && row[f.field] == Str(kind, s) && kind != 0 && f.value == Str(0, s)
    requires f.op.Equal? || f.op.NotEqual?
    ensures !Agree(f, row)
  {
    if f.op.Equal? { EqualityAgreesIff(f, row); } else { InequalityAgreesIff(f, row); }
  }

  /**
   * The null tests agree exactly on columns that hold no zero value, unless it is stored as NULL, and nothing else
   * that is: in memory every zero value counts as null.
   */
  lemma NullTestAgreesIff(f: Filter, row: Row)
    requires f.field in row && (f.op.IsNull? || f.op.IsNotNull?)
    ensures Agree(f, row) <==>
            var a := row[f.field];
            a.Nil? || (if DatumOf(a).Missing? then IsZero(a) else !IsZero(a))
  {}

  /** What memory takes for null: nil, false, zero, the empty text, a slice that does not exist, other types' zeros. */
  lemma ZeroIsNull(a: Value)
    ensures ApplyOperator(IsNull, a, Nil) <==>
              || a.Nil? || a.NilSlice? || (a.Bool? && a == Bool(a.kind, false)) || (a.Int? && a == Int(a.kind, 0))
              || (a.Float? && a == Float(a.kind, 0.0)) || (a.Str? && a == Str(a.kind, "")) || (a.Opaque? && a.zero)
  {}

  predicate Usable(v: Value) {
    v.List? && |v.items| > 0
  }

  /** A list the converter drops is still searched in memory: they agree exactly when that search succeeds. */
  lemma DroppedListAgreesIff(f: Filter, row: Row)
    requires f.field in row && (f.op.In? || f.op.NotIn?) && !Usable(f.value)
    ensures Agree(f, row) <==> (f.op.In? == MatchIn(row[f.field], f.value))
    ensures f.value == List([]) ==> (Agree(f, row) <==> f.op.NotIn?)
  {}

  /** Memory passes over a column that a row lacks, and the database asks it all the same: of nothing, it finds NULL. */
  lemma MissingColumnAgreesIff(f: Filter, row: Row)
    requires f.field !in row
    ensures MatchesFilters(row, [f])
    ensures Meaning(f, row) == True <==> f.op.IsNull? || ((f.op.In? || f.op.NotIn?) && !Usable(f.value))
  {
    if (f.op.In? || f.op.NotIn?) && Usable(f.value) {
      SqlInIff(Nil, f.value.items);
      assert ToldApart(Nil, f.value.items[0]) || SqlIn(Nil, f.value.items) != False;
    }
  }

  /** A row matches a list of filters exactly when it matches each of them. */
  lemma MatchesEach(row: Row, fs: seq<Filter>)
    ensures MatchesFilters(row, fs) <==> forall i :: 0 <= i < |fs| ==> MatchesFilters(row, [fs[i]])
  {
    forall i | 0 <= i < |fs|
      ensures MatchesFilters(row, [fs[i]]) <==>
                (fs[i].field in row ==> ApplyOperator(fs[i].op, row[fs[i].field], fs[i].value))
    {
      assert [fs[i]][0] == fs[i];
    }
  }

  lemma {:induction false} SqlInIff(a: Value, items: seq<Value>)
    ensures SqlIn(a, items) == True <==> exists i :: 0 <= i < |items| && Alike(a, items[i])
    ensures SqlIn(a, items) == False <==> forall i :: 0 <= i < |items| ==> ToldApart(a, items[i])
  {
    if items != [] {
      var front, v := items[..|items| - 1], items[|items| - 1];
      SqlInIff(a, front);
      EqualOrApart(a, v);
      assert forall i :: 0 <= i < |front| ==> front[i] == items[i];
    }
  }

  /** IN agrees exactly for scalars in the list, and for values that the database does not find in it either. */
  lemma InAgreesIff(f: Filter, row: Row)
    requires f.field in row && f.op.In? && Usable(f.value)
    ensures Agree(f, row) <==>
            var a, items := row[f.field], f.value.items;
            if a in items then Scalar(a) else forall i :: 0 <= i < |items| ==> !Alike(a, items[i])
  {
    var a, items := row[f.field], f.value.items;
    SqlInIff(a, items);
    if a in items {
      var i :| 0 <= i < |items| && items[i] == a;
      assert Alike(a, items[i]) <==> Scalar(a);
    }
  }

  /** NOT IN agrees exactly for values in the list, and for values the database tells apart from every item. */
  lemma NotInAgreesIff(f: Filter, row: Row)
    requires f.field in row && f.op.NotIn? && Usable(f.value)
    ensures Agree(f, row) <==>
            var a, items := row[f.field], f.value.items;
            a in items || forall i :: 0 <= i < |items| ==> ToldApart(a, items[i])
  {
    SqlInIff(row[f.field], f.value.items);
  }

  /** In memory an array contains nothing: they agree exactly when neither the column nor an item equals the value. */
  lemma ArrayContainsAgreesIff(f: Filter, row: Row)
    requires f.field in row && f.op.ArrayContains?
    ensures Agree(f, row) <==>
            var a, v := row[f.field], f.value;
            a != v && ((a.List? || a.Slice?) ==> forall i :: 0 <= i < |a.items| ==> !Alike(a.items[i], v))
  {
    var a, v := row[f.field], f.value;
    if a.List? || a.Slice? {
      forall i | 0 <= i < |a.items|
        ensures SqlCompare(Equal, a.items[i], v) == True <==> Alike(a.items[i], v)
      {
        EqualOrApart(a.items[i], v);
      }
    }
  }

  // ---- ordering comparisons ----

  predicate IsOrdering(op: Operator) {
    op.Less? || op.LessEqual? || op.Greater? || op.GreaterEqual?
  }

  // In the database the comparison comes out as it does for two values that are not ordered either way.
  predicate AsIfTied(op: Operator, d: Datum, e: Datum) {
    match op
    case Less => !Precedes(d, e)
    case LessEqual => !Precedes(e, d)
    case Greater => !Precedes(e, d)
    case _ => !Precedes(d, e)
  }

  // The comparison is false in the database.
  predicate Refuted(op: Operator, d: Datum, e: Datum) {
    match op
    case Less => !Precedes(d, e)
    case LessEqual => Precedes(e, d)
    case Greater => !Precedes(e, d)
    case _ => Precedes(d, e)
  }

  /**
   * In memory only numbers are ordered, and by their float64 values. Ordering comparisons agree on numbers exactly
   * when these differ or the numbers themselves give the answer of a tie; on other values exactly when the database
   * does not compare them or finds the comparison false.
   */
  lemma OrderingAgreesIff(f: Filter, row: Row)
    requires f.field in row && IsOrdering(f.op)
    ensures Agree(f, row) <==>
            var a, v := row[f.field], f.value;
            var d, e := DatumOf(a), DatumOf(v);
            if ToFloat(a).Some? && ToFloat(v).Some? then ToFloat(a) != ToFloat(v) || AsIfTied(f.op, d, e)
            else !SameFamily(d, e) || Refuted(f.op, d, e)
  {
    if ToFloat(row[f.field]).Some? && ToFloat(f.value).Some? {
      NumbersCompare(f.op, row[f.field], f.value);
    } else {
      OthersCompare(f.op, row[f.field], f.value);
    }
  }

  lemma NumbersCompare(op: Operator, a: Value, v: Value)
    requires IsOrdering(op) && ToFloat(a).Some? && ToFloat(v).Some?
    ensures (CompareNumeric(op, a, v) <==> SqlCompare(op, a, v) == True)
            <==> ToFloat(a) != ToFloat(v) || AsIfTied(op, DatumOf(a), DatumOf(v))
  {
    RoundingKeepsOrder(a, v);
    RoundingKeepsOrder(v, a);
    QuantitiesCompare(op, a, v);
    RoundedCompare(op, DatumOf(a).x, DatumOf(v).x, ToFloat(a).value, ToFloat(v).value);
  }

  lemma QuantitiesCompare(op: Operator, a: Value, v: Value)
    requires IsOrdering(op) && DatumOf(a).Quantity? && DatumOf(v).Quantity?
    ensures SqlCompare(op, a, v) == True <==> Compares(op, DatumOf(a).x, DatumOf(v).x)
  {}

  // x and y against what a monotone rounding makes of them.
  lemma RoundedCompare(op: Operator, x: real, y: real, p: real, q: real)
    requires IsOrdering(op) && (x <= y ==> p <= q) && (y <= x ==> q <= p)
    ensures (Compares(op, p, q) <==> Compares(op, x, y)) <==> p != q || AsIfTied(op, Quantity(x), Quantity(y))
  {}

  lemma OthersCompare(op: Operator, a: Value, v: Value)
    requires IsOrdering(op)
    ensures SqlCompare(op, a, v) == True
            <==> SameFamily(DatumOf(a), DatumOf(v)) && !Refuted(op, DatumOf(a), DatumOf(v))
  {
    var d, e := DatumOf(a), DatumOf(v);
    if d.Words? && e.Words? { BeforeIsTotal(d.text, e.text); }
  }

  /** Numbers that float64 holds exactly are always ordered alike. */
  lemma ExactNumbersAgree(f: Filter, row: Row)
    requires f.field in row && IsOrdering(f.op) && Exact(row[f.field]) && Exact(f.value)
    ensures Agree(f, row)
  {
    OrderingAgreesIff(f, row);
  }

  /** Integers up to 2^53 in size are among them. */
  lemma SmallIntegersAgree(f: Filter, row: Row)
    requires f.field in row && IsOrdering(f.op) && row[f.field].Int? && f.value.Int?
    requires -EXACT <= row[f.field].n <= EXACT && -EXACT <= f.value.n <= EXACT
    ensures Agree(f, row)
  {
    SmallIsExact(row[f.field].n);
    SmallIsExact(f.value.n);
    ExactNumbersAgree(f, row);
  }

  /** 2^53 + 1 is greater than 2^53, but not in memory. */
  lemma LargeIntegersDisagree(field: string, kind: nat)
    ensures !Agree(Filter(field, Greater, Int(kind, EXACT)), map[field := Int(kind, EXACT + 1)])
  {
    SmallIsExact(EXACT);
    assert Ulp(EXACT + 1) == 2 * Ulp(EXACT / 2) == 2;
    OrderingAgreesIff(Filter(field, Greater, Int(kind, EXACT)), map[field := Int(kind, EXACT + 1)]);
  }

  /** Times have an order in the database and none in memory. */
  lemma TimesAreNotOrdered(f: Filter, row: Row)
    requires f.field in row && IsOrdering(f.op)
    requires row[f.field].Opaque? && row[f.field].data.Moment? && f.value.Opaque? && f.value.data.Moment?
    ensures Agree(f, row) <==>
            var s, t := row[f.field].data.at, f.value.data.at;
            match f.op case Less => s >= t case LessEqual => s > t case Greater => s <= t case _ => s < t
  {
    OrderingAgreesIff(f, row);
  }

  // ---- searches ----

  predicate IsSearch(op: Operator) {
    op.Like? || op.NotLike? || op.Contains? || op.NotContains?
  }

  /** What memory looks for: the pattern in lower case, without its % signs and the blanks at its edges. */
  function Sought(p: string): string {
    TrimBlanks(WithoutPercent(LowerAll(p)))
  }

  lemma {:induction false} LowerWithoutPercent(s: string)
    ensures LowerAll(WithoutPercent(s)) == WithoutPercent(LowerAll(s))
  {
    if s != "" {
      LowerWithoutPercent(s[1..]);
      assert LowerAll(s)[1..] == LowerAll(s[1..]);
      assert LowerAll([s[0]] + WithoutPercent(s[1..])) == [Lower(s[0])] + LowerAll(WithoutPercent(s[1..]));
    }
  }

  lemma {:induction false} LowerTrimBlanks(s: string)
    ensures LowerAll(TrimBlanks(s)) == TrimBlanks(LowerAll(s))
    decreases |s|
  {
    if s == "" {
    } else if s[0] == ' ' {
      LowerTrimBlanks(s[1..]);
      assert LowerAll(s)[1..] == LowerAll(s[1..]);
    } else if s[|s| - 1] == ' ' {
      LowerTrimBlanks(s[..|s| - 1]);
      assert LowerAll(s)[..|s| - 1] == LowerAll(s[..|s| - 1]);
    }
  }

  lemma MatchLikeIsSought(a: Value, v: Value)
    requires a.Str? && v.Str?
    ensures MatchLike(a, v) <==> Holds(LowerAll(a.text), Sought(v.text))
  {
    var clean := TrimBlanks(WithoutPercent(v.text));
    LowerTrimBlanks(WithoutPercent(v.text));
    LowerWithoutPercent(v.text);
    assert LowerAll(clean) == Sought(v.text);
    if clean == "" { assert At(LowerAll(a.text), Sought(v.text), 0); }
  }

  /** A search of a text agrees, negated or not, exactly when memory finds the text where the pattern matches. */
  lemma TextsAgreeIff(f: Filter, row: Row)
    requires f.field in row && IsSearch(f.op) && row[f.field].Str? && f.value.Str?
    ensures Agree(f, row) <==>
            var a := row[f.field].text;
            Holds(LowerAll(a), Sought(f.value.text)) <==> ILike(a, Wrapped(f.value).text)
  {
    var a, v := row[f.field], f.value;
    MatchLikeIsSought(a, v);
    assert SqlILike(a, Wrapped(v)) == Known(ILike(a.text, Wrapped(v).text));
    assert ApplyOperator(f.op, a, v) <==> (MatchLike(a, v) <==> f.op.Like? || f.op.Contains?);
  }

  /**
   * A search whose column or pattern memory does not take for a text: it finds nothing. They agree exactly when the
   * database searches texts there and finds nothing either, or gives no answer and the search is not negated.
   */
  lemma OtherSearchAgreesIff(f: Filter, row: Row)
    requires f.field in row && IsSearch(f.op) && !(row[f.field].Str? && f.value.Str?)
    ensures Agree(f, row) <==>
            var d, e := DatumOf(row[f.field]), DatumOf(Wrapped(f.value));
            if d.Words? && e.Words? then !ILike(d.text, e.text) else f.op.Like? || f.op.Contains?
  {}

  /** Any pattern: memory must find what it seeks exactly where the pieces of the pattern stand in order. */
  lemma SearchAgreesIff(f: Filter, row: Row)
    requires f.field in row && IsSearch(f.op) && row[f.field].Str? && f.value.Str?
    ensures Agree(f, row) <==>
            var a := LowerAll(row[f.field].text);
            Holds(a, Sought(f.value.text)) <==> Spread(a, Pieces(LowerAll(Wrapped(f.value).text)))
  {
    TextsAgreeIff(f, row);
    LikeIsSpread(LowerAll(row[f.field].text), LowerAll(Wrapped(f.value).text));
  }

  // ---- searches, by the shape of the pattern ----

  lemma {:induction false} WithoutPercentJoins(s: string, t: string)
    ensures WithoutPercent(s + t) == WithoutPercent(s) + WithoutPercent(t)
  {
    if s == "" {
      assert s + t == t;
    } else {
      assert (s + t)[1..] == s[1..] + t;
      WithoutPercentJoins(s[1..], t);
    }
  }

  lemma {:induction false} NoPercentStays(s: string)
    requires '%' !in s
    ensures WithoutPercent(s) == s
  {
    if s != "" {
      assert s[0] in s && s == [s[0]] + s[1..];
      NoPercentStays(s[1..]);
    }
  }

  lemma {:induction false} TrimmedOccurs(t: string, s: string)
    requires Holds(t, s)
    ensures Holds(t, TrimBlanks(s))
    decreases |s|
  {
    var i: nat :| i <= |t| && At(t, s, i);
    if s == "" {
    } else if s[0] == ' ' {
      assert At(t, s[1..], i + 1);
      TrimmedOccurs(t, s[1..]);
    } else if s[|s| - 1] == ' ' {
      assert At(t, s[..|s| - 1], i);
      TrimmedOccurs(t, s[..|s| - 1]);
    }
  }

  lemma LowerKeepsSimple(s: string)
    ensures IsSimple(s) ==> IsSimple(LowerAll(s))
    ensures '_' !in s ==> '_' !in LowerAll(s)
  {
    var l := LowerAll(s);
    forall c | c in l && c in {'%', '_', '\\'}
      ensures c in s
    {
      var i :| 0 <= i < |l| && l[i] == c;
      assert s[i] in s;
    }
  }

  lemma LowerJoins(s: string, t: string)
    ensures LowerAll(s + t) == LowerAll(s) + LowerAll(t)
  {}

  // Memory and a pattern of one piece between two %.
  lemma WrappedAgrees(f: Filter, row: Row, s: string)
    requires f.field in row && IsSearch(f.op) && row[f.field].Str? && f.value.Str? && IsSimple(s)
    requires Wrapped(f.value) == Str(0, "%" + s + "%") && WithoutPercent(f.value.text) == s
    ensures Agree(f, row) <==>
            var a, p := LowerAll(row[f.field].text), LowerAll(s);
            Holds(a, TrimBlanks(p)) <==> exists i: nat :: Fits(a, Glyphs(p), i)
  {
    var a, p := LowerAll(row[f.field].text), LowerAll(s);
    TextsAgreeIff(f, row);
    LowerWithoutPercent(f.value.text);
    LowerKeepsSimple(s);
    LowerJoins("%" + s, "%");
    LowerJoins("%", s);
    assert LowerAll("%") == "%";
    LikeWrapped(a, p);
  }

  /** A text with _, but neither % nor backslash: memory must find it exactly where some text of its form stands. */
  lemma UnderscoreSearchAgreesIff(f: Filter, row: Row, s: string)
    requires f.field in row && IsSearch(f.op) && row[f.field].Str? && IsSimple(s) && f.value == Str(0, s)
    ensures Agree(f, row) <==>
            var a, p := LowerAll(row[f.field].text), LowerAll(s);
            Holds(a, TrimBlanks(p)) <==> exists i: nat :: Fits(a, Glyphs(p), i)
  {
    NoPercentStays(s);
    WrappedAgrees(f, row, s);
  }

  /**
   * A plain text, or one between two %: they agree exactly when the text occurs, or does not occur even without the
   * blanks at its edges.
   */
  lemma PlainSearchAgreesIff(f: Filter, row: Row, s: string)
    requires f.field in row && IsSearch(f.op) && row[f.field].Str? && IsPlain(s)
    requires f.value == Str(0, s) || f.value == Str(0, "%" + s + "%")
    ensures Agree(f, row) <==>
            var a, p := LowerAll(row[f.field].text), LowerAll(s);
            Holds(a, p) || !Holds(a, TrimBlanks(p))
  {
    var a, p := LowerAll(row[f.field].text), LowerAll(s);
    NoPercentStays(s);
    WithoutPercentJoins("%" + s, "%");
    WithoutPercentJoins("%", s);
    PercentAlone();
    assert ("%" + s + "%")[0] == '%';
    WrappedAgrees(f, row, s);
    LowerKeepsSimple(s);
    SomewhereIsHolds(a, p);
    if Holds(a, p) { TrimmedOccurs(a, p); }
  }

  lemma SomewhereIsHolds(t: string, s: string)
    requires '_' !in s
    ensures (exists i: nat :: Fits(t, Glyphs(s), i)) <==> Holds(t, s)
  {
    if i: nat :| Fits(t, Glyphs(s), i) {
      FitsIsAt(t, s, i);
      assert At(t, s, i);
    }
    if Holds(t, s) {
      var i: nat :| i <= |t| && At(t, s, i);
      FitsIsAt(t, s, i);
    }
  }

  lemma PercentAlone()
    ensures WithoutPercent("%") == "" && LowerAll("%") == "%" && LowerAll("") == ""
  {
    assert "%"[1..] == "";
  }

  lemma SoughtOfTwo(p: string, q: string)
    requires '%' !in p && '%' !in q
    ensures WithoutPercent(p + "%" + q) == p + q
  {
    NoPercentStays(p);
    NoPercentStays(q);
    PercentAlone();
    WithoutPercentJoins(p, "%");
    WithoutPercentJoins(p + "%", q);
    assert p + "" == p;
  }

  // Both ends of a text, and what memory seeks for a pattern of two pieces.
  predicate Ends(a: string, p: string, q: string) {
    At(a, p, 0) && |p| + |q| <= |a| && At(a, q, |a| - |q|)
  }

  lemma LikeEnds(a: string, p: string, q: string)
    requires IsPlain(p) && IsPlain(q)
    ensures SqlLike.Like(a, p + "%" + q) <==> Ends(a, p, q)
  {
    PiecesOfTwo(p, q);
    LikeTwo(a, p + "%" + q, Glyphs(p), Glyphs(q));
    FitsIsAt(a, p, 0);
    if |q| <= |a| { FitsIsAt(a, q, |a| - |q|); }
  }

  lemma LowerTwo(r: string, s: string)
    requires IsPlain(r) && IsPlain(s)
    ensures LowerAll(r + "%" + s) == LowerAll(r) + "%" + LowerAll(s)
    ensures Sought(r + "%" + s) == TrimBlanks(LowerAll(r) + LowerAll(s))
    ensures IsPlain(LowerAll(r)) && IsPlain(LowerAll(s)) && '%' in r + "%" + s
  {
    LowerJoins(r + "%", s);
    LowerJoins(r, "%");
    PercentAlone();
    LowerKeepsSimple(r);
    LowerKeepsSimple(s);
    SoughtOfTwo(LowerAll(r), LowerAll(s));
    assert (r + "%" + s)[|r|] == '%';
  }

  /**
   * A pattern r%s: the database asks for r at the start and s at the end, and memory for the two together. They agree
   * exactly when both are so or neither is.
   */
  lemma InnerPercentAgreesIff(f: Filter, row: Row, r: string, s: string)
    requires f.field in row && IsSearch(f.op) && row[f.field].Str? && IsPlain(r) && IsPlain(s)
    requires f.value == Str(0, r + "%" + s)
    ensures Agree(f, row) <==>
            var a, p, q := LowerAll(row[f.field].text), LowerAll(r), LowerAll(s);
            Holds(a, TrimBlanks(p + q)) <==> Ends(a, p, q)
  {
    TextsAgreeIff(f, row);
    LowerTwo(r, s);
    LikeEnds(LowerAll(row[f.field].text), LowerAll(r), LowerAll(s));
  }

  lemma EndlessStart(a: string, p: string)
    ensures Ends(a, p, "") <==> At(a, p, 0)
    ensures Ends(a, p, "") ==> Holds(a, TrimBlanks(p))
  {
    assert a[|a|..|a|] == "";
    if At(a, p, 0) { TrimmedOccurs(a, p); }
  }

  lemma StartlessEnd(a: string, q: string)
    ensures Ends(a, "", q) <==> |q| <= |a| && At(a, q, |a| - |q|)
    ensures Ends(a, "", q) ==> Holds(a, TrimBlanks(q))
  {
    assert a[0..0] == "";
    if |q| <= |a| && At(a, q, |a| - |q|) { TrimmedOccurs(a, q); }
  }

  /** A text ending in %: they agree exactly when the column starts with it, or does not even hold it without blanks. */
  lemma PrefixSearchAgreesIff(f: Filter, row: Row, s: string)
    requires f.field in row && IsSearch(f.op) && row[f.field].Str? && IsPlain(s) && f.value == Str(0, s + "%")
    ensures Agree(f, row) <==>
            var a, p := LowerAll(row[f.field].text), LowerAll(s);
            At(a, p, 0) || !Holds(a, TrimBlanks(p))
  {
    assert s + "%" + "" == s + "%";
    PercentAlone();
    InnerPercentAgreesIff(f, row, s, "");
    EndlessStart(LowerAll(row[f.field].text), LowerAll(s));
    assert LowerAll(s) + "" == LowerAll(s);
  }

  /** A text starting with %: the same with the end of the column. */
  lemma SuffixSearchAgreesIff(f: Filter, row: Row, s: string)
    requires f.field in row && IsSearch(f.op) && row[f.field].Str? && IsPlain(s) && f.value == Str(0, "%" + s)
    ensures Agree(f, row) <==>
            var a, p := LowerAll(row[f.field].text), LowerAll(s);
            (|p| <= |a| && At(a, p, |a| - |p|)) || !Holds(a, TrimBlanks(p))
  {
    assert "" + "%" + s == "%" + s;
    assert IsPlain("") && LowerAll("") == "";
    InnerPercentAgreesIff(f, row, "", s);
    StartlessEnd(LowerAll(row[f.field].text), LowerAll(s));
    assert "" + LowerAll(s) == LowerAll(s);
  }

  /**
   * A pattern of a named text type is sent as it is: without % the database asks for the whole column. They agree
   * exactly when the column is the text, or does not hold it even without its edge blanks.
   */
  lemma NamedSearchAgreesIff(f: Filter, row: Row, kind: nat, s: string)
    requires f.field in row && IsSearch(f.op) && row[f.field].Str? && IsPlain(s)
    requires f.value == Str(kind, s) && kind != 0
    ensures Agree(f, row) <==>
            var a, p := LowerAll(row[f.field].text), LowerAll(s);
            a == p || !Holds(a, TrimBlanks(p))
  {
    var a, p := LowerAll(row[f.field].text), LowerAll(s);
    NoPercentStays(p);
    LowerKeepsPlain(s);
    TextsAgreeIff(f, row);
    LikeItself(a, p);
    if a == p {
      assert At(a, p, 0);
      TrimmedOccurs(a, p);
    }
  }

  lemma LikeItself(t: string, s: string)
    requires IsPlain(s)
    ensures SqlLike.Like(t, s) <==> t == s
  {
    LikeIsSpread(t, s);
    PiecesOfOne(s);
    FitsIsAt(t, s, 0);
    assert t[0..|t|] == t;
  }
}
