/** The same filters evaluated directly on a row, and where the two evaluators say the same. */
module MemoryFilter {
  import opened Wrappers
  import opened Criteria
  import opened Float64
  import opened SqlLike
  import opened SqlWhere
  import opened Text

  function WithoutPercent(s: string): string {
    if s == "" then "" else (if s[0] == '%' then "" else [s[0]]) + WithoutPercent(s[1..])
  }

  /** strings.Trim(s, " "). */
  function TrimBlanks(s: string): string {
    if s == "" then s
    else if s[0] == ' ' then TrimBlanks(s[1..])
    else if s[|s| - 1] == ' ' then TrimBlanks(s[..|s| - 1])
    else s
  }

  /** The blanks around a text are taken off, those inside it and any other white space are kept. */
  lemma {:induction false} BlanksAreTakenOff(left: string, t: string, right: string)
    requires forall i :: 0 <= i < |left| ==> left[i] == ' '
    requires forall i :: 0 <= i < |right| ==> right[i] == ' '
    requires NoEdgeBlanks(t)
    ensures TrimBlanks(left + t + right) == t
    decreases |left| + |right|
  {
    var s := left + t + right;
    if left != "" {
      assert s[1..] == left[1..] + t + right;
      BlanksAreTakenOff(left[1..], t, right);
    } else if right == "" {
      assert s == t;
    } else if t == "" {
      assert s == right && s[1..] == right[1..] + t + left;
      BlanksAreTakenOff(right[1..], t, left);
    } else {
      var n := |right| - 1;
      assert s[..|s| - 1] == left + t + right[..n] && s[0] == t[0] && s[|s| - 1] == right[n];
      BlanksAreTakenOff(left, t, right[..n]);
    }
  }

  predicate MatchLike(a: Value, pattern: Value) {
    a.Str? && pattern.Str? &&
    var clean := TrimBlanks(WithoutPercent(pattern.text));
    clean == "" || Holds(LowerAll(a.text), LowerAll(clean))
  }

  /** Deep equality: two values are equal only if their types are. */
  predicate MatchIn(a: Value, v: Value) {
    if v.List? || v.Slice? then a in v.items else !v.NilSlice? && a == v
  }

  /** A value is in a slice when it is an item, and in none when there is no slice; else the two are compared. */
  lemma InIsMembership(a: Value, v: Value)
    ensures v.List? || v.Slice? ==> (MatchIn(a, v) <==> exists i :: 0 <= i < |v.items| && v.items[i] == a)
    ensures v.NilSlice? ==> !MatchIn(a, v)
    ensures !v.List? && !v.Slice? && !v.NilSlice? ==> (MatchIn(a, v) <==> a == v)
  {}

  /** Numbers of any Go type, as float64. */
  function ToFloat(v: Value): Option<real> {
    match v
    case Int(_, n) => Some(Nearest(n) as real)
    case Float(_, x) => Some(x)
    case _ => None
  }

  /** The conversion never turns an order round. */
  lemma RoundingKeepsOrder(a: Value, v: Value)
    requires ToFloat(a).Some? && ToFloat(v).Some?
    ensures DatumOf(a).Quantity? && DatumOf(v).Quantity?
    ensures DatumOf(a).x <= DatumOf(v).x ==> ToFloat(a).value <= ToFloat(v).value
  {
    if a.Int? && v.Int? {
      if a.n <= v.n { NearestGrows(a.n, v.n); }
    } else if a.Int? && v.Float? && a.n as real <= v.x {
      NearestIsBelow(a.n, v.x);
    } else if a.Float? && v.Int? && a.x <= v.n as real {
      NearestIsAbove(v.n, a.x);
    }
  }

  predicate CompareNumeric(op: Operator, a: Value, b: Value) {
    ToFloat(a).Some? && ToFloat(b).Some? && Compares(op, ToFloat(a).value, ToFloat(b).value)
  }

  predicate Compares(op: Operator, x: real, y: real) {
    match op
    case Greater => x > y
    case GreaterEqual => x >= y
    case Less => x < y
    case LessEqual => x <= y
    case _ => false
  }

  /** reflect.Value.IsZero; a slice that exists is not zero. */
  predicate IsZero(v: Value) {
    match v
    case Bool(_, b) => !b
    case Int(_, n) => n == 0
    case Float(_, x) => x == 0.0
    case Str(_, s) => s == ""
    case NilSlice(_) => true
    case Opaque(_, _, zero, _) => zero
    case _ => false
  }

  predicate ApplyOperator(op: Operator, a: Value, v: Value) {
    match op
    case NotEqual => a != v
    case Like => MatchLike(a, v)
    case NotLike => !MatchLike(a, v)
    case IsNull => a.Nil? || IsZero(a)
    case IsNotNull => !a.Nil? && !IsZero(a)
    case In => MatchIn(a, v)
    case NotIn => !MatchIn(a, v)
    case Contains => MatchLike(a, v)
    case NotContains => !MatchLike(a, v)
    case Greater => CompareNumeric(op, a, v)
    case GreaterEqual => CompareNumeric(op, a, v)
    case Less => CompareNumeric(op, a, v)
    case LessEqual => CompareNumeric(op, a, v)
    case _ => a == v
  }

  /** A filter on a field the row does not have is passed over. */
  predicate MatchesFilters(row: Row, fs: seq<Filter>) {
    forall i :: 0 <= i < |fs| ==> (fs[i].field in row ==> ApplyOperator(fs[i].op, row[fs[i].field], fs[i].value))
  }

  // ---- agreement with the WHERE clause ----

  predicate SameType(a: Value, v: Value) {
    || (a.Bool? && v.Bool? && a.kind == v.kind) || (a.Str? && v.Str? && a.kind == v.kind)
    || (a.Int? && v.Int? && a.kind == v.kind) || (a.Float? && v.Float? && a.kind == v.kind)
  }

  /** A number that its conversion to float64 does not change. */
  predicate Exact(v: Value) {
    v.Float? || (v.Int? && Nearest(v.n) == v.n)
  }

  predicate NoEdgeBlanks(s: string) {
    s != "" ==> s[0] != ' ' && s[|s| - 1] != ' '
  }

  /** Where both evaluators are meant to say the same of a column holding a. */
  predicate Shared(op: Operator, a: Value, v: Value) {
    match op
    case Greater => Exact(a) && Exact(v)
    case GreaterEqual => Exact(a) && Exact(v)
    case Less => Exact(a) && Exact(v)
    case LessEqual => Exact(a) && Exact(v)
    case In => v.List? && |v.items| > 0 && forall i :: 0 <= i < |v.items| ==> SameType(a, v.items[i])
    case NotIn => v.List? && |v.items| > 0 && forall i :: 0 <= i < |v.items| ==> SameType(a, v.items[i])
    case IsNull => IsZero(a) <==> DatumOf(a).Missing?
    case IsNotNull => IsZero(a) <==> DatumOf(a).Missing?
    case ArrayContains => false
    case Equal => SameType(a, v)
    case NotEqual => SameType(a, v)
    case Undeclared(_) => SameType(a, v)
    case _ => a.Str? && v.Str? && v.kind == 0 && IsPlain(v.text) && NoEdgeBlanks(v.text)
  }

  ghost predicate Agree(f: Filter, row: Row) {
    f.field in row ==> (ApplyOperator(f.op, row[f.field], f.value) <==> Meaning(f, row) == True)
  }

  lemma OrderOfSameType(a: Value, v: Value)
    requires SameType(a, v)
    ensures SqlOrder(a, v).Some? && (SqlOrder(a, v).value == 0 <==> a == v)
  {
    if a.Str? { BeforeIsTotal(a.text, v.text); }
  }

  lemma {:induction false} PlainKeepsPattern(s: string)
    requires IsPlain(s)
    ensures WithoutPercent(s) == s
  {
    if s != "" {
      assert s[0] in s && s == [s[0]] + s[1..];
      PlainKeepsPattern(s[1..]);
    }
  }

  lemma SearchAgrees(a: string, kind: nat, s: string)
    requires IsPlain(s) && NoEdgeBlanks(s)
    ensures MatchLike(Str(kind, a), Str(0, s)) <==> SqlILike(Str(kind, a), Wrapped(Str(0, s))) == True
    ensures SqlILike(Str(kind, a), Wrapped(Str(0, s))) != Null
  {
    PlainKeepsPattern(s);
    PlainIsWrapped(s);
    ILikeIsSubstring(a, s);
    MatchLikeIsHolds(a, kind, s);
  }

  lemma PlainIsWrapped(s: string)
    requires IsPlain(s)
    ensures Wrapped(Str(0, s)) == Str(0, "%" + s + "%")
  {}

  lemma MatchLikeIsHolds(a: string, kind: nat, s: string)
    requires WithoutPercent(s) == s && NoEdgeBlanks(s)
    ensures MatchLike(Str(kind, a), Str(0, s)) <==> Holds(LowerAll(a), LowerAll(s))
  {
    assert TrimBlanks(s) == s;
    if s == "" { assert At(LowerAll(a), LowerAll(s), 0); }
  }

  lemma {:induction false} ListAgrees(a: Value, items: seq<Value>)
    requires forall i :: 0 <= i < |items| ==> SameType(a, items[i])
    ensures SqlIn(a, items) == if a in items then True else False
  {
    if items != [] {
      var front, v := items[..|items| - 1], items[|items| - 1];
      assert items == front + [v];
      ListAgrees(a, front);
      OrderOfSameType(a, v);
    }
  }

  lemma SharedFilterAgrees(f: Filter, row: Row)
    requires f.field in row && Shared(f.op, row[f.field], f.value) && !row[f.field].Nil?
    ensures Agree(f, row)
  {
    var a, v := row[f.field], f.value;
    if f.op.In? || f.op.NotIn? {
      ListAgrees(a, v.items);
    } else if f.op.Like? || f.op.NotLike? || f.op.Contains? || f.op.NotContains? {
      SearchAgrees(a.text, a.kind, v.text);
    } else if f.op.Equal? || f.op.NotEqual? || f.op.Undeclared? {
      OrderOfSameType(a, v);
    }
  }

  lemma {:induction false} AllMeanTrue(fs: seq<Filter>, row: Row)
    ensures AllMean(fs, row) == True <==> forall i :: 0 <= i < |fs| ==> Meaning(fs[i], row) == True
  {
    if fs != [] { AllMeanTrue(fs[..|fs| - 1], row); }
  }

  /** On the shared fragment a row matches in memory exactly when the generated WHERE clause holds of it. */
  lemma EvaluatorsAgree(fs: seq<Filter>, row: Row)
    requires forall i :: 0 <= i < |fs| ==>
               fs[i].field in row && !row[fs[i].field].Nil? && Shared(fs[i].op, row[fs[i].field], fs[i].value)
    ensures MatchesFilters(row, fs) <==> Eval(Compile(fs).conds, Compile(fs).params, row) == True
  {
    forall i | 0 <= i < |fs|
      ensures Agree(fs[i], row) && Fed(fs[i])
    {
      SharedFilterAgrees(fs[i], row);
    }
    CompilePreservesMeaning(fs, row);
    AllMeanTrue(fs, row);
  }
}
