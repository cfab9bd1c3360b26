/** What the database's three-valued answers come to, in terms of the values compared. */
module SqlTruth {
  import opened Criteria
  import opened SqlWhere
  import opened SqlLike
  import opened Text

  /** The six comparisons of a with b, when a stands before b, or is the same, or neither. */
  ghost predicate Ranks(a: Value, b: Value, before: bool, same: bool) {
    && SqlCompare(Less, a, b) == (if before then True else False)
    && SqlCompare(LessEqual, a, b) == (if before || same then True else False)
    && SqlCompare(Greater, a, b) == (if before || same then False else True)
    && SqlCompare(GreaterEqual, a, b) == (if before then False else True)
    && SqlCompare(Equal, a, b) == (if same then True else False)
    && SqlCompare(NotEqual, a, b) == (if same then False else True)
  }

  /**
   * Numbers are compared by size, texts where they first differ, instants by time, and false comes before true;
   * whatever else is compared, the answer is unknown.
   */
  lemma DatabaseOrder(a: Value, b: Value)
    ensures match (DatumOf(a), DatumOf(b))
            case (Quantity(x), Quantity(y)) => Ranks(a, b, x < y, x == y)
            case (Words(s), Words(t)) => Ranks(a, b, exists k :: FirstDiffers(s, t, k), s == t)
            case (Moment(m), Moment(n)) => Ranks(a, b, m < n, m == n)
            case (Flag(f), Flag(g)) => Ranks(a, b, !f && g, f == g)
            case _ => forall op :: SqlCompare(op, a, b) == Null
  {
    var d, e := DatumOf(a), DatumOf(b);
    if d.Words? && e.Words? {
      BeforeIff(d.text, e.text);
      BeforeIff(e.text, d.text);
      BeforeIsTotal(d.text, e.text);
    }
  }

  /** A clause is true of a row when all of its conditions are, and false when one of them is. */
  lemma {:induction false} ClauseHoldsIff(cs: seq<Cond>, params: seq<Value>, row: Row)
    ensures Eval(cs, params, row) == True <==> forall i :: 0 <= i < |cs| ==> EvalCond(cs[i], params, row) == True
    ensures Eval(cs, params, row) == False <==> exists i :: 0 <= i < |cs| && EvalCond(cs[i], params, row) == False
  {
    if cs != [] {
      var front, n := cs[..|cs| - 1], |cs| - 1;
      ClauseHoldsIff(front, params, row);
      assert forall i :: 0 <= i < n ==> cs[i] == front[i];
    }
  }

  /** A value that is not NULL. */
  ghost predicate Stored(a: Value) { !DatumOf(a).Missing? }

  /** NULL is what no value and no slice become; any other Go value is stored as one, unless its own type says NULL. */
  lemma NullIs(v: Value)
    ensures Stored(v) <==> !v.Nil? && !v.NilSlice? && (v.Opaque? ==> !v.data.Missing?)
    ensures v.Bool? || v.Int? || v.Float? || v.Str? ==>
              forall w: Value :: w.Bool? || w.Int? || w.Float? || w.Str? ==>
                (DatumOf(v) == DatumOf(w) <==>
                   || (v.Bool? && w.Bool? && v.flag == w.flag) || (v.Str? && w.Str? && v.text == w.text)
                   || (v.Int? && w.Int? && v.n == w.n) || (v.Float? && w.Float? && v.x == w.x)
                   || (v.Int? && w.Float? && v.n as real == w.x) || (v.Float? && w.Int? && v.x == w.n as real))
  {}

  /**
   * What a filter other than a comparison or a list asks of a row in the database: a search needs a text on both
   * sides, whether the pattern must be found or must not; a null test looks at nothing but NULL; an array has an
   * equal member.
   */
  lemma FilterAsks(f: Filter, row: Row)
    ensures var a, p := Column(row, f.field), DatumOf(Wrapped(f.value));
            && (f.op.Like? || f.op.Contains? ==>
                  (Meaning(f, row) == True <==> DatumOf(a).Words? && p.Words? && ILike(DatumOf(a).text, p.text)))
            && (f.op.NotLike? || f.op.NotContains? ==>
                  (Meaning(f, row) == True <==> DatumOf(a).Words? && p.Words? && !ILike(DatumOf(a).text, p.text)))
            && (f.op.IsNull? ==> (Meaning(f, row) == True <==> !Stored(a)))
            && (f.op.IsNotNull? ==> (Meaning(f, row) == True <==> Stored(a)))
            && (f.op.ArrayContains? ==>
                  (Meaning(f, row) == True <==>
                     (a.List? || a.Slice?)
                     && exists i :: 0 <= i < |a.items| && SqlCompare(Equal, a.items[i], f.value) == True))
  {}
}
