/** Filters compiled to a WHERE clause with numbered placeholders, and what the clause means on a row. */
module SqlWhere {
  import opened Wrappers
  import opened Criteria
  import opened SqlLike
  import opened Text

  // ---- what filters mean ----

  datatype Truth = True | False | Null

  function Known(b: bool): Truth { if b then True else False }

  function Negate(t: Truth): Truth {
    match t case True => False case False => True case Null => Null
  }

  function Both(a: Truth, b: Truth): Truth {
    if a.False? || b.False? then False else if a.Null? || b.Null? then Null else True
  }

  /** The value as the database sees it. */
  function DatumOf(v: Value): Datum {
    match v
    case Nil => Missing
    case Bool(_, b) => Flag(b)
    case Int(_, n) => Quantity(n as real)
    case Float(_, x) => Quantity(x)
    case Str(_, s) => Words(s)
    case List(_) => Composite
    case Slice(_, _) => Composite
    case NilSlice(_) => Missing
    case Opaque(_, _, _, d) => d
  }

  function Sign(less: bool, greater: bool): int {
    if less then -1 else if greater then 1 else 0
  }

  /** Numbers, texts, instants and truth values are ordered among themselves. */
  predicate SameFamily(d: Datum, e: Datum) {
    (d.Quantity? && e.Quantity?) || (d.Words? && e.Words?) || (d.Moment? && e.Moment?) || (d.Flag? && e.Flag?)
  }

  predicate Precedes(d: Datum, e: Datum) {
    || (d.Quantity? && e.Quantity? && d.x < e.x) || (d.Words? && e.Words? && Before(d.text, e.text))
    || (d.Moment? && e.Moment? && d.at < e.at) || (d.Flag? && e.Flag? && !d.flag && e.flag)
  }

  /** How the database orders two values; it does not compare values of different families. */
  function SqlOrder(a: Value, b: Value): Option<int> {
    var d, e := DatumOf(a), DatumOf(b);
    if SameFamily(d, e) then Some(Sign(Precedes(d, e), Precedes(e, d))) else None
  }

  /** Any operator the converter does not know is written as equality. */
  function SqlCompare(op: Operator, a: Value, b: Value): Truth {
    if SqlOrder(a, b).None? then Null
    else
      var s := SqlOrder(a, b).value;
      match op
      case NotEqual => Known(s != 0)
      case Greater => Known(s > 0)
      case GreaterEqual => Known(s >= 0)
      case Less => Known(s < 0)
      case LessEqual => Known(s <= 0)
      case _ => Known(s == 0)
  }

  function SqlILike(a: Value, pattern: Value): Truth {
    var d, e := DatumOf(a), DatumOf(pattern);
    if d.Words? && e.Words? then Known(ILike(d.text, e.text)) else Null
  }

  /** a IN (items): unknown unless an item equals a or all of them are known to differ. */
  function SqlIn(a: Value, items: seq<Value>): Truth {
    if items == [] then False
    else Negate(Both(Negate(SqlIn(a, items[..|items| - 1])), Negate(SqlCompare(Equal, a, items[|items| - 1]))))
  }

  function SqlArrayContains(a: Value, v: Value): Truth {
    if a.List? || a.Slice? then Known(exists i :: 0 <= i < |a.items| && SqlCompare(Equal, a.items[i], v) == True)
    else Null
  }

  type Row = map<string, Value>

  function Column(row: Row, field: string): Value {
    if field in row then row[field] else Nil
  }

  /** A text without % is searched for anywhere, unless its Go type is a named one. */
  function Wrapped(v: Value): Value {
    if v.Str? && v.kind == 0 && '%' !in v.text then Str(0, "%" + v.text + "%") else v
  }

  /** What a filter asks of a row. A list filter without a usable list asks nothing. */
  function Meaning(f: Filter, row: Row): Truth {
    var a := Column(row, f.field);
    match f.op
    case In => if f.value.List? && |f.value.items| > 0 then SqlIn(a, f.value.items) else True
    case NotIn => if f.value.List? && |f.value.items| > 0 then Negate(SqlIn(a, f.value.items)) else True
    case Like => SqlILike(a, Wrapped(f.value))
    case Contains => SqlILike(a, Wrapped(f.value))
    case NotLike => Negate(SqlILike(a, Wrapped(f.value)))
    case NotContains => Negate(SqlILike(a, Wrapped(f.value)))
    case IsNull => Known(DatumOf(a).Missing?)
    case IsNotNull => Known(!DatumOf(a).Missing?)
    case ArrayContains => SqlArrayContains(a, f.value)
    case _ => SqlCompare(f.op, a, f.value)
  }

  function AllMean(fs: seq<Filter>, row: Row): Truth {
    if fs == [] then True else Both(AllMean(fs[..|fs| - 1], row), Meaning(fs[|fs| - 1], row))
  }

  // ---- the clause ----

  // A condition names its parameters by number, from 1.
  datatype Cond =
    | Comparison(field: string, op: Operator, param: nat)
    | Search(field: string, negated: bool, param: nat)
    | Membership(field: string, negated: bool, params: seq<nat>)
    | NullTest(field: string, negated: bool)
    | Containment(field: string, param: nat)

  datatype Clause = Clause(conds: seq<Cond>, params: seq<Value>)

  function Placeholders(c: Cond): seq<nat> {
    match c
    case Comparison(_, _, k) => [k]
    case Search(_, _, k) => [k]
    case Membership(_, _, ks) => ks
    case NullTest(_, _) => []
    case Containment(_, k) => [k]
  }

  function AllPlaceholders(cs: seq<Cond>): seq<nat> {
    if cs == [] then [] else AllPlaceholders(cs[..|cs| - 1]) + Placeholders(cs[|cs| - 1])
  }

  function Param(params: seq<Value>, k: nat): Value {
    if 1 <= k <= |params| then params[k - 1] else Nil
  }

  function Params(params: seq<Value>, ks: seq<nat>): seq<Value> {
    seq(|ks|, i requires 0 <= i < |ks| => Param(params, ks[i]))
  }

  function EvalCond(c: Cond, params: seq<Value>, row: Row): Truth {
    var a := Column(row, c.field);
    match c
    case Comparison(_, op, k) => SqlCompare(op, a, Param(params, k))
    case Search(_, negated, k) =>
      if negated then Negate(SqlILike(a, Param(params, k))) else SqlILike(a, Param(params, k))
    case Membership(_, negated, ks) =>
      if negated then Negate(SqlIn(a, Params(params, ks))) else SqlIn(a, Params(params, ks))
    case NullTest(_, negated) => Known(DatumOf(a).Missing? != negated)
    case Containment(_, k) => SqlArrayContains(a, Param(params, k))
  }

  function Eval(cs: seq<Cond>, params: seq<Value>, row: Row): Truth {
    if cs == [] then True else Both(Eval(cs[..|cs| - 1], params, row), EvalCond(cs[|cs| - 1], params, row))
  }

  function Range(first: nat, n: nat): (r: seq<nat>)
    ensures |r| == n && forall i :: 0 <= i < n ==> r[i] == first + i
  {
    seq(n, i requires 0 <= i < n => first + i)
  }

  /** The operator a comparison is written with. */
  function Written(op: Operator): Operator {
    if op.NotEqual? || op.Greater? || op.GreaterEqual? || op.Less? || op.LessEqual? then op else Equal
  }

  /** The condition of a filter that is not about a list, and the value bound to its placeholder. */
  function ProcessFilter(f: Filter, next: nat): (Cond, Value) {
    match f.op
    case Like => (Search(f.field, false, next), Wrapped(f.value))
    case NotLike => (Search(f.field, true, next), Wrapped(f.value))
    case IsNull => (NullTest(f.field, false), Nil)
    case IsNotNull => (NullTest(f.field, true), Nil)
    case Contains => (Search(f.field, false, next), Wrapped(f.value))
    case NotContains => (Search(f.field, true, next), Wrapped(f.value))
    case ArrayContains => (Containment(f.field, next), f.value)
    case _ => (Comparison(f.field, Written(f.op), next), f.value)
  }

  /** What a filter adds to a clause whose next parameter is number next: at most one condition, and its parameters. */
  function Added(f: Filter, next: nat): Clause {
    if f.op.In? || f.op.NotIn? then
      if f.value.List? && |f.value.items| > 0
      then Clause([Membership(f.field, f.op.NotIn?, Range(next, |f.value.items|))], f.value.items)
      else Clause([], [])
    else
      var (cond, value) := ProcessFilter(f, next);
      Clause([cond], if value.Nil? then [] else [value])
  }

  function Extended(c: Clause, f: Filter): Clause {
    var d := Added(f, |c.params| + 1);
    Clause(c.conds + d.conds, c.params + d.params)
  }

  function Compile(fs: seq<Filter>): Clause {
    if fs == [] then Clause([], []) else Extended(Compile(fs[..|fs| - 1]), fs[|fs| - 1])
  }

  lemma CompileAppend(fs: seq<Filter>, f: Filter)
    ensures Compile(fs + [f]) == Extended(Compile(fs), f)
  {
    assert (fs + [f])[..|fs|] == fs;
  }

  /** One placeholder per value of a list, numbered on from paramIndex. */
  method ExpandList(values: seq<Value>, params: seq<Value>, paramIndex: nat)
    returns (placeholders: seq<nat>, bound: seq<Value>, next: nat)
    ensures placeholders == Range(paramIndex, |values|) && bound == params + values && next == paramIndex + |values|
  {
    placeholders, bound, next := [], params, paramIndex;
    var k := 0;
    while k < |values|
      invariant 0 <= k <= |values| && next == paramIndex + k
      invariant placeholders == Range(paramIndex, k) && bound == params + values[..k]
    {
      placeholders := placeholders + [next];
      bound := bound + [values[k]];
      next := next + 1;
      k := k + 1;
    }
    assert values[..|values|] == values;
  }

  method BuildWhereClause(filters: seq<Filter>) returns (conditions: seq<Cond>, params: seq<Value>)
    ensures Clause(conditions, params) == Compile(filters)
  {
    conditions, params := [], [];
    var paramIndex := 1;
    var i := 0;
    while i < |filters|
      invariant 0 <= i <= |filters| && paramIndex == |params| + 1
      invariant Clause(conditions, params) == Compile(filters[..i])
    {
      var filter := filters[i];
      CompileAppend(filters[..i], filter);
      assert filters[..i + 1] == filters[..i] + [filter];
      if filter.op.In? || filter.op.NotIn? {
        if filter.value.List? && |filter.value.items| > 0 {
          var placeholders;
          placeholders, params, paramIndex := ExpandList(filter.value.items, params, paramIndex);
          conditions := conditions + [Membership(filter.field, filter.op.NotIn?, placeholders)];
        }
      } else {
        var (condition, value) := ProcessFilter(filter, paramIndex);
        conditions := conditions + [condition];
        if !value.Nil? {
          params := params + [value];
          paramIndex := paramIndex + 1;
        }
      }
      i := i + 1;
    }
    assert filters[..|filters|] == filters;
  }

  // ---- placeholders ----

  lemma PlaceholdersAppend(cs: seq<Cond>, c: Cond)
    ensures AllPlaceholders(cs + [c]) == AllPlaceholders(cs) + Placeholders(c)
  {
    assert (cs + [c])[..|cs|] == cs;
  }

  lemma SinglePlaceholders(c: Cond)
    ensures AllPlaceholders([c]) == Placeholders(c)
  {
    assert [c][..0] == [];
  }

  lemma RangeMembers(n: nat)
    ensures forall k :: k in Range(1, n) ==> 1 <= k <= n
  {}

  lemma RangeJoins(n: nat, m: nat)
    ensures Range(1, n) + Range(n + 1, m) == Range(1, n + m)
  {}

  lemma CountStep(all: seq<nat>, more: seq<nat>, n: nat, m: nat, fed: bool)
    requires |all| >= n && (if fed then more == Range(n + 1, m) else m == 0 && |more| == 1)
    ensures |all + more| >= n + m && (|all + more| == n + m <==> |all| == n && fed)
    ensures fed && all == Range(1, n) ==> all + more == Range(1, n + m)
  {
    if fed { RangeJoins(n, m); }
  }

  /** A filter writes one placeholder per parameter, in order; without its value it writes one too many. */
  lemma PlaceholdersOf(f: Filter, next: nat)
    ensures var d := Added(f, next);
            && |d.conds| <= 1
            && (if Fed(f) then AllPlaceholders(d.conds) == Range(next, |d.params|)
                else |d.params| == 0 && |AllPlaceholders(d.conds)| == 1)
  {
    if f.op.In? || f.op.NotIn? {
      if f.value.List? { SinglePlaceholders(Membership(f.field, f.op.NotIn?, Range(next, |f.value.items|))); }
    } else {
      SinglePlaceholders(ProcessFilter(f, next).0);
      assert Range(next, 1) == [next] && Range(next, 0) == [];
    }
  }

  lemma ExtendedPlaceholders(c: Clause, f: Filter)
    ensures AllPlaceholders(Extended(c, f).conds)
            == AllPlaceholders(c.conds) + AllPlaceholders(Added(f, |c.params| + 1).conds)
  {
    var d := Added(f, |c.params| + 1);
    if |d.conds| == 1 {
      PlaceholdersAppend(c.conds, d.conds[0]);
      SinglePlaceholders(d.conds[0]);
      assert d.conds == [d.conds[0]];
    } else {
      assert c.conds + d.conds == c.conds;
    }
  }

  lemma AllFedAppend(fs: seq<Filter>, f: Filter)
    ensures AllFed(fs + [f]) <==> AllFed(fs) && Fed(f)
  {
    assert forall g :: g in fs + [f] <==> g in fs || g == f;
  }

  lemma {:induction false} PlaceholdersCount(fs: seq<Filter>)
    ensures var c := Compile(fs);
            && |AllPlaceholders(c.conds)| >= |c.params|
            && (|AllPlaceholders(c.conds)| == |c.params| <==> AllFed(fs))
            && (AllFed(fs) ==> AllPlaceholders(c.conds) == Range(1, |c.params|))
  {
    if fs != [] {
      var front, f := fs[..|fs| - 1], fs[|fs| - 1];
      assert fs == front + [f];
      AllFedAppend(front, f);
      PlaceholdersCount(front);
      var c := Compile(front);
      var d := Added(f, |c.params| + 1);
      ExtendedPlaceholders(c, f);
      PlaceholdersOf(f, |c.params| + 1);
      CountStep(AllPlaceholders(c.conds), AllPlaceholders(d.conds), |c.params|, |d.params|, Fed(f));
    }
  }

  /**
   * The placeholders of a clause read $1, $2, ... up to the number of parameters exactly when every filter
   * brings the value its placeholder stands for.
   */
  lemma PlaceholdersMatchIffFed(fs: seq<Filter>)
    ensures AllPlaceholders(Compile(fs).conds) == Range(1, |Compile(fs).params|) <==> AllFed(fs)
  {
    PlaceholdersCount(fs);
  }

  // ---- meaning ----

  lemma SameParams(c: Cond, params: seq<Value>, more: seq<Value>, row: Row)
    requires forall k :: k in Placeholders(c) ==> 1 <= k <= |params|
    ensures EvalCond(c, params + more, row) == EvalCond(c, params, row)
  {
    assert forall k :: k in Placeholders(c) ==> Param(params + more, k) == Param(params, k);
    if c.Membership? {
      assert Params(params + more, c.params) == Params(params, c.params);
    }
  }

  lemma {:induction false} MoreParams(cs: seq<Cond>, params: seq<Value>, more: seq<Value>, row: Row)
    requires forall k :: k in AllPlaceholders(cs) ==> 1 <= k <= |params|
    ensures Eval(cs, params + more, row) == Eval(cs, params, row)
  {
    if cs != [] {
      var front, c := cs[..|cs| - 1], cs[|cs| - 1];
      assert forall k :: k in AllPlaceholders(front) || k in Placeholders(c) ==> k in AllPlaceholders(cs);
      MoreParams(front, params, more, row);
      SameParams(c, params, more, row);
    }
  }

  lemma EvalAppend(cs: seq<Cond>, c: Cond, params: seq<Value>, row: Row)
    ensures Eval(cs + [c], params, row) == Both(Eval(cs, params, row), EvalCond(c, params, row))
  {
    assert (cs + [c])[..|cs|] == cs;
  }

  lemma ParamsOfRange(before: seq<Value>, items: seq<Value>)
    ensures Params(before + items, Range(|before| + 1, |items|)) == items
  {
    var all, ks := before + items, Range(|before| + 1, |items|);
    forall i | 0 <= i < |items|
      ensures Params(all, ks)[i] == items[i]
    {
      assert ks[i] == |before| + 1 + i && all[|before| + i] == items[i];
    }
  }

  lemma ListMeans(field: string, negated: bool, items: seq<Value>, before: seq<Value>, row: Row)
    ensures var c := Membership(field, negated, Range(|before| + 1, |items|));
            var r := SqlIn(Column(row, field), items);
            EvalCond(c, before + items, row) == if negated then Negate(r) else r
  {
    ParamsOfRange(before, items);
  }

  lemma LastParam(before: seq<Value>, v: Value)
    ensures Param(before + [v], |before| + 1) == v
  {}

  /** The condition a filter adds says what the filter says, once its parameters are in place. */
  lemma AddedMeans(f: Filter, before: seq<Value>, row: Row)
    requires Fed(f)
    ensures var d := Added(f, |before| + 1);
            Meaning(f, row) == if |d.conds| == 0 then True else EvalCond(d.conds[0], before + d.params, row)
  {
    if f.op.In? || f.op.NotIn? {
      if f.value.List? { ListMeans(f.field, f.op.NotIn?, f.value.items, before, row); }
    } else {
      LastParam(before, ProcessFilter(f, |before| + 1).1);
    }
  }

  lemma EvalOneMore(cs: seq<Cond>, ds: seq<Cond>, params: seq<Value>, more: seq<Value>, row: Row)
    requires |ds| <= 1 && forall k :: k in AllPlaceholders(cs) ==> 1 <= k <= |params|
    ensures Eval(cs + ds, params + more, row)
            == Both(Eval(cs, params, row), if |ds| == 0 then True else EvalCond(ds[0], params + more, row))
  {
    MoreParams(cs, params, more, row);
    if |ds| == 0 {
      assert cs + ds == cs;
    } else {
      EvalAppend(cs, ds[0], params + more, row);
      assert ds == [ds[0]];
    }
  }

  lemma ExtendedMeans(c: Clause, f: Filter, row: Row)
    requires Fed(f) && forall k :: k in AllPlaceholders(c.conds) ==> 1 <= k <= |c.params|
    ensures Eval(Extended(c, f).conds, Extended(c, f).params, row)
            == Both(Eval(c.conds, c.params, row), Meaning(f, row))
  {
    var d := Added(f, |c.params| + 1);
    PlaceholdersOf(f, |c.params| + 1);
    AddedMeans(f, c.params, row);
    EvalOneMore(c.conds, d.conds, c.params, d.params, row);
  }

  lemma AllMeanAppend(fs: seq<Filter>, f: Filter, row: Row)
    ensures AllMean(fs + [f], row) == Both(AllMean(fs, row), Meaning(f, row))
  {
    assert (fs + [f])[..|fs|] == fs;
  }

  lemma OneMoreFilterMeans(fs: seq<Filter>, f: Filter, row: Row)
    requires AllFed(fs) && Fed(f) && Eval(Compile(fs).conds, Compile(fs).params, row) == AllMean(fs, row)
    ensures Eval(Compile(fs + [f]).conds, Compile(fs + [f]).params, row) == AllMean(fs + [f], row)
  {
    PlaceholdersCount(fs);
    RangeMembers(|Compile(fs).params|);
    CompileAppend(fs, f);
    AllMeanAppend(fs, f, row);
    ExtendedMeans(Compile(fs), f, row);
  }

  /** Compiling preserves meaning: on every row the clause, with its parameters, says what the filters say. */
  lemma {:induction false} CompilePreservesMeaning(fs: seq<Filter>, row: Row)
    requires AllFed(fs)
    ensures Eval(Compile(fs).conds, Compile(fs).params, row) == AllMean(fs, row)
  {
    if fs != [] {
      var front, f := fs[..|fs| - 1], fs[|fs| - 1];
      assert fs == front + [f];
      AllFedAppend(front, f);
      CompilePreservesMeaning(front, row);
      OneMoreFilterMeans(front, f, row);
    }
  }

  lemma {:induction false} CompileExtends(fs: seq<Filter>, gs: seq<Filter>)
    ensures Compile(fs).conds <= Compile(fs + gs).conds && Compile(fs).params <= Compile(fs + gs).params
  {
    if gs == [] {
      assert fs + gs == fs;
    } else {
      var front, g := gs[..|gs| - 1], gs[|gs| - 1];
      CompileExtends(fs, front);
      CompileAppend(fs + front, g);
      assert fs + front + [g] == fs + gs;
    }
  }

  lemma UnfedAdds(c: Clause, f: Filter)
    requires f.op.Undeclared? && f.value.Nil?
    ensures Extended(c, f) == Clause(c.conds + [Comparison(f.field, Equal, |c.params| + 1)], c.params)
  {
    assert c.params + [] == c.params;
  }

  /**
   * An undeclared operator without a value passes validation, and by itself holds of no row. Its placeholder is bound
   * to the first value that the filters after it bring, whatever their operators, and compares the wrong column with
   * it; when they bring none, it stays unbound.
   */
  lemma UnfedFilterBorrowsAValue(fs: seq<Filter>, f: Filter, gs: seq<Filter>, row: Row)
    requires f.op.Undeclared? && f.value.Nil? && ValidName(f.field)
    ensures FilterProblem(f).None? && Meaning(f, row) == Null
    ensures var k, n, c := |Compile(fs).conds|, |Compile(fs + [f]).params|, Compile(fs + [f] + gs);
            && |c.conds| > k && |c.params| >= n
            && (|c.params| > n ==>
                  EvalCond(c.conds[k], c.params, row) == SqlCompare(Equal, Column(row, f.field), c.params[n]))
            && (|c.params| == n ==> Placeholders(c.conds[k]) == [|c.params| + 1])
  {
    var before := Compile(fs);
    CompileAppend(fs, f);
    UnfedAdds(before, f);
    CompileExtends(fs + [f], gs);
    var c, with := Compile(fs + [f] + gs), Compile(fs + [f]);
    assert with.conds[|before.conds|] == c.conds[|before.conds|];
  }

  // ---- the two statements ----

  datatype Window = Window(limit: int, offset: int)

  datatype Statement = Statement(base: string, where: Clause, orders: seq<Order>, page: Option<Window>)

  function PageOf(p: Pagination): Option<Window> {
    if p.limit == 0 then None else Some(Window(p.limit, p.offset))
  }

  function Selection(base: string, c: Criteria): Statement {
    Statement(base, Compile(c.filters), c.orders, PageOf(c.pagination))
  }

  function Counting(base: string, c: Criteria): Statement {
    Statement(base, Compile(c.filters), [], None)
  }

  method ToSelectSQL(base: string, c: Criteria) returns (r: Result<Statement, Problem>)
    ensures r == if FirstProblem(c).Some? then Err(FirstProblem(c).value) else Ok(Selection(base, c))
  {
    var problem := Validate(c);
    if problem.Some? { return Err(problem.value); }
    var where := Clause([], []);
    if c.filters != [] {
      var conditions, params := BuildWhereClause(c.filters);
      where := Clause(conditions, params);
    }
    return Ok(Statement(base, where, c.orders, PageOf(c.pagination)));
  }

  /** The count asks for the same rows, in no order and all of them. */
  method ToCountSQL(base: string, c: Criteria) returns (r: Result<Statement, Problem>)
    ensures r == if FirstProblem(c).Some? then Err(FirstProblem(c).value) else Ok(Counting(base, c))
  {
    var problem := Validate(c);
    if problem.Some? { return Err(problem.value); }
    var where := Clause([], []);
    if c.filters != [] {
      var conditions, params := BuildWhereClause(c.filters);
      where := Clause(conditions, params);
    }
    return Ok(Statement(base, where, [], None));
  }

  /** The clause of valid criteria whose operators are all declared means what the filters mean, on every row. */
  lemma ValidCriteriaMean(c: Criteria, row: Row)
    requires FirstProblem(c).None? && forall f :: f in c.filters ==> !f.op.Undeclared?
    ensures Eval(Compile(c.filters).conds, Compile(c.filters).params, row) == AllMean(c.filters, row)
    ensures AllPlaceholders(Compile(c.filters).conds) == Range(1, |Compile(c.filters).params|)
  {
    ValidFilters(c.filters);
    CompilePreservesMeaning(c.filters, row);
    PlaceholdersMatchIffFed(c.filters);
  }
}
