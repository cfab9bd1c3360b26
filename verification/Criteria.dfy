/** Filters, orders and pages as callers build them, and the validation both query builders start with. */
module Criteria {
  import opened Wrappers
  import opened Float64

  // What the database holds for a value, or is sent. Its types are those of the columns, not Go's.
  datatype Datum =
    | Missing
    | Flag(flag: bool)
    | Quantity(x: real)
    | Words(text: string)
    | Moment(at: int)
    | Composite

  // A dynamically typed Go value. kind tells the Go types of one family apart, and 0 is the predeclared one;
  // List is []interface{} and Slice a slice of any other type. Opaque is a value of a type that memory knows
  // nothing of but deep equality, which goes by rep: a time, a pointer, a UUID, a decimal.
  datatype Value =
    | Nil
    | Bool(kind: nat, flag: bool)
    | Int(kind: nat, n: int)
    | Float(kind: nat, x: Double)
    | Str(kind: nat, text: string)
    | List(items: seq<Value>)
    | Slice(kind: nat, items: seq<Value>)
    | NilSlice(kind: nat)
    | Opaque(kind: nat, rep: nat, zero: bool, data: Datum)

  datatype Operator =
    | Equal | NotEqual | Greater | GreaterEqual | Less | LessEqual
    | Like | NotLike | In | NotIn | IsNull | IsNotNull
    | Contains | NotContains | ArrayContains
    | Undeclared(name: string)

  datatype Filter = Filter(field: string, op: Operator, value: Value)

  datatype Direction = Asc | Desc | Unknown(name: string)

  datatype Order = Order(field: string, direction: Direction)

  datatype Pagination = Pagination(page: int, pageSize: int, limit: int, offset: int)

  datatype Criteria = Criteria(filters: seq<Filter>, orders: seq<Order>, pagination: Pagination)

  datatype Problem = FilterField(field: string) | MissingValue(op: Operator) | OrderField(field: string)
    | OrderDirection(direction: Direction) | Limit | Offset

  predicate IsLetter(c: char) {
    'a' <= c <= 'z' || 'A' <= c <= 'Z' || c == '_'
  }

  predicate IsNameChar(c: char) {
    IsLetter(c) || '0' <= c <= '9' || c == '.'
  }

  predicate ValidName(field: string) {
    field != "" && IsLetter(field[0]) && forall i :: 0 <= i < |field| ==> IsNameChar(field[i])
  }

  predicate NeedsValue(op: Operator) {
    !op.IsNull? && !op.IsNotNull? && !op.Undeclared?
  }

  function FilterProblem(f: Filter): Option<Problem> {
    if !ValidName(f.field) then Some(FilterField(f.field))
    else if NeedsValue(f.op) && f.value.Nil? then Some(MissingValue(f.op))
    else None
  }

  function OrderProblem(o: Order): Option<Problem> {
    if !ValidName(o.field) then Some(OrderField(o.field))
    else if o.direction.Unknown? then Some(OrderDirection(o.direction))
    else None
  }

  function PageProblem(p: Pagination): Option<Problem> {
    if p.limit == 0 then None
    else if p.limit < 0 then Some(Limit)
    else if p.offset < 0 then Some(Offset)
    else None
  }

  function FilterProblems(fs: seq<Filter>): Option<Problem> {
    if fs == [] then None
    else if FilterProblem(fs[0]).Some? then FilterProblem(fs[0])
    else FilterProblems(fs[1..])
  }

  function OrderProblems(os: seq<Order>): Option<Problem> {
    if os == [] then None
    else if OrderProblem(os[0]).Some? then OrderProblem(os[0])
    else OrderProblems(os[1..])
  }

  /** Filters are checked before orders, and orders before the page. */
  function FirstProblem(c: Criteria): Option<Problem> {
    if FilterProblems(c.filters).Some? then FilterProblems(c.filters)
    else if OrderProblems(c.orders).Some? then OrderProblems(c.orders)
    else PageProblem(c.pagination)
  }

  method Validate(c: Criteria) returns (problem: Option<Problem>)
    ensures problem == FirstProblem(c)
  {
    var i := 0;
    while i < |c.filters|
      invariant 0 <= i <= |c.filters| && FilterProblems(c.filters) == FilterProblems(c.filters[i..])
    {
      var f := c.filters[i];
      assert c.filters[i..][1..] == c.filters[i + 1..];
      if !ValidName(f.field) { return Some(FilterField(f.field)); }
      if NeedsValue(f.op) && f.value.Nil? { return Some(MissingValue(f.op)); }
      i := i + 1;
    }
    i := 0;
    while i < |c.orders|
      invariant 0 <= i <= |c.orders| && OrderProblems(c.orders) == OrderProblems(c.orders[i..])
    {
      var o := c.orders[i];
      assert c.orders[i..][1..] == c.orders[i + 1..];
      if !ValidName(o.field) { return Some(OrderField(o.field)); }
      if o.direction.Unknown? { return Some(OrderDirection(o.direction)); }
      i := i + 1;
    }
    if c.pagination.limit != 0 {
      if c.pagination.limit <= 0 { return Some(Limit); }
      if c.pagination.offset < 0 { return Some(Offset); }
    }
    return None;
  }

  /** A filter that binds a parameter for every placeholder it writes. */
  predicate Fed(f: Filter) {
    f.value.Nil? ==> f.op.IsNull? || f.op.IsNotNull? || f.op.In? || f.op.NotIn?
  }

  ghost predicate AllFed(fs: seq<Filter>) {
    forall f :: f in fs ==> Fed(f)
  }

  /** A name has a letter or an underscore first, and then also digits and dots: nothing that SQL could take apart. */
  lemma ValidNameIff(field: string)
    ensures ValidName(field) <==>
              && field != "" && !('0' <= field[0] <= '9') && field[0] != '.'
              && forall i :: 0 <= i < |field| ==>
                   var c := field[i];
                   'a' <= c <= 'z' || 'A' <= c <= 'Z' || '0' <= c <= '9' || c == '_' || c == '.'
  {}

  /** A filter that validation lets pass: only the null tests, and operators it does not know, do without a value. */
  ghost predicate IsGood(f: Filter) {
    ValidName(f.field) && (f.value.Nil? ==> f.op.IsNull? || f.op.IsNotNull? || f.op.Undeclared?)
  }

  ghost predicate IsGoodOrder(o: Order) {
    ValidName(o.field) && (o.direction.Asc? || o.direction.Desc?)
  }

  /** The index of the first filter that is no good, or the number of filters. */
  lemma {:induction false} FirstBadFilter(fs: seq<Filter>) returns (k: nat)
    ensures k <= |fs| && forall i :: 0 <= i < k ==> IsGood(fs[i])
    ensures k == |fs| ==> FilterProblems(fs).None?
    ensures k < |fs| ==>
              && !IsGood(fs[k])
              && FilterProblems(fs) == Some(if ValidName(fs[k].field) then MissingValue(fs[k].op)
                                            else FilterField(fs[k].field))
  {
    k := 0;
    if fs != [] && IsGood(fs[0]) {
      k := FirstBadFilter(fs[1..]);
      k := k + 1;
    }
  }

  lemma {:induction false} FirstBadOrder(os: seq<Order>) returns (k: nat)
    ensures k <= |os| && forall i :: 0 <= i < k ==> IsGoodOrder(os[i])
    ensures k == |os| ==> OrderProblems(os).None?
    ensures k < |os| ==>
              && !IsGoodOrder(os[k])
              && OrderProblems(os) == Some(if ValidName(os[k].field) then OrderDirection(os[k].direction)
                                           else OrderField(os[k].field))
  {
    k := 0;
    if os != [] && IsGoodOrder(os[0]) {
      k := FirstBadOrder(os[1..]);
      k := k + 1;
    }
  }

  /** The problem reported is that of the first bad filter, or else of the first bad order, or else of the page. */
  lemma ProblemIsTheFirst(c: Criteria) returns (f: nat, o: nat)
    ensures f <= |c.filters| && forall i :: 0 <= i < f ==> IsGood(c.filters[i])
    ensures o <= |c.orders| && forall i :: 0 <= i < o ==> IsGoodOrder(c.orders[i])
    ensures f < |c.filters| ==>
              var x := c.filters[f];
              && !IsGood(x)
              && FirstProblem(c) == Some(if ValidName(x.field) then MissingValue(x.op) else FilterField(x.field))
    ensures f == |c.filters| && o < |c.orders| ==>
              var x := c.orders[o];
              && !IsGoodOrder(x)
              && FirstProblem(c)
                 == Some(if ValidName(x.field) then OrderDirection(x.direction) else OrderField(x.field))
    ensures f == |c.filters| && o == |c.orders| ==>
              && (FirstProblem(c) == Some(Limit) <==> c.pagination.limit < 0)
              && (FirstProblem(c) == Some(Offset) <==> c.pagination.limit > 0 && c.pagination.offset < 0)
              && (FirstProblem(c) == None <==>
                    c.pagination.limit == 0 || (c.pagination.limit > 0 && c.pagination.offset >= 0))
  {
    f := FirstBadFilter(c.filters);
    o := FirstBadOrder(c.orders);
  }

  /** Validation says yes exactly to well-named filters with the values they need. */
  lemma {:induction false} ValidFilters(fs: seq<Filter>)
    ensures FilterProblems(fs).None? <==> forall f :: f in fs ==> IsGood(f)
    ensures FilterProblems(fs).None? ==> (AllFed(fs) <==> forall f :: f in fs && f.op.Undeclared? ==> !f.value.Nil?)
  {
    if fs != [] {
      ValidFilters(fs[1..]);
      assert fs == [fs[0]] + fs[1..];
      assert (forall f :: f in fs ==> IsGood(f)) <==> IsGood(fs[0]) && forall f :: f in fs[1..] ==> IsGood(f);
    }
  }

  lemma {:induction false} ValidOrders(os: seq<Order>)
    ensures OrderProblems(os).None? <==> forall o :: o in os ==> IsGoodOrder(o)
  {
    if os != [] {
      ValidOrders(os[1..]);
      assert os == [os[0]] + os[1..];
      assert (forall o :: o in os ==> IsGoodOrder(o)) <==>
             IsGoodOrder(os[0]) && forall o :: o in os[1..] ==> IsGoodOrder(o);
    }
  }

  /** What validated criteria are. */
  lemma ValidIff(c: Criteria)
    ensures FirstProblem(c).None? <==>
              && (forall f :: f in c.filters ==> IsGood(f)) && (forall o :: o in c.orders ==> IsGoodOrder(o))
              && (c.pagination.limit == 0 || (c.pagination.limit > 0 && c.pagination.offset >= 0))
  {
    ValidFilters(c.filters);
    ValidOrders(c.orders);
  }
}
