/** The comparison the in-memory sort is given: orders are tried one after the other, columns by their kind. */
module Ordering {
  import opened Criteria
  import opened SqlWhere
  import opened MemoryFilter
  import opened Text

  /** Numbers by their float64 values, texts without regard to case; anything else compares as equal. */
  function Compare(a: Value, b: Value): int {
    if ToFloat(a).Some? && ToFloat(b).Some? then
      Sign(ToFloat(a).value < ToFloat(b).value, ToFloat(a).value > ToFloat(b).value)
    else if a.Str? && b.Str? then
      Sign(Before(LowerAll(a.text), LowerAll(b.text)), Before(LowerAll(b.text), LowerAll(a.text)))
    else 0
  }

  /** How one order ranks two rows; a column missing from either is passed over. */
  function Rank(a: Row, b: Row, o: Order): int {
    if o.field !in a || o.field !in b then 0
    else if o.direction.Asc? then Compare(a[o.field], b[o.field])
    else -Compare(a[o.field], b[o.field])
  }

  predicate LessByOrders(a: Row, b: Row, orders: seq<Order>) {
    orders != [] &&
    if Rank(a, b, orders[0]) != 0 then Rank(a, b, orders[0]) < 0 else LessByOrders(a, b, orders[1..])
  }

  datatype Family = Numeric | Textual | Neither

  function FamilyOf(v: Value): Family {
    if ToFloat(v).Some? then Numeric else if v.Str? then Textual else Neither
  }

  /** Where two values differ, the third is of their family. */
  predicate Settled(x: Value, y: Value, z: Value) {
    && (Compare(x, z) != 0 ==> FamilyOf(y) == FamilyOf(x))
    && (Compare(x, y) != 0 ==> FamilyOf(z) == FamilyOf(x))
    && (Compare(y, z) != 0 ==> FamilyOf(x) == FamilyOf(y))
  }

  /** Three rows that every order can rank without a contradiction. */
  predicate Comparable(a: Row, b: Row, c: Row, orders: seq<Order>) {
    forall i :: 0 <= i < |orders| ==>
      Settled(Column(a, orders[i].field), Column(b, orders[i].field), Column(c, orders[i].field))
  }

  lemma CompareIsAntisymmetric(a: Value, b: Value)
    ensures Compare(a, b) == -Compare(b, a) && Compare(a, a) == 0
  {
    if a.Str? && b.Str? { BeforeIsTotal(LowerAll(a.text), LowerAll(b.text)); }
    if a.Str? { BeforeIsTotal(LowerAll(a.text), LowerAll(a.text)); }
  }

  lemma CompareIsTransitive(a: Value, b: Value, c: Value)
    requires FamilyOf(a) == FamilyOf(b) == FamilyOf(c)
    requires Compare(a, b) <= 0 && Compare(b, c) <= 0
    ensures Compare(a, c) <= 0 && (Compare(a, c) == 0 ==> Compare(a, b) == 0 && Compare(b, c) == 0)
  {
    if a.Str? {
      var x, y, z := LowerAll(a.text), LowerAll(b.text), LowerAll(c.text);
      BeforeIsTotal(x, y);
      BeforeIsTotal(y, z);
      BeforeIsTotal(x, z);
      if Before(x, y) && Before(y, z) { BeforeIsTransitive(x, y, z); }
    }
  }

  lemma CompareCarries(x: Value, y: Value, z: Value)
    requires Settled(x, y, z) && Compare(x, y) <= 0 && Compare(y, z) <= 0
    ensures Compare(x, z) <= 0 && (Compare(x, z) == 0 ==> Compare(x, y) == 0 && Compare(y, z) == 0)
  {
    if FamilyOf(x) == FamilyOf(y) == FamilyOf(z) { CompareIsTransitive(x, y, z); }
  }

  /** A missing column ranks like one that compares with nothing. */
  lemma RankIsCompare(a: Row, b: Row, o: Order)
    ensures var k := Compare(Column(a, o.field), Column(b, o.field));
            Rank(a, b, o) == if o.direction.Asc? then k else -k
  {}

  lemma RankIsAntisymmetric(a: Row, b: Row, o: Order)
    ensures Rank(a, b, o) == -Rank(b, a, o)
  {
    RankIsCompare(a, b, o);
    RankIsCompare(b, a, o);
    CompareIsAntisymmetric(Column(a, o.field), Column(b, o.field));
  }

  lemma RankIsTransitive(a: Row, b: Row, c: Row, o: Order)
    requires Settled(Column(a, o.field), Column(b, o.field), Column(c, o.field))
    requires Rank(a, b, o) <= 0 && Rank(b, c, o) <= 0
    ensures Rank(a, c, o) <= 0 && (Rank(a, c, o) == 0 ==> Rank(a, b, o) == 0 && Rank(b, c, o) == 0)
  {
    var x, y, z := Column(a, o.field), Column(b, o.field), Column(c, o.field);
    RankIsCompare(a, b, o);
    RankIsCompare(b, c, o);
    RankIsCompare(a, c, o);
    CompareIsAntisymmetric(x, y);
    CompareIsAntisymmetric(y, z);
    CompareIsAntisymmetric(x, z);
    if o.direction.Asc? { CompareCarries(x, y, z); } else { CompareCarries(z, y, x); }
  }

  /** Not ordered either way. */
  predicate Tied(a: Row, b: Row, orders: seq<Order>) {
    !LessByOrders(a, b, orders) && !LessByOrders(b, a, orders)
  }

  lemma {:induction false} LessIsAsymmetric(a: Row, b: Row, orders: seq<Order>)
    ensures !(LessByOrders(a, b, orders) && LessByOrders(b, a, orders)) && !LessByOrders(a, a, orders)
  {
    if orders != [] {
      RankIsAntisymmetric(a, b, orders[0]);
      RankIsAntisymmetric(a, a, orders[0]);
      LessIsAsymmetric(a, b, orders[1..]);
    }
  }

  lemma {:induction false} NotLessIsTransitive(a: Row, b: Row, c: Row, orders: seq<Order>)
    requires Comparable(a, b, c, orders)
    requires !LessByOrders(b, a, orders) && !LessByOrders(c, b, orders)
    ensures !LessByOrders(c, a, orders)
    ensures LessByOrders(a, b, orders) || LessByOrders(b, c, orders) ==> LessByOrders(a, c, orders)
  {
    if orders != [] {
      var o, rest := orders[0], orders[1..];
      assert forall i :: 0 <= i < |rest| ==> rest[i] == orders[i + 1];
      RankIsAntisymmetric(a, b, o);
      RankIsAntisymmetric(b, c, o);
      RankIsAntisymmetric(a, c, o);
      RankIsTransitive(a, b, c, o);
      if Rank(a, b, o) == 0 && Rank(b, c, o) == 0 {
        RankIsTransitive(c, b, a, o);
        NotLessIsTransitive(a, b, c, rest);
      }
    }
  }

  lemma ComparableBackwards(a: Row, b: Row, c: Row, orders: seq<Order>)
    requires Comparable(a, b, c, orders)
    ensures Comparable(c, b, a, orders)
  {
    forall i | 0 <= i < |orders|
      ensures Settled(Column(c, orders[i].field), Column(b, orders[i].field), Column(a, orders[i].field))
    {
      var x, y, z := Column(a, orders[i].field), Column(b, orders[i].field), Column(c, orders[i].field);
      CompareIsAntisymmetric(x, y);
      CompareIsAntisymmetric(y, z);
      CompareIsAntisymmetric(x, z);
    }
  }

  /** The laws that sorting asks of a comparison, for three rows. */
  predicate Lawful(a: Row, b: Row, c: Row, orders: seq<Order>) {
    && !LessByOrders(a, a, orders)
    && (LessByOrders(a, b, orders) ==> !LessByOrders(b, a, orders))
    && (LessByOrders(a, b, orders) && LessByOrders(b, c, orders) ==> LessByOrders(a, c, orders))
    && (Tied(a, b, orders) && Tied(b, c, orders) ==> Tied(a, c, orders))
  }

  lemma ComparableIsLawful(a: Row, b: Row, c: Row, orders: seq<Order>)
    requires Comparable(a, b, c, orders)
    ensures Lawful(a, b, c, orders)
  {
    LessIsAsymmetric(a, b, orders);
    LessIsAsymmetric(b, c, orders);
    LessIsAsymmetric(a, c, orders);
    if !LessByOrders(b, a, orders) && !LessByOrders(c, b, orders) { NotLessIsTransitive(a, b, c, orders); }
    if !LessByOrders(a, b, orders) && !LessByOrders(b, c, orders) {
      ComparableBackwards(a, b, c, orders);
      NotLessIsTransitive(c, b, a, orders);
    }
  }

  // ---- which rows can be sorted ----

  /** Among the values, being tied is transitive. */
  ghost predicate TiesCarry(values: set<Value>) {
    forall x, y, z :: x in values && y in values && z in values && Compare(x, y) == 0 && Compare(y, z) == 0 ==>
      Compare(x, z) == 0
  }

  /** No two values differ while a third is of another family: they are of one family, or all tied. */
  ghost predicate Unmixed(values: set<Value>) {
    forall x, y, z :: x in values && y in values && z in values && Compare(x, z) != 0 ==> FamilyOf(y) == FamilyOf(x)
  }

  lemma TiesCarryIffUnmixed(values: set<Value>)
    ensures TiesCarry(values) <==> Unmixed(values)
  {
    if Unmixed(values) {
      forall x, y, z | x in values && y in values && z in values && Compare(x, y) == 0 && Compare(y, z) == 0
        ensures Compare(x, z) == 0
      {
        CompareIsAntisymmetric(x, y);
        CompareIsAntisymmetric(y, z);
        CompareIsAntisymmetric(x, z);
        if Compare(x, z) != 0 {
          assert FamilyOf(y) == FamilyOf(x) == FamilyOf(z);
          CompareIsTransitive(x, y, z);
          CompareIsTransitive(z, y, x);
        }
      }
    } else {
      var x, y, z :| x in values && y in values && z in values && Compare(x, z) != 0 && FamilyOf(y) != FamilyOf(x);
      assert Compare(x, y) == 0 && Compare(y, z) == 0;
    }
  }

  function Columns(rows: set<Row>, field: string): set<Value> {
    set r | r in rows :: Column(r, field)
  }

  /** The comparison is a strict weak order on the rows, which is what sorting asks of it. */
  ghost predicate Sortable(rows: set<Row>, orders: seq<Order>) {
    forall a, b, c :: a in rows && b in rows && c in rows ==> Lawful(a, b, c, orders)
  }

  ghost predicate AllComparable(rows: set<Row>, orders: seq<Order>) {
    forall a, b, c :: a in rows && b in rows && c in rows ==> Comparable(a, b, c, orders)
  }

  lemma UnmixedIsComparable(rows: set<Row>, orders: seq<Order>)
    requires forall o :: o in orders ==> Unmixed(Columns(rows, o.field))
    ensures AllComparable(rows, orders)
  {
    forall a, b, c | a in rows && b in rows && c in rows
      ensures Comparable(a, b, c, orders)
    {
      forall i | 0 <= i < |orders|
        ensures Settled(Column(a, orders[i].field), Column(b, orders[i].field), Column(c, orders[i].field))
      {
        var values := Columns(rows, orders[i].field);
        assert orders[i] in orders && Unmixed(values);
        assert Column(a, orders[i].field) in values && Column(b, orders[i].field) in values
               && Column(c, orders[i].field) in values;
      }
    }
  }

  /** Rows whose ordered columns are unmixed can be sorted by any orders on them. */
  lemma UnmixedIsSortable(rows: set<Row>, orders: seq<Order>)
    requires forall o :: o in orders ==> Unmixed(Columns(rows, o.field))
    ensures Sortable(rows, orders)
  {
    UnmixedIsComparable(rows, orders);
    forall a, b, c | a in rows && b in rows && c in rows
      ensures Lawful(a, b, c, orders)
    {
      ComparableIsLawful(a, b, c, orders);
    }
  }

  lemma OneOrder(a: Row, b: Row, o: Order)
    ensures LessByOrders(a, b, [o]) <==> Rank(a, b, o) < 0
    ensures Tied(a, b, [o]) <==> Compare(Column(a, o.field), Column(b, o.field)) == 0
  {
    assert [o][0] == o && [o][1..] == [];
    RankIsCompare(a, b, o);
    RankIsAntisymmetric(a, b, o);
    assert LessByOrders(b, a, [o]) <==> Rank(b, a, o) < 0;
  }

  /** Rows can be sorted by one order exactly when its column is unmixed. */
  lemma SortableByOneIffUnmixed(rows: set<Row>, o: Order)
    ensures Sortable(rows, [o]) <==> Unmixed(Columns(rows, o.field))
  {
    var values := Columns(rows, o.field);
    if Unmixed(values) {
      UnmixedIsSortable(rows, [o]);
    } else {
      TiesCarryIffUnmixed(values);
      var x, y, z :| x in values && y in values && z in values
        && Compare(x, y) == 0 && Compare(y, z) == 0 && Compare(x, z) != 0;
      var a :| a in rows && Column(a, o.field) == x;
      var b :| b in rows && Column(b, o.field) == y;
      var c :| c in rows && Column(c, o.field) == z;
      OneOrder(a, b, o);
      OneOrder(b, c, o);
      OneOrder(a, c, o);
      assert !Lawful(a, b, c, [o]);
    }
  }

  /** Rows can be sorted by every list of orders on some fields exactly when each of those columns is unmixed. */
  lemma SortableIffUnmixed(rows: set<Row>, fields: set<string>)
    ensures (forall orders: seq<Order> :: (forall o :: o in orders ==> o.field in fields) ==> Sortable(rows, orders))
            <==> forall f :: f in fields ==> Unmixed(Columns(rows, f))
  {
    if forall f :: f in fields ==> Unmixed(Columns(rows, f)) {
      forall orders: seq<Order> | forall o :: o in orders ==> o.field in fields
        ensures Sortable(rows, orders)
      {
        UnmixedIsSortable(rows, orders);
      }
    } else {
      var f :| f in fields && !Unmixed(Columns(rows, f));
      SortableByOneIffUnmixed(rows, Order(f, Asc));
      assert !Sortable(rows, [Order(f, Asc)]);
    }
  }

  /**
   * One order on a column of numbers: ascending by value, descending the other way round, with the exception of
   * different numbers of one float64 value, which are tied.
   */
  lemma NumbersAreOrderedByValue(a: Row, b: Row, f: string)
    requires f in a && f in b && ToFloat(a[f]).Some? && ToFloat(b[f]).Some?
    ensures DatumOf(a[f]).Quantity? && DatumOf(b[f]).Quantity?
    ensures LessByOrders(a, b, [Order(f, Asc)]) <==> DatumOf(a[f]).x < DatumOf(b[f]).x && ToFloat(a[f]) != ToFloat(b[f])
    ensures LessByOrders(a, b, [Order(f, Desc)])
            <==> DatumOf(a[f]).x > DatumOf(b[f]).x && ToFloat(a[f]) != ToFloat(b[f])
  {
    RoundingKeepsOrder(a[f], b[f]);
    RoundingKeepsOrder(b[f], a[f]);
    assert [Order(f, Asc)][1..] == [] && [Order(f, Desc)][1..] == [];
  }

  /** Rows are sorted by a numeric column as the database sorts them exactly when no two numbers round alike. */
  lemma SortedByValueIff(rows: set<Row>, f: string)
    requires forall r :: r in rows ==> f in r && ToFloat(r[f]).Some?
    ensures (forall a, b :: a in rows && b in rows ==>
               (LessByOrders(a, b, [Order(f, Asc)]) <==> Precedes(DatumOf(a[f]), DatumOf(b[f]))))
            <==> forall a, b :: a in rows && b in rows && ToFloat(a[f]) == ToFloat(b[f]) ==>
                   DatumOf(a[f]) == DatumOf(b[f])
  {
    forall a, b | a in rows && b in rows
      ensures (LessByOrders(a, b, [Order(f, Asc)]) <==> Precedes(DatumOf(a[f]), DatumOf(b[f])))
              <==> (ToFloat(a[f]) == ToFloat(b[f]) ==> DatumOf(a[f]).x >= DatumOf(b[f]).x)
      ensures DatumOf(a[f]).Quantity? && DatumOf(b[f]).Quantity?
    {
      NumbersAreOrderedByValue(a, b, f);
    }
  }

  /** One order on a column of texts: alphabetical in lower case, descending the other way round. */
  lemma TextsAreOrderedAlphabetically(a: Row, b: Row, f: string)
    requires f in a && f in b && a[f].Str? && b[f].Str?
    ensures var x, y := LowerAll(a[f].text), LowerAll(b[f].text);
            && (LessByOrders(a, b, [Order(f, Asc)]) <==> exists k :: FirstDiffers(x, y, k))
            && (LessByOrders(a, b, [Order(f, Desc)]) <==> exists k :: FirstDiffers(y, x, k))
  {
    var x, y := LowerAll(a[f].text), LowerAll(b[f].text);
    BeforeIff(x, y);
    BeforeIff(y, x);
    BeforeIsTotal(x, y);
    assert [Order(f, Asc)][1..] == [] && [Order(f, Desc)][1..] == [];
  }

  /** Values of neither kind, and values of different kinds, are left where the other orders put them. */
  lemma OthersAreNotOrdered(a: Row, b: Row, o: Order)
    requires o.field in a && o.field in b
    requires !(ToFloat(a[o.field]).Some? && ToFloat(b[o.field]).Some?) && !(a[o.field].Str? && b[o.field].Str?)
    ensures Tied(a, b, [o])
  {
    assert [o][1..] == [];
  }

  /** Descending is ascending turned round, whatever the column holds. */
  lemma DescendingReverses(a: Row, b: Row, f: string)
    ensures LessByOrders(a, b, [Order(f, Desc)]) <==> LessByOrders(b, a, [Order(f, Asc)])
  {
    assert [Order(f, Asc)][1..] == [] && [Order(f, Desc)][1..] == [];
    RankIsAntisymmetric(a, b, Order(f, Asc));
    assert Rank(a, b, Order(f, Desc)) == -Rank(a, b, Order(f, Asc));
  }

  /** Later orders only break the ties of earlier ones. */
  lemma {:induction false} LaterOrdersBreakTies(a: Row, b: Row, first: seq<Order>, second: seq<Order>)
    ensures LessByOrders(a, b, first + second)
            <==> LessByOrders(a, b, first) || (Tied(a, b, first) && LessByOrders(a, b, second))
  {
    if first == [] {
      assert first + second == second;
    } else {
      assert (first + second)[1..] == first[1..] + second;
      RankIsAntisymmetric(a, b, first[0]);
      LaterOrdersBreakTies(a, b, first[1..], second);
    }
  }

  /** No row is less than an earlier one. */
  ghost predicate Sorted(rows: seq<Row>, orders: seq<Order>) {
    forall i, j :: 0 <= i < j < |rows| ==> !LessByOrders(rows[j], rows[i], orders)
  }

  function Members(rows: seq<Row>): set<Row> {
    set r | r in rows
  }

  ghost predicate Orderly(rows: seq<Row>, orders: seq<Order>) {
    forall o :: o in orders ==> Unmixed(Columns(Members(rows), o.field))
  }

  /** What sorting makes of a list: a fixed rearrangement, in order when the ordered columns are unmixed. */
  ghost predicate Arranges(arrange: seq<Row> -> seq<Row>, orders: seq<Order>) {
    forall s: seq<Row> :: multiset(arrange(s)) == multiset(s) && (Orderly(s, orders) ==> Sorted(arrange(s), orders))
  }

  function Insert(x: Row, rows: seq<Row>, orders: seq<Order>): seq<Row> {
    if rows == [] || !LessByOrders(rows[0], x, orders) then [x] + rows
    else [rows[0]] + Insert(x, rows[1..], orders)
  }

  function InsertionSort(rows: seq<Row>, orders: seq<Order>): seq<Row> {
    if rows == [] then [] else Insert(rows[0], InsertionSort(rows[1..], orders), orders)
  }

  lemma {:induction false} InsertPermutes(x: Row, rows: seq<Row>, orders: seq<Order>)
    ensures multiset(Insert(x, rows, orders)) == multiset(rows) + multiset{x}
  {
    if rows != [] && LessByOrders(rows[0], x, orders) {
      InsertPermutes(x, rows[1..], orders);
      assert rows == [rows[0]] + rows[1..];
    }
  }

  lemma {:induction false} InsertSorts(x: Row, rows: seq<Row>, orders: seq<Order>, all: set<Row>)
    requires Sorted(rows, orders) && AllComparable(all, orders)
    requires x in all && forall r :: r in rows ==> r in all
    ensures Sorted(Insert(x, rows, orders), orders)
  {
    if rows == [] {
    } else if !LessByOrders(rows[0], x, orders) {
      forall j | 0 <= j < |rows|
        ensures !LessByOrders(rows[j], x, orders)
      {
        if j > 0 {
          assert rows[0] in rows && rows[j] in rows;
          NotLessIsTransitive(x, rows[0], rows[j], orders);
        }
      }
    } else {
      var rest := Insert(x, rows[1..], orders);
      InsertSorts(x, rows[1..], orders, all);
      InsertPermutes(x, rows[1..], orders);
      LessIsAsymmetric(rows[0], x, orders);
      forall j | 0 <= j < |rest|
        ensures !LessByOrders(rest[j], rows[0], orders)
      {
        assert rest[j] in multiset(rest);
        assert rest[j] == x || rest[j] in rows[1..];
      }
    }
  }

  lemma {:induction false} InsertionSortPermutes(rows: seq<Row>, orders: seq<Order>)
    ensures multiset(InsertionSort(rows, orders)) == multiset(rows)
  {
    if rows != [] {
      InsertionSortPermutes(rows[1..], orders);
      InsertPermutes(rows[0], InsertionSort(rows[1..], orders), orders);
      assert rows == [rows[0]] + rows[1..];
    }
  }

  lemma {:induction false} InsertionSortSorts(rows: seq<Row>, orders: seq<Order>, all: set<Row>)
    requires AllComparable(all, orders) && forall r :: r in rows ==> r in all
    ensures Sorted(InsertionSort(rows, orders), orders)
  {
    if rows != [] {
      var sorted := InsertionSort(rows[1..], orders);
      InsertionSortSorts(rows[1..], orders, all);
      InsertionSortPermutes(rows[1..], orders);
      forall r | r in sorted
        ensures r in all
      {
        assert r in multiset(sorted);
        assert r in rows[1..];
      }
      assert rows[0] in rows;
      InsertSorts(rows[0], sorted, orders, all);
    }
  }

  /** The comparison can be sorted by, whatever the orders. */
  lemma SomethingArranges(orders: seq<Order>)
    ensures exists arrange: seq<Row> -> seq<Row> :: Arranges(arrange, orders)
  {
    var arrange := (s: seq<Row>) => InsertionSort(s, orders);
    forall s: seq<Row>
      ensures multiset(arrange(s)) == multiset(s) && (Orderly(s, orders) ==> Sorted(arrange(s), orders))
    {
      InsertionSortPermutes(s, orders);
      if Orderly(s, orders) {
        UnmixedIsComparable(Members(s), orders);
        InsertionSortSorts(s, orders, Members(s));
      }
    }
    assert Arranges(arrange, orders);
  }
}
