/** What the generated statements select from a table, beside what the in-memory filter shows of the same rows. */
module SqlPages {
  import opened Wrappers
  import opened Criteria
  import opened SqlWhere
  import opened MemoryFilter
  import opened Paging

  // How the database puts rows in the order asked for.
  type Sorter = (seq<Order>, seq<Row>) -> seq<Row>

  /** WHERE: the rows of which the clause is true, neither false nor unknown. */
  function Held(w: Clause, rows: seq<Row>): seq<Row> {
    if rows == [] then []
    else
      var last := rows[|rows| - 1];
      Held(w, rows[..|rows| - 1]) + if Eval(w.conds, w.params, last) == True then [last] else []
  }

  /** OFFSET: the rows after the first n. */
  function Skip(rows: seq<Row>, n: int): seq<Row> {
    if n <= 0 || rows == [] then rows else Skip(rows[1..], n - 1)
  }

  /** LIMIT: the first n rows. */
  function Take(rows: seq<Row>, n: int): seq<Row> {
    if n <= 0 || rows == [] then [] else [rows[0]] + Take(rows[1..], n - 1)
  }

  /** OFFSET comes before LIMIT. */
  function Shown(rows: seq<Row>, page: Option<Window>): seq<Row> {
    if page.None? then rows else Take(Skip(rows, page.value.offset), page.value.limit)
  }

  /** The rows a statement selects: it filters, sorts if it names an order, and shows a page. */
  function Selected(s: Statement, table: seq<Row>, sort: Sorter): seq<Row> {
    var found := Held(s.where, table);
    Shown(if s.orders == [] then found else sort(s.orders, found), s.page)
  }

  lemma {:induction false} SkipIsSuffix(rows: seq<Row>, n: nat)
    ensures Skip(rows, n) == if n <= |rows| then rows[n..] else []
  {
    if n > 0 && rows != [] { SkipIsSuffix(rows[1..], n - 1); }
  }

  lemma {:induction false} TakeIsPrefix(rows: seq<Row>, n: nat)
    ensures Take(rows, n) == if n <= |rows| then rows[..n] else rows
  {
    if n > 0 && rows != [] { TakeIsPrefix(rows[1..], n - 1); }
  }

  lemma ShownIsSlice(rows: seq<Row>, offset: nat, limit: nat)
    ensures Take(Skip(rows, offset), limit)
            == if offset <= |rows| then rows[offset..Min(offset + limit, |rows|)] else []
  {
    SkipIsSuffix(rows, offset);
    if offset <= |rows| {
      var rest := rows[offset..];
      TakeIsPrefix(rest, limit);
      if offset + limit <= |rows| {
        assert rest[..limit] == rows[offset..offset + limit];
      }
    }
  }

  /** The page of the statement is the one that is cut in memory, unless its end leaves 64 bits. */
  lemma PageIsCutIff(rows: seq<Row>, p: Pagination)
    requires PageProblem(p).None? && Fits64(p.offset) && Fits64(p.limit)
    ensures Cut(rows, p) == Ok(Shown(rows, PageOf(p))) <==>
              p.limit == 0 || p.offset >= |rows| || Fits64(p.offset + p.limit)
  {
    CutFailsIff(rows, p);
    if p.limit > 0 {
      ShownIsSlice(rows, p.offset, p.limit);
      if Fits64(p.offset + p.limit) { WrapFits(p.offset + p.limit); }
    }
  }

  /** The row has every column that is asked about, and both evaluators understand every question. */
  ghost predicate AllShared(row: Row, fs: seq<Filter>) {
    forall i :: 0 <= i < |fs| ==>
      fs[i].field in row && !row[fs[i].field].Nil? && Shared(fs[i].op, row[fs[i].field], fs[i].value)
  }

  lemma {:induction false} HeldIsMatching(rows: seq<Row>, fs: seq<Filter>)
    requires forall r: Row :: r in rows ==> AllShared(r, fs)
    ensures Held(Compile(fs), rows) == Matching(rows, fs)
  {
    if rows != [] {
      HeldIsMatching(rows[..|rows| - 1], fs);
      var last := rows[|rows| - 1];
      assert AllShared(last, fs) by { assert last in rows; }
      EvaluatorsAgree(fs, last);
    }
  }

  /**
   * On rows that both evaluators understand, and sorted alike, valid criteria show the same rows in memory as in the
   * database, in the same order, exactly when the page starts past the last match or ends within 64 bits; otherwise
   * the slice expression in memory stops the program. The two counts are always equal.
   */
  lemma StatementShowsMemoryPageIff(base: string, table: seq<Row>, c: Criteria, sort: Sorter)
    requires FirstProblem(c).None? && Fits64(c.pagination.offset) && Fits64(c.pagination.limit)
    requires forall r: Row :: r in table ==> AllShared(r, c.filters)
    requires forall s :: |sort(c.orders, s)| == |s|
    ensures var found, p := Matching(table, c.filters), c.pagination;
            && (Applied(table, c, s => sort(c.orders, s)) == Ok(Selected(Selection(base, c), table, sort)) <==>
                  p.limit == 0 || p.offset >= |found| || Fits64(p.offset + p.limit))
            && |Selected(Counting(base, c), table, sort)| == |found|
  {
    HeldIsMatching(table, c.filters);
    ValidIff(c);
    if table == [] {
      assert sort(c.orders, []) == [];
      assert Selected(Selection(base, c), table, sort) == [];
    } else {
      PageIsCutIff(Arranged(table, c, s => sort(c.orders, s)), c.pagination);
    }
  }
}
