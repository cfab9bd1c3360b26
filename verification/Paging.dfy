/** Filtering, sorting and cutting a list into pages in memory. */
module Paging {
  import opened Wrappers
  import opened Criteria
  import opened SqlWhere
  import opened MemoryFilter
  import opened Ordering
  import opened Text

  const DEFAULT_SIZE := 10
  const LARGEST_SIZE := 100

  function Size(pageSize: int): (k: int)
    ensures 1 <= k <= LARGEST_SIZE
  {
    if pageSize < 1 then DEFAULT_SIZE else if pageSize > LARGEST_SIZE then LARGEST_SIZE else pageSize
  }

  function NewPagination(page: int, pageSize: int): Pagination {
    var n, k := Max(page, 1), Size(pageSize);
    Pagination(n, k, k, Wrap64(Product(n - 1, k)))
  }

  function Product(a: int, b: int): int { a * b }

  function Ceiling(x: real): int { -(-x).Floor }

  function GetTotalPages(p: Pagination, total: int): int {
    if p.pageSize == 0 then 0 else Ceiling(total as real / p.pageSize as real)
  }

  // A slice expression whose bounds are out of order or out of range stops the program.
  datatype Fault = BadSlice

  /** The page of a filtered list. */
  function Cut(rows: seq<Row>, p: Pagination): Result<seq<Row>, Fault> {
    if p.limit <= 0 then Ok(rows)
    else if p.offset >= |rows| then Ok([])
    else
      var end := Min(Wrap64(p.offset + p.limit), |rows|);
      if 0 <= p.offset <= end then Ok(rows[p.offset..end]) else Err(BadSlice)
  }

  function Matching(items: seq<Row>, fs: seq<Filter>): seq<Row> {
    if items == [] then []
    else
      var x := items[|items| - 1];
      Matching(items[..|items| - 1], fs) + if MatchesFilters(x, fs) then [x] else []
  }

  function Arranged(items: seq<Row>, c: Criteria, arrange: seq<Row> -> seq<Row>): seq<Row> {
    if |c.orders| > 0 then arrange(Matching(items, c.filters)) else Matching(items, c.filters)
  }

  function Applied(items: seq<Row>, c: Criteria, arrange: seq<Row> -> seq<Row>): Result<seq<Row>, Fault> {
    if items == [] then Ok([]) else Cut(Arranged(items, c, arrange), c.pagination)
  }

  method ApplyInMemory(items: seq<Row>, c: Criteria, arrange: seq<Row> -> seq<Row>)
    returns (page: Result<seq<Row>, Fault>, totalCount: int)
    ensures totalCount == |Matching(items, c.filters)|
    ensures page == Applied(items, c, arrange)
  {
    if |items| == 0 { return Ok(items), 0; }
    var filtered: seq<Row> := [];
    var i := 0;
    while i < |items|
      invariant 0 <= i <= |items| && filtered == Matching(items[..i], c.filters)
    {
      assert items[..i + 1][..i] == items[..i];
      if MatchesFilters(items[i], c.filters) { filtered := filtered + [items[i]]; }
      i := i + 1;
    }
    assert items[..|items|] == items;
    totalCount := |filtered|;
    if |c.orders| > 0 { filtered := arrange(filtered); }
    if c.pagination.limit != 0 && c.pagination.limit > 0 {
      var offset := c.pagination.offset;
      if offset >= |filtered| { return Ok([]), totalCount; }
      var end := Wrap64(offset + c.pagination.limit);
      if end > |filtered| { end := |filtered|; }
      if !(0 <= offset <= end) { return Err(BadSlice), totalCount; }
      filtered := filtered[offset..end];
    }
    return Ok(filtered), totalCount;
  }

  lemma SameLength(s: seq<Row>, arrange: seq<Row> -> seq<Row>)
    requires multiset(arrange(s)) == multiset(s)
    ensures |arrange(s)| == |s|
  {
    assert |multiset(arrange(s))| == |multiset(s)|;
  }

  /** Cutting stops the program exactly for a page that starts at a negative position or ends past 64 bits. */
  lemma CutFailsIff(rows: seq<Row>, p: Pagination)
    requires Fits64(p.offset) && Fits64(p.limit)
    ensures Cut(rows, p).Err? <==>
              p.limit > 0 && p.offset < |rows| && (p.offset < 0 || !Fits64(p.offset + p.limit))
  {
    if Fits64(p.offset + p.limit) {
      WrapFits(p.offset + p.limit);
    } else if p.limit > 0 && p.offset >= 0 {
      assert Wrap64(p.offset + p.limit) == p.offset + p.limit - 0x1_0000_0000_0000_0000;
    }
  }

  /** A limit that is not positive shows everything; any other shows at most so many rows, from the offset on. */
  lemma CutShows(rows: seq<Row>, p: Pagination)
    requires Fits64(p.offset) && Fits64(p.limit) && Cut(rows, p).Ok?
    ensures p.limit <= 0 ==> Cut(rows, p).value == rows
    ensures p.limit > 0 ==>
              var shown := Cut(rows, p).value;
              && |shown| == Min(p.limit, Max(|rows| - p.offset, 0))
              && forall i :: 0 <= i < |shown| ==> p.offset >= 0 && shown[i] == rows[p.offset + i]
  {
    CutFailsIff(rows, p);
    if Fits64(p.offset + p.limit) { WrapFits(p.offset + p.limit); }
  }

  /** Pages count from 1 and have 10 rows unless a size from 1 to 100 is asked for; a larger one counts as 100. */
  lemma PaginationIsOf(page: int, pageSize: int)
    ensures var p := NewPagination(page, pageSize);
            && p.page == (if page >= 1 then page else 1) && p.limit == p.pageSize
            && p.limit == (if 1 <= pageSize <= 100 then pageSize else if pageSize > 100 then 100 else 10)
            && (Fits64((p.page - 1) * p.limit) ==> p.offset == (p.page - 1) * p.limit)
  {
    var p := NewPagination(page, pageSize);
    if Fits64(Product(p.page - 1, p.limit)) { WrapFits(Product(p.page - 1, p.limit)); }
  }

  // ---- pages ----

  /** A list short enough for the arithmetic on its positions to stay in 64 bits. */
  ghost predicate Indexable(rows: seq<Row>) {
    Fits64(|rows| + LARGEST_SIZE)
  }

  /** The rows of page n in blocks of k, by position. */
  function Block(rows: seq<Row>, n: nat, k: nat): seq<Row>
    requires n >= 1
  {
    var lo, hi := Min(Product(n - 1, k), |rows|), Min(Product(n, k), |rows|);
    if 0 <= lo <= hi then rows[lo..hi] else []
  }

  lemma ProductSteps(n: int, k: int)
    ensures Product(n, k) == Product(n - 1, k) + k
    ensures n >= 1 && k >= 0 ==> Product(n - 1, k) >= 0
  {
    assert n * k == (n - 1) * k + k;
    if n >= 1 && k >= 0 { assert (n - 1) * k >= 0; }
  }

  lemma WrapFits(n: int)
    requires Fits64(n)
    ensures Wrap64(n) == n
  {}

  /**
   * Asking for page n gives block n exactly when its offset fits 64 bits or wraps to a position past the end.
   * Otherwise a negative offset stops the program and a small one shows some other page.
   */
  lemma PageIsBlockIff(rows: seq<Row>, n: nat, pageSize: int)
    requires n >= 1 && Indexable(rows)
    ensures var k := Size(pageSize);
            Cut(rows, NewPagination(n, pageSize)) == Ok(Block(rows, n, k))
            <==> Fits64(Product(n - 1, k)) || Wrap64(Product(n - 1, k)) >= |rows|
  {
    var k := Size(pageSize);
    var offset := Product(n - 1, k);
    ProductSteps(n, k);
    if Fits64(offset) {
      WrapFits(offset);
      if offset < |rows| { WrapFits(offset + k); }
    } else {
      var w := Wrap64(offset);
      assert Block(rows, n, k) == [];
      if 0 <= w < |rows| {
        WrapFits(w + k);
        assert |rows[w..Min(w + k, |rows|)]| > 0;
      }
    }
  }

  /** The pages that stop the in-memory filter are exactly the ones validation refuses before it writes SQL. */
  lemma StopsIffRefused(rows: seq<Row>, n: int, pageSize: int)
    requires Indexable(rows)
    ensures Cut(rows, NewPagination(n, pageSize)).Err? <==> PageProblem(NewPagination(n, pageSize)).Some?
  {
    var p := NewPagination(n, pageSize);
    CutFailsIff(rows, p);
  }

  /** Page 2^62 + 1 of size 100 is page 1 again. */
  lemma FarPageRepeatsTheFirst()
    ensures NewPagination(0x4000_0000_0000_0001, 100) == NewPagination(1, 100).(page := 0x4000_0000_0000_0001)
  {
    assert Product(0x4000_0000_0000_0000, 100) == 25 * 0x1_0000_0000_0000_0000;
  }

  /** The first n blocks, one after the other. */
  function Blocks(rows: seq<Row>, n: nat, k: nat): seq<Row> {
    if n == 0 then [] else Blocks(rows, n - 1, k) + Block(rows, n, k)
  }

  lemma PrefixGrows(rows: seq<Row>, lo: nat, hi: nat)
    requires lo <= hi <= |rows|
    ensures rows[..lo] + rows[lo..hi] == rows[..hi]
  {}

  lemma {:induction false} BlocksArePrefix(rows: seq<Row>, n: nat, k: nat)
    ensures 0 <= Product(n, k) && Blocks(rows, n, k) == rows[..Min(Product(n, k), |rows|)]
  {
    ProductSteps(n, k);
    if n == 0 {
      assert Product(0, k) == 0;
    } else {
      BlocksArePrefix(rows, n - 1, k);
      PrefixGrows(rows, Min(Product(n - 1, k), |rows|), Min(Product(n, k), |rows|));
    }
  }

  /** The number of pages is the least one whose blocks reach the end; pages without a size count as none. */
  lemma TotalPagesIsLeast(p: Pagination, total: nat)
    ensures var t := GetTotalPages(p, total);
            && (p.pageSize == 0 ==> t == 0)
            && (p.pageSize > 0 ==>
                  0 <= t && total <= Product(t, p.pageSize) && (t > 0 ==> Product(t - 1, p.pageSize) < total))
  {
    var k := p.pageSize;
    if k > 0 {
      var x := total as real / k as real;
      var t := GetTotalPages(p, total);
      assert t as real >= x > (t - 1) as real;
      assert x * k as real == total as real;
      Scale(t, k, x);
      Scale(t - 1, k, x);
    }
  }

  lemma Scale(t: int, k: int, x: real)
    requires k > 0
    ensures t as real >= x ==> (t * k) as real >= x * k as real
    ensures t as real < x ==> ((t * k) as real) < x * k as real
  {
    var kr, tr := k as real, t as real;
    assert (t * k) as real == tr * kr;
    if tr >= x {
      assert (tr - x) * kr >= 0.0;
    } else {
      assert (x - tr) * kr > 0.0;
    }
  }

  lemma ProductIsMonotone(m: int, n: int, k: nat)
    requires m <= n
    ensures Product(m, k) <= Product(n, k)
  {
    assert (n - m) * k >= 0;
    assert n * k == m * k + (n - m) * k;
  }

  lemma PageIsFull(rows: seq<Row>, n: nat, k: nat, t: nat)
    requires 1 <= n <= t && k >= 1
    requires |rows| <= Product(t, k) && Product(t - 1, k) < |rows|
    ensures |Block(rows, n, k)| == if n < t then k else |rows| - Product(t - 1, k)
    ensures |Block(rows, n, k)| >= 1 && 0 <= Product(n - 1, k) < |rows|
  {
    ProductSteps(n, k);
    ProductIsMonotone(n - 1, t - 1, k);
    if n < t { ProductIsMonotone(n, t - 1, k); }
  }

  lemma BeyondIsEmpty(rows: seq<Row>, n: nat, k: nat, t: nat)
    requires t < n && |rows| <= Product(t, k)
    ensures Block(rows, n, k) == []
  {
    ProductIsMonotone(t, n - 1, k);
    ProductIsMonotone(n - 1, n, k);
  }

  /**
   * The pages 1, 2, ... up to the announced total show every row once, in order: all full but the last, which is
   * not empty. Later pages are empty as far as their offset fits 64 bits.
   */
  lemma PagesPartitionTheList(rows: seq<Row>, pageSize: int)
    requires Indexable(rows)
    ensures var k, t := Size(pageSize), GetTotalPages(NewPagination(1, pageSize), |rows|);
            && t >= 0 && Blocks(rows, t, k) == rows
            && (forall n: nat :: 1 <= n <= t ==>
                  && Cut(rows, NewPagination(n, pageSize)) == Ok(Block(rows, n, k))
                  && |Block(rows, n, k)| >= 1 && (n < t ==> |Block(rows, n, k)| == k))
            && (forall n: nat :: n > t && n >= 1 && Fits64(Product(n - 1, k)) ==>
                  Cut(rows, NewPagination(n, pageSize)) == Ok([]))
  {
    var k, t := Size(pageSize), GetTotalPages(NewPagination(1, pageSize), |rows|);
    TotalPagesIsLeast(NewPagination(1, pageSize), |rows|);
    BlocksArePrefix(rows, t, k);
    forall n: nat | 1 <= n <= t
      ensures Cut(rows, NewPagination(n, pageSize)) == Ok(Block(rows, n, k))
      ensures |Block(rows, n, k)| >= 1 && (n < t ==> |Block(rows, n, k)| == k)
    {
      PageIsFull(rows, n, k, t);
      PageIsBlockIff(rows, n, pageSize);
    }
    forall n: nat | n > t && n >= 1 && Fits64(Product(n - 1, k))
      ensures Cut(rows, NewPagination(n, pageSize)) == Ok([])
    {
      BeyondIsEmpty(rows, n, k, t);
      PageIsBlockIff(rows, n, pageSize);
    }
  }

  /** Filtering keeps every matching row, as often as it occurs, and nothing else. */
  lemma {:induction false} MatchingKeepsMatches(items: seq<Row>, fs: seq<Filter>, x: Row)
    ensures multiset(Matching(items, fs))[x] == if MatchesFilters(x, fs) then multiset(items)[x] else 0
    ensures |Matching(items, fs)| <= |items|
  {
    if items != [] {
      var front := items[..|items| - 1];
      assert items == front + [items[|items| - 1]];
      MatchingKeepsMatches(front, fs, x);
    }
  }

  /**
   * Paging through a query in memory shows every matching row exactly once, and nothing else; when the ordered
   * columns are unmixed, in the requested order across all pages.
   */
  lemma PagesShowEveryMatchOnce(items: seq<Row>, c: Criteria, arrange: seq<Row> -> seq<Row>, pageSize: int, x: Row)
    requires Arranges(arrange, c.orders) && Indexable(items)
    ensures var all := Arranged(items, c, arrange);
            var k, t := Size(pageSize), GetTotalPages(NewPagination(1, pageSize), |Matching(items, c.filters)|);
            && t >= 0
            && (forall n: nat :: 1 <= n <= t ==>
                  Applied(items, c.(pagination := NewPagination(n, pageSize)), arrange) == Ok(Block(all, n, k)))
            && multiset(Blocks(all, t, k))[x] == (if MatchesFilters(x, c.filters) then multiset(items)[x] else 0)
            && (c.orders != [] && Orderly(Matching(items, c.filters), c.orders) ==>
                  Sorted(Blocks(all, t, k), c.orders))
  {
    var found := Matching(items, c.filters);
    var all := Arranged(items, c, arrange);
    var k, t := Size(pageSize), GetTotalPages(NewPagination(1, pageSize), |found|);
    MatchingKeepsMatches(items, c.filters, x);
    SameLength(found, arrange);
    PagesPartitionTheList(all, pageSize);
    forall n: nat | 1 <= n <= t
      ensures Applied(items, c.(pagination := NewPagination(n, pageSize)), arrange) == Ok(Block(all, n, k))
    {
      assert Arranged(items, c.(pagination := NewPagination(n, pageSize)), arrange) == all;
    }
  }

  /** No row comes after one that its text, in lower case, precedes: up, or down the alphabet. */
  ghost predicate Alphabetical(rows: seq<Row>, f: string, down: bool)
    requires forall r: Row :: r in rows ==> f in r && r[f].Str?
  {
    forall i, j, k :: 0 <= i < j < |rows| ==>
      var x, y := LowerAll(rows[i][f].text), LowerAll(rows[j][f].text);
      if down then !FirstDiffers(x, y, k) else !FirstDiffers(y, x, k)
  }

  lemma TextColumnIsOrderly(rows: seq<Row>, o: Order)
    requires forall r: Row :: r in rows ==> o.field in r && r[o.field].Str?
    ensures Orderly(rows, [o])
  {
    var values := Columns(Members(rows), o.field);
    forall x | x in values
      ensures x.Str?
    {
      var r :| r in Members(rows) && Column(r, o.field) == x;
    }
    assert forall p :: p in [o] ==> p == o;
  }

  /** Pages of a query ordered by one text column follow the alphabet, without regard to case, across all pages. */
  lemma PagesAreAlphabetical(items: seq<Row>, c: Criteria, arrange: seq<Row> -> seq<Row>, pageSize: int, f: string,
                             down: bool)
    requires Arranges(arrange, c.orders) && Indexable(items)
    requires c.orders == [Order(f, if down then Desc else Asc)]
    requires forall r: Row :: r in items ==> f in r && r[f].Str?
    ensures var all := Arranged(items, c, arrange);
            var k, t := Size(pageSize), GetTotalPages(NewPagination(1, pageSize), |Matching(items, c.filters)|);
            && t >= 0 && (forall r: Row :: r in Blocks(all, t, k) ==> f in r && r[f].Str?)
            && Alphabetical(Blocks(all, t, k), f, down)
  {
    var found := Matching(items, c.filters);
    var all := Arranged(items, c, arrange);
    var k, t := Size(pageSize), GetTotalPages(NewPagination(1, pageSize), |found|);
    forall r: Row | r in found
      ensures r in items
    {
      assert r in multiset(found);
      MatchingKeepsMatches(items, c.filters, r);
    }
    TextColumnIsOrderly(found, c.orders[0]);
    PagesShowEveryMatchOnce(items, c, arrange, pageSize, map[]);
    var shown := Blocks(all, t, k);
    forall r: Row | r in shown
      ensures f in r && r[f].Str?
    {
      assert r in multiset(shown);
      PagesShowEveryMatchOnce(items, c, arrange, pageSize, r);
      assert r in multiset(items);
    }
    SortedIsAlphabetical(shown, f, down);
  }

  lemma SortedIsAlphabetical(rows: seq<Row>, f: string, down: bool)
    requires forall r: Row :: r in rows ==> f in r && r[f].Str?
    requires Sorted(rows, [Order(f, if down then Desc else Asc)])
    ensures Alphabetical(rows, f, down)
  {
    forall i, j, k | 0 <= i < j < |rows|
      ensures var x, y := LowerAll(rows[i][f].text), LowerAll(rows[j][f].text);
              if down then !FirstDiffers(x, y, k) else !FirstDiffers(y, x, k)
    {
      assert rows[i] in rows && rows[j] in rows;
      TextsAreOrderedAlphabetically(rows[j], rows[i], f);
    }
  }

  // ---- without orders ----

  /** The positions of the matches, in order. */
  function Positions(items: seq<Row>, fs: seq<Filter>): seq<nat> {
    if items == [] then []
    else
      Positions(items[..|items| - 1], fs) + if MatchesFilters(items[|items| - 1], fs) then [|items| - 1] else []
  }

  lemma {:induction false} PositionsPoint(items: seq<Row>, fs: seq<Filter>)
    ensures |Positions(items, fs)| == |Matching(items, fs)|
    ensures forall i :: 0 <= i < |Positions(items, fs)| ==>
              Positions(items, fs)[i] < |items| && Matching(items, fs)[i] == items[Positions(items, fs)[i]]
  {
    if items != [] {
      var front := items[..|items| - 1];
      PositionsPoint(front, fs);
      var ps, found := Positions(front, fs), Matching(front, fs);
      forall i | 0 <= i < |ps|
        ensures ps[i] < |items| && found[i] == items[ps[i]]
      {
        assert found[i] == front[ps[i]];
      }
    }
  }

  lemma {:induction false} PositionsAre(items: seq<Row>, fs: seq<Filter>, p: nat)
    requires p < |items|
    ensures p in Positions(items, fs) <==> MatchesFilters(items[p], fs)
  {
    var front := items[..|items| - 1];
    if p < |front| {
      PositionsAre(front, fs, p);
      assert front[p] == items[p];
    } else if p in Positions(front, fs) {
      PositionsPoint(front, fs);
      assert false;
    }
  }

  lemma {:induction false} PositionsIncrease(items: seq<Row>, fs: seq<Filter>)
    ensures forall i, j :: 0 <= i < j < |Positions(items, fs)| ==> Positions(items, fs)[i] < Positions(items, fs)[j]
  {
    if items != [] {
      PositionsIncrease(items[..|items| - 1], fs);
      PositionsPoint(items[..|items| - 1], fs);
    }
  }

  /** Without orders the matches come in the order in which the items are given. */
  lemma MatchesKeepTheirOrder(items: seq<Row>, fs: seq<Filter>)
    ensures var ps, found := Positions(items, fs), Matching(items, fs);
            && |ps| == |found| && (forall i :: 0 <= i < |ps| ==> ps[i] < |items| && found[i] == items[ps[i]])
            && (forall i, j :: 0 <= i < j < |ps| ==> ps[i] < ps[j])
            && (forall p: nat :: p < |items| ==> (p in ps <==> MatchesFilters(items[p], fs)))
  {
    PositionsPoint(items, fs);
    PositionsIncrease(items, fs);
    forall p: nat | p < |items|
      ensures p in Positions(items, fs) <==> MatchesFilters(items[p], fs)
    {
      PositionsAre(items, fs, p);
    }
  }
}
