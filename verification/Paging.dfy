/** Page requests, page counts, the clause list of a query, and the pages fetched with them. */
module Paging {
  import opened Filtering

  const TWO63: int := 0x8000_0000_0000_0000
  const TWO64: int := 0x1_0000_0000_0000_0000

  // Go's int and int64.
  type Int64 = x: int | -0x8000_0000_0000_0000 <= x < 0x8000_0000_0000_0000

  // The value of an int expression after wrap-around.
  function Wrap(x: int): Int64 {
    (x + TWO63) % TWO64 - TWO63
  }

  const DEFAULT_PAGE_SIZE: Int64 := 10
  const DEFAULT_PAGE_INDEX: Int64 := 1

  function SizeOf(pageSize: Int64): Int64 {
    if pageSize <= 0 then DEFAULT_PAGE_SIZE else pageSize
  }

  function IndexOf(pageIndex: Int64): Int64 {
    if pageIndex <= 0 then DEFAULT_PAGE_INDEX else pageIndex
  }

  function SkipOf(pageIndex: Int64, pageSize: Int64): Int64 {
    Wrap((IndexOf(pageIndex) - 1) * SizeOf(pageSize))
  }

  class PagedListRequest {
    var PageIndex: Int64
    var PageSize: Int64
    var Skip: Int64

    constructor (pageIndex: Int64, pageSize: Int64)
      ensures PageIndex == pageIndex && PageSize == pageSize
    {
      PageIndex, PageSize, Skip := pageIndex, pageSize, 0;
    }

    method InitPage()
      modifies this
      ensures PageSize == SizeOf(old(PageSize)) && PageIndex == IndexOf(old(PageIndex))
      ensures Skip == SkipOf(old(PageIndex), old(PageSize))
    {
      if PageSize <= 0 {
        PageSize := DEFAULT_PAGE_SIZE;
      }
      if PageIndex <= 0 {
        PageIndex := DEFAULT_PAGE_INDEX;
      }
      Skip := Wrap((PageIndex - 1) * PageSize);
    }
  }

  // The page count that SetTotal stores for a positive total.
  function CountOf(total: nat, pageSize: int): nat {
    if pageSize <= 1 then total
    else if total % pageSize > 0 then total / pageSize + 1
    else total / pageSize
  }

  class PagedListResult {
    var PageIndex: Int64
    var PageSize: Int64
    var PageCount: Int64
    var TotalItemCount: Int64

    constructor (pageIndex: Int64, pageSize: Int64)
      ensures PageIndex == pageIndex && PageSize == pageSize && PageCount == 0 && TotalItemCount == 0
    {
      PageIndex, PageSize, PageCount, TotalItemCount := pageIndex, pageSize, 0, 0;
    }

    // A total below one leaves whatever was there.
    method SetTotal(total: Int64)
      modifies this`TotalItemCount, this`PageCount
      ensures total < 1 ==> TotalItemCount == old(TotalItemCount) && PageCount == old(PageCount)
      ensures total >= 1 ==> TotalItemCount == total && PageCount == CountOf(total, PageSize)
    {
      if total < 1 {
        return;
      }
      TotalItemCount := total;
      if PageSize <= 1 {
        PageCount := total;
        return;
      }
      CountBound(total, PageSize);
      PageCount := total / PageSize;
      if total % PageSize > 0 {
        PageCount := PageCount + 1;
      }
    }
  }

  lemma {:induction false} NoRowsNoPages(size: int)
    ensures CountOf(0, size) == 0
  {
    if size > 1 {
      assert 0 / size == 0 && 0 % size == 0;
    }
  }

  lemma {:induction false} CountBound(total: nat, size: int)
    requires size > 1 && total >= 1
    ensures 0 <= total / size <= total && CountOf(total, size) <= total
  {
    var q, r := total / size, total % size;
    assert total == size * q + r && q >= 0;
    MultiplyOrder(2, size, q);
  }

  function All<Row, Clause>(clauses: seq<Clause>, matches: (Clause, Row) -> bool): Row -> bool {
    row => forall i :: 0 <= i < |clauses| ==> matches(clauses[i], row)
  }

  class Expression<Clause> {
    var List: seq<Clause>

    constructor ()
      ensures List == []
    {
      List := [];
    }

    method And(clause: Clause)
      modifies this
      ensures List == old(List) + [clause]
    {
      List := List + [clause];
    }
  }

  class Repository<Row, Clause> {
    const matches: (Clause, Row) -> bool

    constructor (matches: (Clause, Row) -> bool)
      ensures this.matches == matches
    {
      this.matches := matches;
    }

    // Queryable narrows the rows clause by clause; no expression leaves them alone.
    method Queryable(db: seq<Row>, expression: Expression?<Clause>) returns (r: seq<Row>)
      ensures r == if expression == null then db else Filter(db, All(expression.List, matches))
    {
      if expression == null {
        return db;
      }
      r := db;
      ghost var list := expression.List;
      FilterAll(db, All([], matches));
      for i := 0 to |expression.List|
        invariant r == Filter(db, All(list[..i], matches))
      {
        var clause := expression.List[i];
        FilterTwice(db, All(list[..i], matches), row => matches(clause, row), All(list[..i + 1], matches));
        r := Filter(r, row => matches(clause, row));
      }
      assert list[..|list|] == list;
    }
  
    // A failing count or find is reported as an error; the total counts all matching rows.
    method GetPageList(
      db: seq<Row>, expression: Expression?<Clause>, req: PagedListRequest, countFails: bool, findFails: bool)
      returns (r: PageResult<Row>)
      requires |db| < TWO63
      ensures var rows := if expression == null then db else Filter(db, All(expression.List, matches));
        r == if countFails || findFails then Failed else Page(Window(rows, req.Skip, req.PageSize), |rows|)
    {
      var dbCtx := Queryable(db, expression);
      if countFails {
        return Failed;
      }
      var total := |dbCtx|;
      if findFails {
        return Failed;
      }
      return Page(Window(dbCtx, req.Skip, req.PageSize), total);
    }

    ghost function Matching(db: seq<Row>, expression: Expression?<Clause>): seq<Row>
      reads expression
    {
      if expression == null then db else Filter(db, All(expression.List, matches))
    }

    // One request from start to end: initialised, fetched, and its total turned into a page count.
    method FetchPage(db: seq<Row>, expression: Expression?<Clause>, pageIndex: Int64, pageSize: Int64)
      returns (rows: seq<Row>, count: Int64)
      requires |db| < TWO63
      ensures rows == PageOf(Matching(db, expression), pageIndex, pageSize)
      ensures count == CountOf(|Matching(db, expression)|, SizeOf(pageSize))
    {
      if expression != null {
        FilterShrinks(db, All(expression.List, matches));
      }
      var req := new PagedListRequest(pageIndex, pageSize);
      req.InitPage();
      var page := GetPageList(db, expression, req, false, false);
      var result := new PagedListResult(req.PageIndex, req.PageSize);
      NoRowsNoPages(req.PageSize);
      result.SetTotal(page.total);
      return page.rows, result.PageCount;
    }

    // A caller that asks for page after page until the page count is reached has read exactly the
    // matching rows, in order.
    method FetchAll(db: seq<Row>, expression: Expression?<Clause>, pageSize: Int64) returns (all: seq<Row>)
      requires |db| < TWO63
      ensures all == if expression == null then db else Filter(db, All(expression.List, matches))
    {
      ghost var rows := Matching(db, expression);
      var _, count := FetchPage(db, expression, 1, pageSize);
      if expression != null {
        FilterShrinks(db, All(expression.List, matches));
      }
      all := [];
      for i := 0 to count
        invariant all == Pages(rows, pageSize, i)
      {
        var page, _ := FetchPage(db, expression, i + 1, pageSize);
        all := all + page;
      }
      PagesPartition(rows, pageSize);
    }
  }

  datatype PageResult<Row> = Page(rows: seq<Row>, total: nat) | Failed

  // OFFSET applies when positive, LIMIT when not negative.
  function Window<Row>(rows: seq<Row>, offset: int, limit: int): seq<Row> {
    var from := if offset <= 0 then 0 else if offset < |rows| then offset else |rows|;
    var rest := rows[from..];
    if 0 <= limit < |rest| then rest[..limit] else rest
  }

  // --- Theorems ---------------------------------------------------------------------------

  // The page that a request with these fields gets after InitPage.
  function PageOf<Row>(rows: seq<Row>, pageIndex: Int64, pageSize: Int64): seq<Row> {
    Window(rows, SkipOf(pageIndex, pageSize), SizeOf(pageSize))
  }

  // Pages 1..n, one after the other.
  function Pages<Row>(rows: seq<Row>, pageSize: Int64, n: nat): seq<Row>
    requires n < TWO63
  {
    if n == 0 then [] else Pages(rows, pageSize, n - 1) + PageOf(rows, n, pageSize)
  }

  lemma {:induction false} WrapSmall(x: int)
    requires 0 <= x < TWO63
    ensures Wrap(x) == x
  {
  }

  lemma {:induction false} CountMeaning(total: nat, size: int)
    requires size >= 1
    ensures var n := CountOf(total, size); (n - 1) * size < total <= n * size || (total == 0 && n == 0)
  {
    if size > 1 {
      assert total == size * (total / size) + total % size;
    }
  }

  // A result that keeps a non-positive size counts one row a page, while its pages hold ten: the
  // count fits the pages exactly when the size is positive or there is at most one row.
  lemma {:induction false} RawSizeExactly(total: nat, pageSize: Int64)
    ensures CountOf(total, pageSize) == CountOf(total, SizeOf(pageSize)) <==> pageSize >= 1 || total <= 1
  {
    if pageSize < 1 {
      var q, r := total / 10, total % 10;
      assert total == 10 * q + r;
    }
  }

  // Page i within the count starts where the previous ones end.
  lemma {:induction false} PageStarts(total: nat, size: Int64, i: nat)
    requires total < TWO63 && size >= 1 && 1 <= i <= CountOf(total, size)
    ensures 0 <= (i - 1) * size < total
    ensures i < CountOf(total, size) ==> i * size < total
    ensures i < TWO63
  {
    var n := CountOf(total, size);
    CountMeaning(total, size);
    MultiplyOrder(i - 1, n - 1, size);
    if i < n {
      MultiplyOrder(i, n - 1, size);
    }
    MultiplyOrder(1, size, i - 1);
  }

  lemma {:induction false} MultiplyOrder(a: int, b: int, c: int)
    requires a <= b && c >= 0
    ensures a * c <= b * c
  {
  }

  // Within the count a page is the stretch of rows from (i-1)*size to i*size, so every page but
  // the last is full and the last is not empty.
  lemma {:induction false} PageContents<Row>(rows: seq<Row>, pageSize: Int64, i: nat)
    requires |rows| < TWO63 && 1 <= i <= CountOf(|rows|, SizeOf(pageSize))
    ensures i < TWO63
    ensures var size := SizeOf(pageSize);
      var (lo, hi) := ((i - 1) * size, i * size);
      && 0 <= lo < |rows|
      && PageOf(rows, i, pageSize) == (if hi < |rows| then rows[lo..hi] else rows[lo..])
      && PageOf(rows, i, pageSize) != []
      && (i < CountOf(|rows|, size) ==> |PageOf(rows, i, pageSize)| == size)
  {
    var size := SizeOf(pageSize);
    var lo, hi := (i - 1) * size, i * size;
    PageStarts(|rows|, size, i);
    NextPage(size, i);
    WrapSmall(lo);
    assert PageOf(rows, i, pageSize) == Window(rows, lo, size);
    PageWindow(rows, lo, hi, size);
  }

  lemma {:induction false} NextPage(size: int, i: int)
    ensures i * size == (i - 1) * size + size
  {
  }

  lemma {:induction false} PageWindow<Row>(rows: seq<Row>, lo: int, hi: int, size: int)
    requires 0 <= lo < |rows| && hi == lo + size && size >= 1
    ensures var w := Window(rows, lo, size);
      && w == (if hi < |rows| then rows[lo..hi] else rows[lo..])
      && w != [] && (hi <= |rows| ==> |w| == size)
  {
  }

  lemma {:induction false} PagesPrefix<Row>(rows: seq<Row>, pageSize: Int64, n: nat)
    requires |rows| < TWO63 && n <= CountOf(|rows|, SizeOf(pageSize))
    ensures n < TWO63
    ensures var hi := n * SizeOf(pageSize);
      Pages(rows, pageSize, n) == if 0 <= hi < |rows| then rows[..hi] else rows
  {
    if n > 0 {
      var size := SizeOf(pageSize);
      var lo, hi := (n - 1) * size, n * size;
      NextPage(size, n);
      PagesPrefix(rows, pageSize, n - 1);
      PageContents(rows, pageSize, n);
      AppendPage(rows, lo, hi, PageOf(rows, n, pageSize));
    }
  }

  lemma {:induction false} AppendPage<Row>(rows: seq<Row>, lo: nat, hi: nat, page: seq<Row>)
    requires lo < |rows| && lo <= hi && page == if hi < |rows| then rows[lo..hi] else rows[lo..]
    ensures rows[..lo] + page == if hi < |rows| then rows[..hi] else rows
  {
  }

  // Pages 1..PageCount, in order, are exactly the matching rows.
  lemma {:induction false} PagesPartition<Row>(rows: seq<Row>, pageSize: Int64)
    requires |rows| < TWO63
    ensures var n := CountOf(|rows|, SizeOf(pageSize)); n < TWO63 && Pages(rows, pageSize, n) == rows
  {
    var n := CountOf(|rows|, SizeOf(pageSize));
    PagesPrefix(rows, pageSize, n);
    CountMeaning(|rows|, SizeOf(pageSize));
  }

  // A page past the count is empty exactly when there are no rows or its offset, wrapped to 64
  // bits, still lies behind them.
  lemma {:induction false} PastTheEndExactly<Row>(rows: seq<Row>, pageSize: Int64, i: Int64)
    requires |rows| < TWO63 && i > CountOf(|rows|, SizeOf(pageSize))
    ensures PageOf(rows, i, pageSize) == [] <==> rows == [] || Wrap((i - 1) * SizeOf(pageSize)) >= |rows|
    ensures (i - 1) * SizeOf(pageSize) < TWO63 ==> PageOf(rows, i, pageSize) == []
  {
    var size := SizeOf(pageSize);
    PastOffset(|rows|, size, i);
    EmptyWindow(rows, Wrap((i - 1) * size), size);
    if (i - 1) * size < TWO63 {
      WrapSmall((i - 1) * size);
    }
  }

  lemma {:induction false} PastOffset(total: nat, size: int, i: int)
    requires size >= 1 && i > CountOf(total, size)
    ensures (i - 1) * size >= total
  {
    CountMeaning(total, size);
    MultiplyOrder(CountOf(total, size), i - 1, size);
  }

  lemma {:induction false} EmptyWindow<Row>(rows: seq<Row>, offset: int, limit: int)
    requires limit > 0
    ensures Window(rows, offset, limit) == [] <==> rows == [] || offset >= |rows|
  {
  }

  // Such an offset can wrap: page 2^62 + 1 of size 4 is page 1 again.
  lemma {:induction false} PastTheEndWraps<Row>(rows: seq<Row>)
    requires |rows| < TWO63
    ensures PageOf(rows, 0x4000_0000_0000_0001, 4) == PageOf(rows, 1, 4)
  {
  }

  // What a page request and a clause list mean to a caller.
  lemma {:induction false} WindowRows<Row>(rows: seq<Row>, offset: int, limit: int)
    ensures var w := Window(rows, offset, limit);
      var from := if offset < 0 then 0 else offset;
      var most := if from < |rows| then |rows| - from else 0;
      && |w| == (if 0 <= limit < most then limit else most)
      && forall i :: 0 <= i < |w| ==> w[i] == rows[from + i]
  {
  }

  // A request without page fields asks for the first ten rows.
  lemma {:induction false} DefaultPage<Row>(rows: seq<Row>, pageIndex: Int64, pageSize: Int64)
    requires pageIndex <= 0 && pageSize <= 0
    ensures PageOf(rows, pageIndex, pageSize) == if |rows| <= 10 then rows else rows[..10]
    ensures PageOf(rows, 1, 10) == PageOf(rows, pageIndex, pageSize)
  {
  }

  // The rows of an answer are the rows of the table that satisfy every clause.
  lemma {:induction false} ClausesSelect<Row, Clause>(
    db: seq<Row>, clauses: seq<Clause>, matches: (Clause, Row) -> bool)
    ensures forall row :: row in Filter(db, All(clauses, matches)) <==>
              row in db && forall clause :: clause in clauses ==> matches(clause, row)
  {
    FilterPartition(db, [], All(clauses, matches));
    forall row | row in db
      ensures All(clauses, matches)(row) <==> forall clause :: clause in clauses ==> matches(clause, row)
    {
    }
  }
}
