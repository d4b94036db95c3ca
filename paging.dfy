/**
 * The page window `ApplyPagination` cuts, the flags `GetPaginated` reports, and the
 * request and result shapes around them. `PageNumber` and `PageSize` are 32-bit
 * `int`s, and C#'s unchecked arithmetic on them wraps around.
 */
module Paging {
  import opened Wrappers
  import opened Schema
  import opened Predicates
  import opened QuerySpec

  const Int32Min: int := -0x8000_0000
  const Int32Max: int := 0x7FFF_FFFF

  /** C#'s `int`. */
  type Int32 = x: int | Int32Min <= x <= Int32Max

  /** The `int` an unchecked C# expression yields for the mathematical value `x`. */
  function Wrap32(x: int): (r: Int32)
    ensures (r - x) % 0x1_0000_0000 == 0
    ensures Int32Min <= x <= Int32Max ==> r == x
  {
    var m := x % 0x1_0000_0000;
    if m > Int32Max then m - 0x1_0000_0000 else m
  }

  // ---------------------------------------------------------------------------
  // Request and result shapes
  // ---------------------------------------------------------------------------

  /** `IPaginated`. */
  datatype Paginated = Paginated(pageNumber: Int32, pageSize: Int32)

  /** `GeneralSearchOptions` as a request carries it. */
  datatype SearchRequest = SearchRequest(value: Option<string>, properties: Option<seq<string>>)

  /** `PaginatedOptions`: filters, search, sort and page. */
  datatype PaginatedOptions = PaginatedOptions(
    filters: Option<FilterMap>,
    search: Option<SearchRequest>,
    sortBy: Option<string>,
    direction: Option<string>,
    pageNumber: Int32,
    pageSize: Int32)
  {
    /** The options as the `IPaginated` they implement. */
    function Page(): Paginated {
      Paginated(pageNumber, pageSize)
    }
  }

  /** A `PaginatedOptions` as constructed: page 1 of 10, an empty filter map, nothing else set. */
  const DefaultOptions: PaginatedOptions := PaginatedOptions(Some([]), None, None, None, 1, 10)

  /** `PaginatedResult<T>`. */
  datatype PaginatedResult<T> = PaginatedResult(
    totalCount: Int32,
    hasNext: bool,
    hasPrevious: bool,
    pageNumber: Int32,
    pageSize: Int32,
    items: seq<T>)

  /** `ToPaginated(list, count, paginated, hasNext, hasPrevious)`. */
  function ToPaginated<T>(list: seq<T>, count: Int32, paginated: Paginated,
                          hasNext: bool := false, hasPrevious: bool := false): (r: PaginatedResult<T>)
    ensures r.items == list && r.totalCount == count
    ensures r.hasNext == hasNext && r.hasPrevious == hasPrevious
    ensures r.pageNumber == paginated.pageNumber && r.pageSize == paginated.pageSize
  {
    PaginatedResult(count, hasNext, hasPrevious, paginated.pageNumber, paginated.pageSize, list)
  }

  // ---------------------------------------------------------------------------
  // The window
  // ---------------------------------------------------------------------------

  /** LINQ `Skip(n)`: drops up to `n` leading elements, none when `n` is not positive. */
  function Skip<T>(q: seq<T>, n: int): seq<T>
    decreases |q|
  {
    if n <= 0 || q == [] then q else Skip(q[1..], n - 1)
  }

  /** LINQ `Take(n)`: keeps up to `n` leading elements, none when `n` is not positive. */
  function Take<T>(q: seq<T>, n: int): seq<T>
    decreases |q|
  {
    if n <= 0 || q == [] then [] else [q[0]] + Take(q[1..], n - 1)
  }

  lemma {:induction false} SkipIsSuffix<T>(q: seq<T>, n: int)
    ensures Skip(q, n) == q[Clamp(n, |q|)..]
    decreases |q|
  {
    if n > 0 && q != [] {
      SkipIsSuffix(q[1..], n - 1);
    }
  }

  lemma {:induction false} TakeIsPrefix<T>(q: seq<T>, n: int)
    ensures Take(q, n) == q[..Clamp(n, |q|)]
    decreases |q|
  {
    if n > 0 && q != [] {
      TakeIsPrefix(q[1..], n - 1);
      assert q[..Clamp(n, |q|)] == [q[0]] + q[1..][..Clamp(n - 1, |q| - 1)];
    }
  }

  /** `n` brought into `0..len`. */
  function Clamp(n: int, len: nat): (r: nat)
    ensures r <= len
    ensures 0 <= n <= len ==> r == n
  {
    if n <= 0 then 0 else if n >= len then len else n
  }

  /** The count `ApplyPagination` skips: `PageNumber - 1 * PageSize`, that is `PageNumber - PageSize`. */
  function SkipCount(request: Paginated): Int32 {
    Wrap32(request.pageNumber - 1 * request.pageSize)
  }

  /** `ApplyPagination(query, request)`. */
  function ApplyPagination<T>(q: seq<T>, request: Paginated): seq<T> {
    Take(Skip(q, SkipCount(request)), request.pageSize)
  }

  /**
   * The window is the contiguous run of the query that starts `PageNumber - PageSize`
   * records in (none when that is not positive) and holds up to `PageSize` records.
   */
  lemma PaginationWindow<T>(q: seq<T>, request: Paginated)
    ensures var lo := Clamp(SkipCount(request), |q|);
      ApplyPagination(q, request) == q[lo..lo + Clamp(request.pageSize, |q| - lo)]
    ensures Int32Min <= request.pageNumber - request.pageSize <= Int32Max ==> SkipCount(request) == request.pageNumber - request.pageSize
    ensures |ApplyPagination(q, request)| <= if request.pageSize <= 0 then 0 else request.pageSize
  {
    var lo := Clamp(SkipCount(request), |q|);
    SkipIsSuffix(q, SkipCount(request));
    TakeIsPrefix(q[lo..], request.pageSize);
    assert q[lo..][..Clamp(request.pageSize, |q| - lo)] == q[lo..lo + Clamp(request.pageSize, |q| - lo)];
  }

  /**
   * Every page number from 1 up to the page size selects the same window, the first
   * `PageSize` records: page 2 of size 10 repeats page 1.
   */
  lemma EarlyPagesRepeatTheFirst<T>(q: seq<T>, pageNumber: Int32, pageSize: Int32)
    requires 1 <= pageNumber <= pageSize
    ensures ApplyPagination(q, Paginated(pageNumber, pageSize)) == q[..Clamp(pageSize, |q|)]
  {
    PaginationWindow(q, Paginated(pageNumber, pageSize));
  }

  /** Beyond the page size, page `n` starts `n - PageSize` records in, not `(n - 1) * PageSize`. */
  lemma LaterPagesStartAtDifference<T>(q: seq<T>, pageNumber: Int32, pageSize: Int32)
    requires 0 < pageSize < pageNumber && pageNumber - pageSize <= |q|
    ensures ApplyPagination(q, Paginated(pageNumber, pageSize))
         == q[pageNumber - pageSize..pageNumber - pageSize + Clamp(pageSize, |q| - (pageNumber - pageSize))]
  {
    PaginationWindow(q, Paginated(pageNumber, pageSize));
  }

  // ---------------------------------------------------------------------------
  // The flags
  // ---------------------------------------------------------------------------

  /** `hasNext = ((PageNumber + 1) * PageSize) < count`, in wrapping `int` arithmetic. */
  predicate HasNext(request: Paginated, count: Int32) {
    Wrap32(Wrap32(request.pageNumber + 1) * request.pageSize) < count
  }

  /** `hasPrevious = PageNumber > 1`. */
  predicate HasPrevious(request: Paginated) {
    request.pageNumber > 1
  }

  /** Without overflow, `hasNext` holds when the records reach past the first `(PageNumber + 1) * PageSize`. */
  lemma HasNextWithoutOverflow(request: Paginated, count: Int32)
    requires Int32Min <= (request.pageNumber + 1) * request.pageSize <= Int32Max
    ensures HasNext(request, count) <==> (request.pageNumber + 1) * request.pageSize < count
  {
    var a := request.pageNumber + 1;
    var b := request.pageSize;
    var k := (Wrap32(a) - a) / 0x1_0000_0000;
    assert Wrap32(a) == a + k * 0x1_0000_0000;
    assert Wrap32(a) * b == a * b + (k * b) * 0x1_0000_0000;
    Wrap32Congruent(Wrap32(a) * b, a * b, k * b);
  }

  /** Values that differ by a multiple of 2^32 wrap to the same `int`. */
  lemma Wrap32Congruent(x: int, y: int, k: int)
    requires x == y + k * 0x1_0000_0000
    ensures Wrap32(x) == Wrap32(y)
  {
    assert x % 0x1_0000_0000 == y % 0x1_0000_0000;
  }

  /**
   * With 25 records, page 2 of size 10 reports no next page and a previous one; the
   * `PageNumber - PageSize` window shows the first 10 records again, not records 11 to 20.
   */
  lemma TwentyFiveRecordsPageTwo<T>(q: seq<T>)
    requires |q| == 25
    ensures !HasNext(Paginated(2, 10), 25) && HasPrevious(Paginated(2, 10))
    ensures ApplyPagination(q, Paginated(2, 10)) == q[..10]
  {
    EarlyPagesRepeatTheFirst(q, 2, 10);
  }

  // ---------------------------------------------------------------------------
  // The window and flag evidently intended
  // ---------------------------------------------------------------------------

  /** The first record of page `PageNumber`, counting from 0: `(PageNumber - 1) * PageSize`. */
  function PageStart(request: Paginated): int {
    (request.pageNumber - 1) * request.pageSize
  }

  /** The record just past page `PageNumber`: `PageNumber * PageSize`. */
  function PageEnd(request: Paginated): int {
    request.pageNumber * request.pageSize
  }

  /** The page window with the skip count parenthesised as intended. */
  function IntendedPagination<T>(q: seq<T>, request: Paginated): seq<T> {
    Take(Skip(q, Wrap32(PageStart(request))), request.pageSize)
  }

  /** `hasNext` as intended: records remain after the first `PageNumber * PageSize`. */
  predicate IntendedHasNext(request: Paginated, count: Int32) {
    Wrap32(PageEnd(request)) < count
  }

  /**
   * For page numbers from 1 and a positive page size whose product fits an `int`, page `n`
   * holds records `(n - 1) * size` up to `n * size` (fewer at the end), and `hasNext` holds
   * exactly when records remain after that page.
   */
  lemma IntendedPageIsNthBlock<T>(q: seq<T>, request: Paginated)
    requires 1 <= request.pageNumber && 0 < request.pageSize && PageEnd(request) <= Int32Max
    ensures IntendedPagination(q, request) == q[Clamp(PageStart(request), |q|)..Clamp(PageEnd(request), |q|)]
    ensures forall count: Int32 :: IntendedHasNext(request, count) <==> PageEnd(request) < count
  {
    PageBounds(request.pageNumber, request.pageSize, PageStart(request), PageEnd(request));
    var start, size := PageStart(request), request.pageSize;
    var lo := Clamp(start, |q|);
    SkipIsSuffix(q, start);
    TakeIsPrefix(q[lo..], size);
    assert lo + Clamp(size, |q| - lo) == Clamp(PageEnd(request), |q|);
    assert q[lo..][..Clamp(size, |q| - lo)] == q[lo..lo + Clamp(size, |q| - lo)];
  }

  /** The pages before page `n` of size `size` hold `size` records fewer than pages 1 to `n`. */
  lemma PageBounds(n: int, size: int, before: int, through: int)
    requires 1 <= n && 0 < size && before == (n - 1) * size && through == n * size
    ensures 0 <= before && through == before + size
  {
  }

  /** Page 2 of size 10 over 25 records holds records 11 to 20, and a next page is reported. */
  lemma IntendedTwentyFiveRecordsPageTwo<T>(q: seq<T>)
    requires |q| == 25
    ensures IntendedPagination(q, Paginated(2, 10)) == q[10..20]
    ensures IntendedHasNext(Paginated(2, 10), 25)
  {
    IntendedPageIsNthBlock(q, Paginated(2, 10));
    assert PageStart(Paginated(2, 10)) == 10 && PageEnd(Paginated(2, 10)) == 20;
  }

  // ---------------------------------------------------------------------------
  // WhereNotNull
  // ---------------------------------------------------------------------------

  /** `WhereNotNull(query, obj, expression)`: the filter applies only when `obj` is present. */
  function WhereNotNull<O>(q: seq<Value>, obj: Option<O>, p: Pred): (r: seq<Value>)
    ensures obj.None? ==> r == q
    ensures forall x :: x in r <==> x in q && (obj.Some? ==> Eval(p, x))
  {
    if obj.Some? then Where(q, p) else q
  }
}
