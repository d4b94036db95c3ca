/**
 * `EntityRepository` over the `Products` table. The table is a sequence of rows in insertion
 * order; the global query filter `!IsDeleted` hides soft-deleted rows from every query and
 * bulk update. Saving runs the audit interceptor first. The clock is a parameter.
 */
module Repository {
  import opened Wrappers
  import opened Text
  import opened Dates
  import opened Schema
  import opened Predicates
  import opened QuerySpec
  import opened QueryLemmas
  import opened Ordering
  import opened Paging
  import opened Products
  import opened AuditTime

  // ---------------------------------------------------------------------------
  // The table as queries see it
  // ---------------------------------------------------------------------------

  /** The rows the query filter `!IsDeleted` lets through, in table order. */
  function Visible(rows: seq<ProductRow>): (r: seq<ProductRow>)
    ensures |r| <= |rows|
    ensures forall row :: row in r <==> row in rows && !row.isDeleted
    ensures forall row {:trigger multiset(r)[row]} :: multiset(r)[row] == if row.isDeleted then 0 else multiset(rows)[row]
  {
    if rows == [] then []
    else
      assert rows == [rows[0]] + rows[1..];
      (if rows[0].isDeleted then [] else [rows[0]]) + Visible(rows[1..])
  }

  /** The filter keeps table order: the visible rows of two stretches of the table, one after the other. */
  lemma {:induction false} VisibleOfConcat(a: seq<ProductRow>, b: seq<ProductRow>)
    ensures Visible(a + b) == Visible(a) + Visible(b)
  {
    if a == [] {
      assert a + b == b;
    } else {
      assert (a + b)[0] == a[0] && (a + b)[1..] == a[1..] + b;
      VisibleOfConcat(a[1..], b);
    }
  }

  /** `context.Set<Product>()`: the visible rows as records. */
  function Records(rows: seq<ProductRow>): (r: seq<Value>)
    ensures |r| == |Visible(rows)|
    ensures forall k :: 0 <= k < |r| ==> r[k] == RowRecord(Visible(rows)[k])
  {
    var v := Visible(rows);
    seq(|v|, k requires 0 <= k < |v| => RowRecord(v[k]))
  }

  /**
   * `GetById(id, withTracking)`: `FirstOrDefault(x => x.Id == id)` over the visible rows.
   * Tracking decides only whether the context keeps watching the entity, not which row is found.
   */
  function GetById(rows: seq<ProductRow>, id: int, withTracking: bool): (r: Option<ProductRow>)
    ensures r.Some? ==> r.value in rows && r.value.id == id && !r.value.isDeleted
    ensures r.None? <==> forall row :: row in rows ==> row.id != id || row.isDeleted
  {
    if rows == [] then None
    else if rows[0].id == id && !rows[0].isDeleted then Some(rows[0])
    else
      assert rows == [rows[0]] + rows[1..];
      GetById(rows[1..], id, withTracking)
  }

  /** The row `GetById` finds is the first visible row with that id. */
  lemma {:induction false} GetByIdFindsFirst(rows: seq<ProductRow>, id: int, withTracking: bool)
    requires GetById(rows, id, withTracking).Some?
    ensures exists k :: (0 <= k < |rows| && rows[k] == GetById(rows, id, withTracking).value &&
      forall j :: 0 <= j < k ==> rows[j].id != id || rows[j].isDeleted)
  {
    if !(rows[0].id == id && !rows[0].isDeleted) {
      var tail := rows[1..];
      GetByIdFindsFirst(tail, id, withTracking);
      var k :| 0 <= k < |tail| && tail[k] == GetById(tail, id, withTracking).value &&
        forall j :: 0 <= j < k ==> tail[j].id != id || tail[j].isDeleted;
      assert rows[k + 1] == tail[k];
      forall j | 0 < j < k + 1 ensures rows[j].id != id || rows[j].isDeleted {
        assert rows[j] == tail[j - 1];
      }
    }
  }

  /** A row appended under a key no other row has is what `GetById` then finds for that key. */
  lemma {:induction false} AppendedRowIsFound(rows: seq<ProductRow>, row: ProductRow, withTracking: bool)
    requires forall k :: 0 <= k < |rows| ==> rows[k].id != row.id
    requires !row.isDeleted
    ensures GetById(rows + [row], row.id, withTracking) == Some(row)
  {
    if rows != [] {
      AppendedRowIsFound(rows[1..], row, withTracking);
      assert (rows + [row])[1..] == rows[1..] + [row];
    }
  }

  /** The position of the row with primary key `id`, deleted or not. */
  function IndexOfId(rows: seq<ProductRow>, id: int): (k: Option<nat>)
    ensures k.Some? ==> k.value < |rows| && rows[k.value].id == id
    ensures k.None? ==> forall i :: 0 <= i < |rows| ==> rows[i].id != id
  {
    if rows == [] then None
    else if rows[0].id == id then Some(0)
    else
      var k := IndexOfId(rows[1..], id);
      if k.Some? then Some(k.value + 1) else None
  }

  // ---------------------------------------------------------------------------
  // GetPaginated
  // ---------------------------------------------------------------------------

  /** `ApplyGenericFilter(options.Filters).GeneralSearch(options.Search)` over the visible records. */
  function Queryable(rows: seq<ProductRow>, cul: Culture, options: PaginatedOptions): seq<Value> {
    var filtered := FilteredQuery(ProductCatalog, cul, ProductType, Records(rows), options.filters);
    match options.search
    case None => filtered
    case Some(s) => SearchedQuery(ProductCatalog, cul, ProductType, filtered, s.value, s.properties)
  }

  /** `ApplySort(options.SortBy, options.Direction).ApplyPagination(options)` over the queryable. */
  function Window(rows: seq<ProductRow>, cul: Culture, options: PaginatedOptions): seq<Value> {
    var sorted := ApplySort(ProductCatalog, ProductType, Queryable(rows, cul, options), options.sortBy, options.direction);
    ApplyPagination(sorted, options.Page())
  }

  /**
   * `GetPaginated<Product, M>(options)`: the count of the filtered and searched records, and the
   * projected window of them once sorted. `CountAsync` throws when the count exceeds `int`.
   */
  function GetPaginated<M>(rows: seq<ProductRow>, cul: Culture, options: PaginatedOptions, project: Value -> M)
    : (r: Fallible<PaginatedResult<M>>)
    ensures r.Returns? <==> |Queryable(rows, cul, options)| <= Int32Max
    ensures r.Returns? ==> r.value.totalCount == |Queryable(rows, cul, options)|
    ensures r.Returns? ==> r.value.pageNumber == options.pageNumber && r.value.pageSize == options.pageSize
    ensures r.Returns? ==> r.value.hasNext == HasNext(options.Page(), r.value.totalCount)
    ensures r.Returns? ==> r.value.hasPrevious == (options.pageNumber > 1)
    ensures r.Returns? ==> (|r.value.items| == |Window(rows, cul, options)| &&
      forall k :: 0 <= k < |r.value.items| ==> r.value.items[k] == project(Window(rows, cul, options)[k]))
  {
    var queryable := Queryable(rows, cul, options);
    var count := |queryable|;
    if count > Int32Max then Throws
    else
      var window := Window(rows, cul, options);
      var models := seq(|window|, k requires 0 <= k < |window| => project(window[k]));
      Returns(ToPaginated(models, count, options.Page(), HasNext(options.Page(), count), HasPrevious(options.Page())))
  }

  /** A soft-deleted row's record differs from every visible row's: its `IsDeleted` is true. */
  lemma DeletedRecordIsNotVisible(rows: seq<ProductRow>, row: ProductRow)
    requires row.isDeleted
    ensures RowRecord(row) !in Records(rows)
  {
    forall k | 0 <= k < |Records(rows)| ensures Records(rows)[k] != RowRecord(row) {
      var other := Visible(rows)[k];
      assert other in Visible(rows);
      assert RowRecord(other).fields["IsDeleted"] != RowRecord(row).fields["IsDeleted"];
    }
  }

  /**
   * The queryable holds only visible records, so it never counts more records than are visible and
   * never holds a soft-deleted row.
   */
  lemma QueryableIsVisible(rows: seq<ProductRow>, cul: Culture, options: PaginatedOptions)
    ensures forall x :: x in Queryable(rows, cul, options) ==> x in Records(rows)
    ensures |Queryable(rows, cul, options)| <= |Visible(rows)|
    ensures forall row :: row in rows && row.isDeleted ==> RowRecord(row) !in Queryable(rows, cul, options)
  {
    var records := Records(rows);
    var filtered := FilteredQuery(ProductCatalog, cul, ProductType, records, options.filters);
    if options.filters.Some? && options.filters.value != [] {
      var cs := FilterContributions(ProductCatalog, cul, ProductType, options.filters.value);
      WhereAllIsConjunction(records, Somes(cs));
    }
    assert |filtered| <= |records| && forall x :: x in filtered ==> x in records;
    match options.search {
      case None =>
        assert Queryable(rows, cul, options) == filtered;
      case Some(s) =>
        SearchedQueryIsDisjunction(ProductCatalog, cul, ProductType, filtered, s.value, s.properties);
        var found := SearchedQuery(ProductCatalog, cul, ProductType, filtered, s.value, s.properties);
        if !IsNullOrWhiteSpace(s.value) {
          var p := SearchPredicate(ProductCatalog, cul, ProductType, Trim(s.value.value),
                                   EffectiveTargets(ProductCatalog, ProductType, s.properties).GetOr([]));
          assert p.Some? ==> found == Where(filtered, p.value);
        }
        assert |found| <= |filtered|;
    }
    forall row | row in rows && row.isDeleted ensures RowRecord(row) !in Queryable(rows, cul, options) {
      DeletedRecordIsNotVisible(rows, row);
    }
  }

  /** The window of any sorted query is a contiguous run of a reordering of it, at most a page long. */
  lemma SortedRun(cat: Catalog, root: Ty, q: seq<Value>, options: PaginatedOptions)
    ensures var sorted := ApplySort(cat, root, q, options.sortBy, options.direction);
      multiset(sorted) == multiset(q) &&
      var lo := Clamp(SkipCount(options.Page()), |sorted|);
      ApplyPagination(sorted, options.Page()) == sorted[lo..lo + Clamp(options.pageSize, |sorted| - lo)]
    ensures |ApplyPagination(ApplySort(cat, root, q, options.sortBy, options.direction), options.Page())|
      <= if options.pageSize <= 0 then 0 else options.pageSize
    ensures forall x :: x in ApplyPagination(ApplySort(cat, root, q, options.sortBy, options.direction), options.Page()) ==> x in q
  {
    ApplySortOrders(cat, root, q, options.sortBy, options.direction);
    var sorted := ApplySort(cat, root, q, options.sortBy, options.direction);
    PaginationWindow(sorted, options.Page());
    forall x | x in ApplyPagination(sorted, options.Page()) ensures x in q {
      assert x in multiset(sorted);
    }
  }

  /** The listed page holds only records of the queryable, and no more than the page size. */
  lemma WindowWithinQueryable(rows: seq<ProductRow>, cul: Culture, options: PaginatedOptions)
    ensures |Window(rows, cul, options)| <= if options.pageSize <= 0 then 0 else options.pageSize
    ensures forall x :: x in Window(rows, cul, options) ==> x in Queryable(rows, cul, options)
  {
    SortedRun(ProductCatalog, ProductType, Queryable(rows, cul, options), options);
  }

  /** The records a default listing sorts by: each visible row's `Id`. */
  lemma RecordIds(rows: seq<ProductRow>)
    ensures forall x :: x in Records(rows) ==> Field(x, "Id").VInt?
  {
    forall x | x in Records(rows) ensures Field(x, "Id").VInt? {
      var k :| 0 <= k < |Records(rows)| && Records(rows)[k] == x;
      assert x == RowRecord(Visible(rows)[k]);
    }
  }

  /** Every record of `s` has an `int` `Id`, and the ids never increase along `s`. */
  predicate IdsDescending(s: seq<Value>) {
    forall i, j :: 0 <= i < j < |s| ==>
      Field(s[i], "Id").VInt? && Field(s[j], "Id").VInt? && Field(s[j], "Id").i <= Field(s[i], "Id").i
  }

  /** A query ordered by an `int` `Id`, descending, lists its ids from highest to lowest. */
  lemma OrderedByIdDescending(s: seq<Value>)
    requires Ordered(s, Prop(Param, "Id"), true)
    requires forall x :: x in s ==> Field(x, "Id").VInt?
    ensures IdsDescending(s)
  {
    var t := Prop(Param, "Id");
    forall i, j | 0 <= i < j < |s|
      ensures Field(s[i], "Id").VInt? && Field(s[j], "Id").VInt? && Field(s[j], "Id").i <= Field(s[i], "Id").i
    {
      assert s[i] in s && s[j] in s;
      assert Precedes(t, true, s[i], s[j]);
      assert EvalTerm(t, s[i]) == Field(s[i], "Id");
      assert EvalTerm(t, s[j]) == Field(s[j], "Id");
    }
  }

  /** Sorting by a blank path on a type whose `Id` is an `int` property orders by `Id`, descending. */
  lemma BlankSortIsById(cat: Catalog, q: seq<Value>)
    requires Member(cat, ProductType, "Id") == Some(Property("Id", TInt))
    ensures multiset(ApplySort(cat, ProductType, q, None, None)) == multiset(q)
    ensures Ordered(ApplySort(cat, ProductType, q, None, None), Prop(Param, "Id"), true)
  {
    assert PropertyChain(cat, Param, ProductType, ["Id"]) == Some((Prop(Param, "Id"), TInt)) by {
      assert Access(Param, Property("Id", TInt)) == Prop(Param, "Id");
    }
    ApplySortOrders(cat, ProductType, q, None, None);
  }

  /**
   * Sorting by a blank path on a type whose `Id` is an `int` property, then taking page 1 of 10:
   * up to ten records, highest `Id` first.
   */
  lemma FirstPageById(cat: Catalog, q: seq<Value>)
    requires Member(cat, ProductType, "Id") == Some(Property("Id", TInt))
    requires forall x :: x in q ==> Field(x, "Id").VInt?
    ensures |ApplyPagination(ApplySort(cat, ProductType, q, None, None), DefaultOptions.Page())| == if |q| < 10 then |q| else 10
    ensures IdsDescending(ApplyPagination(ApplySort(cat, ProductType, q, None, None), DefaultOptions.Page()))
  {
    var sorted := ApplySort(cat, ProductType, q, None, None);
    BlankSortIsById(cat, q);
    assert |sorted| == |q| by {
      assert |multiset(sorted)| == |multiset(q)|;
    }
    assert forall x :: x in sorted ==> Field(x, "Id").VInt? by {
      forall x | x in sorted ensures Field(x, "Id").VInt? {
        assert x in multiset(sorted);
      }
    }
    OrderedByIdDescending(sorted);
    SortedRun(cat, ProductType, q, DefaultOptions);
    assert SkipCount(DefaultOptions.Page()) == -9;
    var w := ApplyPagination(sorted, DefaultOptions.Page());
    assert w == sorted[0..Clamp(10, |sorted|)];
    forall i, j | 0 <= i < j < |w|
      ensures Field(w[i], "Id").VInt? && Field(w[j], "Id").VInt? && Field(w[j], "Id").i <= Field(w[i], "Id").i
    {
      assert w[i] == sorted[i] && w[j] == sorted[j];
    }
  }

  /**
   * With the options as constructed (no filters, no search, no sort, page 1 of 10), every
   * visible record is counted, and the page holds ten of them (all, when fewer are visible),
   * highest `Id` first.
   */
  lemma DefaultListing(rows: seq<ProductRow>, cul: Culture)
    ensures Queryable(rows, cul, DefaultOptions) == Records(rows)
    ensures |Window(rows, cul, DefaultOptions)| == if |Visible(rows)| < 10 then |Visible(rows)| else 10
    ensures IdsDescending(Window(rows, cul, DefaultOptions))
  {
    assert Queryable(rows, cul, DefaultOptions) == Records(rows);
    assert Window(rows, cul, DefaultOptions)
        == ApplyPagination(ApplySort(ProductCatalog, ProductType, Records(rows), None, None), DefaultOptions.Page());
    IdResolves();
    RecordIds(rows);
    FirstPageById(ProductCatalog, Records(rows));
  }

  // ---------------------------------------------------------------------------
  // Soft delete
  // ---------------------------------------------------------------------------

  /**
   * The bulk update `SetProperty(IsDeleted, true).SetProperty(DeletedAt, now)` on one row: it
   * applies to a visible row that the `ids` filter selects (every row when there is none).
   */
  function SoftDeleted(row: ProductRow, ids: Option<seq<int>>, now: Ticks): (r: ProductRow)
    ensures r.id == row.id
    ensures !row.isDeleted && (ids.None? || row.id in ids.value) ==> r == row.(isDeleted := true, deletedAt := Some(now))
    ensures row.isDeleted || (ids.Some? && row.id !in ids.value) ==> r == row
  {
    if !row.isDeleted && (ids.None? || row.id in ids.value) then row.(isDeleted := true, deletedAt := Some(now)) else row
  }

  /** The bulk update applied to the whole table. */
  function SoftDeleteAll(rows: seq<ProductRow>, ids: Option<seq<int>>, now: Ticks): (r: seq<ProductRow>)
    ensures |r| == |rows|
    ensures forall k :: 0 <= k < |rows| ==> r[k] == SoftDeleted(rows[k], ids, now)
  {
    seq(|rows|, k requires 0 <= k < |rows| => SoftDeleted(rows[k], ids, now))
  }

  /** After `Delete`, no row is visible: nothing is found, listed or counted. */
  lemma DeleteHidesEverything(rows: seq<ProductRow>, now: Ticks, cul: Culture, options: PaginatedOptions)
    ensures Visible(SoftDeleteAll(rows, None, now)) == []
    ensures forall id, b :: GetById(SoftDeleteAll(rows, None, now), id, b).None?
    ensures Queryable(SoftDeleteAll(rows, None, now), cul, options) == []
  {
    var after := SoftDeleteAll(rows, None, now);
    forall row | row in after ensures row.isDeleted {
      var k :| 0 <= k < |after| && after[k] == row;
      assert after[k] == SoftDeleted(rows[k], None, now);
    }
    if Visible(after) != [] {
      assert Visible(after)[0] in Visible(after);
    }
    QueryableIsVisible(after, cul, options);
  }

  /**
   * After `DeleteRange(ids)`, no listed id is found; every other id is found exactly as before;
   * primary keys are unchanged.
   */
  lemma DeleteRangeHidesExactlyIds(rows: seq<ProductRow>, ids: seq<int>, now: Ticks)
    ensures forall k :: 0 <= k < |rows| ==> SoftDeleteAll(rows, Some(ids), now)[k].id == rows[k].id
    ensures forall id, b :: id in ids ==> GetById(SoftDeleteAll(rows, Some(ids), now), id, b).None?
    ensures forall id, b :: id !in ids ==> GetById(SoftDeleteAll(rows, Some(ids), now), id, b) == GetById(rows, id, b)
  {
    forall id, b | id in ids ensures GetById(SoftDeleteAll(rows, Some(ids), now), id, b).None? {
      UnselectedUnchanged(rows, ids, now, id, b);
    }
    forall id, b | id !in ids
      ensures GetById(SoftDeleteAll(rows, Some(ids), now), id, b) == GetById(rows, id, b)
    {
      UnselectedUnchanged(rows, ids, now, id, b);
    }
  }

  /** `GetById` after `DeleteRange`, by induction on the table. */
  lemma {:induction false} UnselectedUnchanged(rows: seq<ProductRow>, ids: seq<int>, now: Ticks, id: int, b: bool)
    ensures id in ids ==> GetById(SoftDeleteAll(rows, Some(ids), now), id, b).None?
    ensures id !in ids ==> GetById(SoftDeleteAll(rows, Some(ids), now), id, b) == GetById(rows, id, b)
  {
    if rows != [] {
      var after := SoftDeleteAll(rows, Some(ids), now);
      UnselectedUnchanged(rows[1..], ids, now, id, b);
      assert after[1..] == SoftDeleteAll(rows[1..], Some(ids), now);
      assert after[0] == SoftDeleted(rows[0], Some(ids), now);
    }
  }

  // ---------------------------------------------------------------------------
  // The repository
  // ---------------------------------------------------------------------------

  class EntityRepository {
    /** The `Products` table, in insertion order. */
    var rows: seq<ProductRow>
    /** The identity value the store assigns to the next row inserted without a key. */
    var nextId: int

    /** Primary keys are distinct. */
    predicate Valid()
      reads this
    {
      forall i, j :: 0 <= i < j < |rows| ==> rows[i].id != rows[j].id
    }

    /** An empty table whose identity starts at 1. */
    constructor ()
      ensures rows == [] && nextId == 1 && Valid()
    {
      rows := [];
      nextId := 1;
    }

    /** The key an inserted entity is stored under: its own, or the next identity value when unset. */
    function InsertKey(id: int): int
      reads this
    {
      if id == 0 then nextId else id
    }

    /**
     * `Create(entity)`: `AddAsync` marks the entity added, and `SaveChangesAsync` stamps its
     * `CreatedAt` and inserts it. An unset key (`Id == 0`) takes the next identity value, which
     * is drawn even when the insert fails; a key already in the table, soft-deleted rows
     * included, makes the insert throw. A successful save reports one written entry.
     */
    method Create(entity: Product, now: Ticks) returns (r: Fallible<int>)
      requires Valid()
      modifies this, entity
      ensures Valid()
      ensures nextId == old(nextId) + (if old(entity.Id) == 0 then 1 else 0)
      ensures old(IndexOfId(rows, InsertKey(entity.Id))).Some? ==>
        r.Throws? && rows == old(rows) && entity.Row() == old(entity.Row()).(createdAt := now)
      ensures old(IndexOfId(rows, InsertKey(entity.Id))).None? ==>
        r == Returns(1) &&
        entity.Row() == old(entity.Row()).(id := old(InsertKey(entity.Id)), createdAt := now) &&
        rows == old(rows) + [entity.Row()]
      ensures r.Returns? && !entity.IsDeleted ==> GetById(rows, entity.Id, false) == Some(entity.Row())
    {
      var key := InsertKey(entity.Id);
      if entity.Id == 0 {
        nextId := nextId + 1;
      }
      var entries := [AuditEntry(Added, entity)];
      assert Audited(entries) == {entity};
      StartAudit(entries, now);
      assert HasEntry(entries, entity, Added) && !HasEntry(entries, entity, Modified);
      if IndexOfId(rows, key).Some? {
        return Throws;
      }
      entity.Id := key;
      if !entity.IsDeleted {
        AppendedRowIsFound(rows, entity.Row(), false);
      }
      rows := rows + [entity.Row()];
      r := Returns(1);
    }

    /**
     * Whether `SaveChangesAsync` sees `entity` as modified: `Update` marks it when `hasTracking`;
     * otherwise only an entity the context already tracks, whose values differ from its stored
     * row, is detected as changed.
     */
    predicate Marked(row: ProductRow, hasTracking: bool, isTracked: bool)
      reads this
    {
      var k := IndexOfId(rows, row.id);
      hasTracking || (isTracked && k.Some? && rows[k.value] != row)
    }

    /**
     * Whether `DbSet.Update` starts tracking `entity` as added rather than modified: with a
     * store-generated key, an entity whose key is unset (`Id == 0`) is inserted.
     */
    static predicate AddedByUpdate(row: ProductRow, hasTracking: bool) {
      hasTracking && row.id == 0
    }

    /**
     * `Update(entity, hasTracking)` then `SaveChangesAsync`. `isTracked` says whether the context
     * already tracks `entity` (it was loaded with tracking). An entity with an unset key is
     * inserted as `Create` inserts it. Otherwise a marked entity has `UpdatedAt` stamped by the
     * interceptor and its row replaced; when no row has its key the save throws, after the stamp.
     */
    method Update(entity: Product, hasTracking: bool, isTracked: bool, now: Ticks) returns (r: Fallible<()>)
      requires Valid()
      modifies this, entity
      ensures Valid()
      ensures AddedByUpdate(old(entity.Row()), hasTracking) ==>
        nextId == old(nextId) + 1 &&
        (old(IndexOfId(rows, nextId)).Some? ==>
          r.Throws? && rows == old(rows) && entity.Row() == old(entity.Row()).(createdAt := now)) &&
        (old(IndexOfId(rows, nextId)).None? ==>
          r.Returns? && entity.Row() == old(entity.Row()).(id := old(nextId), createdAt := now) &&
          rows == old(rows) + [entity.Row()])
      ensures !AddedByUpdate(old(entity.Row()), hasTracking) ==> nextId == old(nextId)
      ensures !old(Marked(entity.Row(), hasTracking, isTracked)) ==>
        r.Returns? && rows == old(rows) && entity.Row() == old(entity.Row())
      ensures old(Marked(entity.Row(), hasTracking, isTracked)) && !AddedByUpdate(old(entity.Row()), hasTracking) ==>
        entity.Row() == old(entity.Row()).(updatedAt := Some(now))
      ensures old(Marked(entity.Row(), hasTracking, isTracked)) && !AddedByUpdate(old(entity.Row()), hasTracking) &&
              old(IndexOfId(rows, entity.Id)).None? ==>
        r.Throws? && rows == old(rows)
      ensures old(Marked(entity.Row(), hasTracking, isTracked)) && !AddedByUpdate(old(entity.Row()), hasTracking) &&
              old(IndexOfId(rows, entity.Id)).Some? ==>
        r.Returns? && rows == old(rows)[old(IndexOfId(rows, entity.Id)).value := entity.Row()]
    {
      if AddedByUpdate(entity.Row(), hasTracking) {
        var saved := Create(entity, now);
        return if saved.Returns? then Returns(()) else Throws;
      }
      if !Marked(entity.Row(), hasTracking, isTracked) {
        return Returns(());
      }
      var entries := [AuditEntry(Modified, entity)];
      assert Audited(entries) == {entity};
      StartAudit(entries, now);
      assert !HasEntry(entries, entity, Added) && HasEntry(entries, entity, Modified);
      var k := IndexOfId(rows, entity.Id);
      if k.None? {
        return Throws;
      }
      rows := rows[k.value := entity.Row()];
      return Returns(());
    }

    /**
     * `Delete(id)`: the bulk update runs over the whole set, so every visible row is soft-deleted;
     * `id` plays no part.
     */
    method Delete(id: int, now: Ticks)
      requires Valid()
      modifies this
      ensures Valid() && nextId == old(nextId)
      ensures rows == SoftDeleteAll(old(rows), None, now)
    {
      var i := 0;
      while i < |rows|
        invariant 0 <= i <= |rows| == |old(rows)| && nextId == old(nextId)
        invariant forall k :: 0 <= k < i ==> rows[k] == SoftDeleted(old(rows)[k], None, now)
        invariant forall k :: i <= k < |rows| ==> rows[k] == old(rows)[k]
      {
        if !rows[i].isDeleted {
          rows := rows[i := rows[i].(isDeleted := true, deletedAt := Some(now))];
        }
        i := i + 1;
      }
    }

    /** `DeleteRange(ids)`: soft-deletes the visible rows whose key is listed; other rows are untouched. */
    method DeleteRange(ids: seq<int>, now: Ticks)
      requires Valid()
      modifies this
      ensures Valid() && nextId == old(nextId)
      ensures rows == SoftDeleteAll(old(rows), Some(ids), now)
    {
      var i := 0;
      while i < |rows|
        invariant 0 <= i <= |rows| == |old(rows)| && nextId == old(nextId)
        invariant forall k :: 0 <= k < i ==> rows[k] == SoftDeleted(old(rows)[k], Some(ids), now)
        invariant forall k :: i <= k < |rows| ==> rows[k] == old(rows)[k]
      {
        if !rows[i].isDeleted && rows[i].id in ids {
          rows := rows[i := rows[i].(isDeleted := true, deletedAt := Some(now))];
        }
        i := i + 1;
      }
    }
  }
}
