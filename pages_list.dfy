/**
  The `pages.list` handler: the list definition of the pages table, the
  extra `filters.published` input, the `WHERE` clause that joins the soft
  delete test, the published filter and the seek predicate, and the
  pagination metadata built from the rows the database returns. The
  database is the "filter, sort, skip, take" of the `Sql` module.
 */
module PagesList {
  import opened Wrappers
  import opened JsNumber
  import opened JsDate
  import opened JsonCodec
  import opened JsValues
  import opened Sql
  import opened ListQuery
  import TypedCursor

  const IdColumn: Column := Column("id")

  /** Sortable by id, title and creation time; newest first by default. */
  const PagesConfig: Definition :=
    Definition(IdColumn,
               Some(map["id" := IdColumn, "title" := Column("title"), "createdAt" := Column("created_at")]),
               Sort("createdAt", Desc))

  lemma {:induction false} PagesConfigKeys()
    ensures SortableKeys(PagesConfig) == {"id", "title", "createdAt"}
    ensures PagesConfig.id.name in SortableKeys(PagesConfig)
    ensures PagesConfig.defaultSort.column in SortableKeys(PagesConfig)
  {
  }

  /** Every ordering the pages list compiles holds the id column. */
  lemma {:induction false} PagesOrderingHasId(input: ListInput)
    requires OrderBySpec(input, PagesConfig).Success?
    ensures exists k :: (0 <= k < |OrderBySpec(input, PagesConfig).value.orderBy|
      && OrderBySpec(input, PagesConfig).value.orderBy[k].col == IdColumn)
  {
    OrderingHasId(input, PagesConfig);
  }

  /* ---------------- Input ---------------- */

  /** The list request plus `filters.published`. */
  datatype PagesInput = PagesInput(list: ListInput, published: Option<bool>)

  /** `z.object({ published: z.boolean().optional() }).optional()`. */
  function ParseFilters(v: Option<Json>): (r: Result<Option<bool>, ValidationError>)
    ensures v.None? ==> r == Success(None)
    ensures r.Success? && r.value.Some? ==> v.Some? && v.value.JObject? && Get(v.value.fields, "published") == Some(JBool(r.value.value))
    ensures v.Some? && !v.value.JObject? ==> r.Failure?
  {
    match v
    case None => Success(None)
    case Some(JObject(fs)) =>
      (match Get(fs, "published")
       case None => Success(None)
       case Some(JBool(b)) => Success(Some(b))
       case Some(_) => Failure(ValidationError))
    case Some(_) => Failure(ValidationError)
  }

  /**
    The extended list schema as zod 4's `extend` builds it: the list object
    schema with `filters` beside it. `extend` keeps the shape but not the
    list schema's refinement, so a cursor request with several sort
    instructions is accepted.
   */
  function ParsePagesInput(j: Json): (r: Result<PagesInput, ValidationError>)
    ensures r.Success? ==> ParseShape(j, PagesConfig) == Success(r.value.list) && ValidShape(r.value.list, PagesConfig)
    ensures r.Success? ==> ParseFilters(Get(j.fields, "filters")) == Success(r.value.published)
    ensures r.Failure? <==> ParseShape(j, PagesConfig).Failure? || ParseFilters(Get(j.fields, "filters")).Failure?
  {
    match ParseShape(j, PagesConfig)
    case Failure(e) => Failure(e)
    case Success(list) =>
      match ParseFilters(Get(j.fields, "filters"))
      case Failure(e) => Failure(e)
      case Success(published) => Success(PagesInput(list, published))
  }

  /** The extended schema as intended: the list schema, refinement included, and the filters beside it. */
  function ParsePagesInputIntended(j: Json): (r: Result<PagesInput, ValidationError>)
    ensures r.Success? ==> ParseInput(j, PagesConfig) == Success(r.value.list) && ValidInput(r.value.list, PagesConfig)
    ensures r.Success? ==> ParseFilters(Get(j.fields, "filters")) == Success(r.value.published)
    ensures r.Failure? <==> ParseInput(j, PagesConfig).Failure? || ParseFilters(Get(j.fields, "filters")).Failure?
  {
    match ParseInput(j, PagesConfig)
    case Failure(e) => Failure(e)
    case Success(list) =>
      match ParseFilters(Get(j.fields, "filters"))
      case Failure(e) => Failure(e)
      case Success(published) => Success(PagesInput(list, published))
  }

  /**
    The two schemas part only where the refinement would have refused: a
    request the intended schema rejects and the extended one accepts is in
    cursor mode with more than one sort instruction.
   */
  lemma PagesSchemasDiffer(j: Json)
    ensures ParsePagesInput(j) != ParsePagesInputIntended(j) ==>
      ParsePagesInputIntended(j).Failure? && ParsePagesInput(j).Success?
      && ParsePagesInput(j).value.list.pagination.CursorMode? && |ParsePagesInput(j).value.list.sort| > 1
  {
  }

  /**
    As written, a cursor request with two sort instructions is accepted,
    where the list schema alone refuses it, and the handler orders and
    seeks by the first of them only.
   */
  lemma SeveralCursorSortsAccepted(s1: Sort, s2: Sort)
    requires s1.column in SortableKeys(PagesConfig) && s2.column in SortableKeys(PagesConfig)
    ensures var list := ListInput(CursorMode(DefaultLimit, None), [s1, s2]);
      && ParsePagesInput(InputJson(list)) == Success(PagesInput(list, None))
      && ParseInput(InputJson(list), PagesConfig) == Failure(ValidationError)
      && ParsePagesInputIntended(InputJson(list)).Failure?
      && OrderBySpec(list, PagesConfig)
         == Success(Ordering([Order(PagesConfig.sortable.value[s1.column], s1.direction), Order(IdColumn, s1.direction)], Some(s1)))
  {
    var list := ListInput(CursorMode(DefaultLimit, None), [s1, s2]);
    ParseShapeJson(list, PagesConfig);
    SeveralCursorSortsRefused(list, PagesConfig);
    var p := Field("pagination", PaginationJson(list.pagination));
    var s := Field("sort", JArray(SortItems(list.sort)));
    GetNext(p, [s], "filters");
    GetNext(s, [], "filters");
    assert [p] + [s] == [p, s] && [s] + [] == [s];
  }

  /* ---------------- WHERE ---------------- */

  /** `isNull(pages.deletedAt)`. */
  const NotDeleted: Expr := IsNull(Column("deleted_at"))

  /** `eq(pages.published, true)` when the filter is truthy, otherwise no operand. */
  function PublishedFilter(published: Option<bool>): (w: Option<Expr>)
    ensures w.Some? <==> published == Some(true)
  {
    if published == Some(true) then Some(Compare(Eq, Column("published"), Bool(true))) else None
  }

  function PagesWhere(published: Option<bool>, seek: Option<Expr>): Option<Expr>
  {
    AndOf([Some(NotDeleted), PublishedFilter(published), seek])
  }

  /**
    A row matches when it is not soft-deleted, is published if the filter
    asks for published pages (`published: false` asks for nothing), and
    satisfies the seek predicate if there is one.
   */
  lemma {:induction false} PagesWhereHolds(published: Option<bool>, seek: Option<Expr>, r: Row)
    ensures Holds(PagesWhere(published, seek), r) <==>
      && At(r, Column("deleted_at")) == NullCell
      && (published == Some(true) ==> At(r, Column("published")) == Boolean(true))
      && Holds(seek, r)
  {
    var parts := [Some(NotDeleted), PublishedFilter(published), seek];
    HoldsAndOf(parts, r);
    assert Holds(parts[0], r) <==> At(r, Column("deleted_at")) == NullCell;
    assert Holds(parts[1], r) <==> (published == Some(true) ==> At(r, Column("published")) == Boolean(true));
  }

  /** The rows any page may show: the clause without a seek predicate. */
  function Visible(published: Option<bool>): Option<Expr>
  {
    PagesWhere(published, None)
  }

  /* ---------------- Response ---------------- */

  /** The columns `findMany` returns, under their property names. */
  function Project(r: Row): (rec: Record)
    ensures "id" in rec && "title" in rec && "createdAt" in rec
    ensures rec["id"] == At(r, IdColumn) && rec["title"] == At(r, Column("title")) && rec["createdAt"] == At(r, Column("created_at"))
  {
    map["id" := At(r, IdColumn), "slug" := At(r, Column("slug")), "title" := At(r, Column("title")),
        "description" := At(r, Column("description")), "published" := At(r, Column("published")),
        "createdAt" := At(r, Column("created_at")), "updatedAt" := At(r, Column("updated_at"))]
  }

  function ProjectAll(rows: seq<Row>): (recs: seq<Record>)
    ensures |recs| == |rows| && forall i :: 0 <= i < |rows| ==> recs[i] == Project(rows[i])
  {
    seq(|rows|, i requires 0 <= i < |rows| => Project(rows[i]))
  }

  lemma {:induction false} ProjectAllSlice(rows: seq<Row>, i: nat, j: nat)
    requires i <= j <= |rows|
    ensures ProjectAll(rows)[i..j] == ProjectAll(rows[i..j])
  {
  }

  lemma {:induction false} ProjectAllAppend(a: seq<Row>, b: seq<Row>)
    ensures ProjectAll(a + b) == ProjectAll(a) + ProjectAll(b)
  {
  }

  /** `Math.ceil(total / pageSize)`: the fewest pages of `pageSize` rows that hold `total` rows. */
  function CeilDiv(total: nat, pageSize: int): (c: nat)
    requires pageSize >= 1
    ensures total <= c * pageSize
    ensures c > 0 ==> (c - 1) * pageSize < total
  {
    var c := (total + pageSize - 1) / pageSize;
    var m := (total + pageSize - 1) % pageSize;
    assert total + pageSize - 1 == c * pageSize + m;
    assert (c - 1) * pageSize == c * pageSize - pageSize;
    c
  }

  datatype Meta =
    | CursorMeta(hasNextPage: bool, nextCursor: Option<string>)
    | OffsetMeta(page: int, pageSize: int, pageCount: int, total: int)

  datatype Response = Response(data: seq<Record>, meta: Meta)

  /**
    The response to a compiled query. Cursor mode: a lookahead row beyond
    `limit` means another page follows, and it is dropped; the next cursor
    comes from the trimmed page whether or not another page follows.
    Offset mode: the page, its size, the total of matching rows and the
    number of pages.
   */
  function Respond(input: PagesInput, q: Query, db: seq<Row>): (resp: Response)
    requires ValidPagination(input.list.pagination)
    requires q.limit >= 0 && (q.offset.Some? ==> q.offset.value >= 0)
  {
    var where := PagesWhere(input.published, q.where);
    var offset := if q.offset.Some? then q.offset.value else 0;
    var rows := ProjectAll(Fetch(db, where, q.orderBy, q.limit, offset));
    match input.list.pagination
    case CursorMode(limit, _) => CursorResponse(rows, limit, q.cursorSort)
    case OffsetMode(page, pageSize) => OffsetResponse(rows, page, pageSize, |Select(where, db)|)
  }

  /**
    A cursor page from at most `limit + 1` fetched rows: the first `limit`
    of them, whether a row was left over, and the cursor of the page shown.
   */
  function CursorResponse(rows: seq<Record>, limit: int, cursorSort: Option<Sort>): (resp: Response)
    requires limit >= 0
    ensures resp.meta.CursorMeta? && (resp.meta.hasNextPage <==> |rows| > limit)
    ensures |rows| <= limit + 1 ==> resp.data == rows[..if |rows| <= limit then |rows| else limit]
    ensures resp.meta.nextCursor == ComputeNextCursor(resp.data, cursorSort, PagesConfig)
  {
    var hasMore := |rows| > limit;
    var pageRows := if hasMore then rows[..|rows| - 1] else rows;
    Response(pageRows, CursorMeta(hasMore, ComputeNextCursor(pageRows, cursorSort, PagesConfig)))
  }

  /** An offset page: the rows, and as many pages as `total` rows fill, the last one possibly short. */
  function OffsetResponse(rows: seq<Record>, page: int, pageSize: int, total: nat): (resp: Response)
    requires pageSize >= 1
    ensures resp.data == rows && resp.meta.OffsetMeta?
    ensures resp.meta.page == page && resp.meta.pageSize == pageSize && resp.meta.total == total
    ensures total <= resp.meta.pageCount * pageSize && (resp.meta.pageCount > 0 ==> (resp.meta.pageCount - 1) * pageSize < total)
  {
    Response(rows, OffsetMeta(page, pageSize, CeilDiv(total, pageSize), total))
  }

  /** The handler's result: the compile error, or the response. */
  function ListSpec(input: PagesInput, db: seq<Row>): Result<Response, ListError>
    requires ValidShape(input.list, PagesConfig)
  {
    match QuerySpec(input.list, PagesConfig)
    case Failure(e) => Failure(e)
    case Success(q) => Success(Respond(input, q, db))
  }

  /** `pagesRouter.list`'s handler, with the database queries as `Fetch` and `Select`. */
  method List(input: PagesInput, db: seq<Row>) returns (r: Result<Response, ListError>)
    requires ValidShape(input.list, PagesConfig)
    ensures r == ListSpec(input, db)
  {
    var compiled := BuildListQuery(input.list, PagesConfig);
    if compiled.Failure? {
      return Failure(compiled.error);
    }
    r := Success(Respond(input, compiled.value, db));
  }

  /* ---------------- One page ---------------- */

  /**
    A cursor page shows the first `limit` matching rows in the query's
    order, says whether any row is left beyond them, and takes its cursor
    from the last row it shows.
   */
  lemma {:induction false} CursorPageWindow(input: PagesInput, q: Query, db: seq<Row>)
    requires ValidPagination(input.list.pagination) && input.list.pagination.CursorMode?
    requires q.limit == input.list.pagination.limit + 1 && q.offset.None?
    ensures var all := SortBy(q.orderBy, Select(PagesWhere(input.published, q.where), db));
      var limit := input.list.pagination.limit;
      var shown := if |all| <= limit then |all| else limit;
      var resp := Respond(input, q, db);
      && resp.data == ProjectAll(all[..shown])
      && resp.meta == CursorMeta(|all| > limit, ComputeNextCursor(resp.data, q.cursorSort, PagesConfig))
  {
    var all := SortBy(q.orderBy, Select(PagesWhere(input.published, q.where), db));
    var limit := input.list.pagination.limit;
    var fetched := Fetch(db, PagesWhere(input.published, q.where), q.orderBy, q.limit, 0);
    assert all[0..] == all;
    var taken := if q.limit <= |all| then q.limit else |all|;
    assert fetched == all[..taken];
    if |all| > limit {
      assert fetched[..|fetched| - 1] == all[..limit];
      ProjectAllSlice(fetched, 0, |fetched| - 1);
    }
  }

  /** The rows of `all` from index `start` on, at most `n` of them. */
  function Window(all: seq<Row>, start: nat, n: nat): (w: seq<Row>)
    ensures |w| <= n
    ensures start >= |all| ==> w == []
    ensures forall i :: 0 <= i < |w| ==> start + i < |all| && w[i] == all[start + i]
  {
    if start >= |all| then [] else all[start..if start + n <= |all| then start + n else |all|]
  }

  /** With an offset, the database returns the window of the matching rows in order that starts there. */
  lemma FetchWindow(db: seq<Row>, w: Option<Expr>, o: seq<Order>, n: nat, start: nat)
    ensures Fetch(db, w, o, n, start) == Window(SortBy(o, Select(w, db)), start, n)
  {
    SliceWindow(SortBy(o, Select(w, db)), start, n);
  }

  lemma SliceWindow(all: seq<Row>, start: nat, n: nat)
    ensures start <= |all| ==> all[start..][..if n <= |all| - start then n else |all| - start] == Window(all, start, n)
  {
    if start < |all| {
      assert all[start..][..if n <= |all| - start then n else |all| - start]
          == all[start..if start + n <= |all| then start + n else |all|];
    }
  }

  /**
    An offset page shows the matching rows from `(page - 1) * pageSize`
    on, at most `pageSize` of them; `total` counts every matching row and
    `pageCount` pages of `pageSize` hold them all, with none to spare.
   */
  lemma {:induction false} OffsetPageWindow(input: PagesInput, q: Query, db: seq<Row>)
    requires ValidPagination(input.list.pagination) && input.list.pagination.OffsetMode?
    requires q.where.None? && q.limit == input.list.pagination.pageSize
    requires q.offset == Some((input.list.pagination.page - 1) * input.list.pagination.pageSize)
    ensures var p := input.list.pagination;
      var all := SortBy(q.orderBy, Select(Visible(input.published), db));
      var resp := Respond(input, q, db);
      && resp.data == ProjectAll(Window(all, (p.page - 1) * p.pageSize, p.pageSize))
      && resp.meta.OffsetMeta? && resp.meta.page == p.page && resp.meta.pageSize == p.pageSize
      && resp.meta.total == |all|
      && resp.meta.total <= resp.meta.pageCount * p.pageSize
      && (resp.meta.pageCount > 0 ==> (resp.meta.pageCount - 1) * p.pageSize < resp.meta.total)
  {
    var p := input.list.pagination;
    var start := (p.page - 1) * p.pageSize;
    var w := Visible(input.published);
    OffsetRespond(input, q, db);
    FetchWindow(db, w, q.orderBy, p.pageSize, start);
    var total := |Select(w, db)|;
    assert |SortBy(q.orderBy, Select(w, db))| == total;
    var c := CeilDiv(total, p.pageSize);
    assert total <= c * p.pageSize && (c > 0 ==> (c - 1) * p.pageSize < total);
  }

  /** An offset-mode query without a seek clause is answered from the visible rows after its offset. */
  lemma OffsetRespond(input: PagesInput, q: Query, db: seq<Row>)
    requires ValidPagination(input.list.pagination) && input.list.pagination.OffsetMode?
    requires q.where.None? && q.limit >= 0 && q.offset.Some? && q.offset.value >= 0
    ensures var p := input.list.pagination;
      var w := Visible(input.published);
      Respond(input, q, db) == OffsetResponse(ProjectAll(Fetch(db, w, q.orderBy, q.limit, q.offset.value)), p.page, p.pageSize, |Select(w, db)|)
  {
  }

  /* ---------------- Walking the cursor pages ---------------- */

  /**
    A row as the pages table stores it: a non-empty text id, a non-empty
    title and a creation timestamp.
   */
  predicate PageRow(r: Row)
  {
    && At(r, IdColumn).Text? && At(r, IdColumn).s != ""
    && At(r, Column("title")).Text? && At(r, Column("title")).s != ""
    && At(r, Column("created_at")).Timestamp?
  }

  /** `id` is the primary key. */
  predicate UniqueIds(db: seq<Row>)
  {
    forall i, j :: 0 <= i < j < |db| ==> At(db[i], IdColumn) != At(db[j], IdColumn)
  }

  /** The sort a cursor walk follows: the request's one sort, or the default. */
  function Active(sorts: seq<Sort>): Sort
  {
    if sorts != [] then sorts[0] else PagesConfig.defaultSort
  }

  predicate WalkSorts(sorts: seq<Sort>)
  {
    |sorts| <= 1 && forall i :: 0 <= i < |sorts| ==> sorts[i].column in SortableKeys(PagesConfig)
  }

  function SortColumn(sorts: seq<Sort>): Column
    requires WalkSorts(sorts)
  {
    PagesConfig.sortable.value[Active(sorts).column]
  }

  /** The cursor-mode ordering: the active column, then the id. */
  function WalkOrder(sorts: seq<Sort>): seq<Order>
    requires WalkSorts(sorts)
  {
    [Order(SortColumn(sorts), Active(sorts).direction), Order(IdColumn, Active(sorts).direction)]
  }

  function Request(sorts: seq<Sort>, published: Option<bool>, limit: int, cursor: Option<string>): PagesInput
  {
    PagesInput(ListInput(CursorMode(limit, cursor), sorts), published)
  }

  /**
    The rows a client collects from `serve` by asking for the first page
    and then, while `hasNextPage` holds, for the page after `nextCursor`,
    at most `fuel` requests in all.
   */
  function Walk(serve: Option<string> --> Result<Response, ListError>, cursor: Option<string>, fuel: nat): seq<Record>
    requires forall c :: serve.requires(c)
    decreases fuel
  {
    if fuel == 0 then []
    else
      match serve(cursor)
      case Failure(_) => []
      case Success(resp) =>
        if resp.meta.CursorMeta? && resp.meta.hasNextPage then resp.data + Walk(serve, resp.meta.nextCursor, fuel - 1)
        else resp.data
  }

  /** The pages handler asked for cursor pages of `limit` rows in the order `sorts` names. */
  function Handler(db: seq<Row>, sorts: seq<Sort>, published: Option<bool>, limit: int): (serve: Option<string> --> Result<Response, ListError>)
    requires WalkSorts(sorts) && 1 <= limit <= MaxLimit
    ensures forall c :: serve.requires(c) && serve(c) == ListSpec(Request(sorts, published, limit, c), db)
  {
    c => ListSpec(Request(sorts, published, limit, c), db)
  }

  /** The rows a walk visits: the visible ones, in walk order. */
  function WalkRows(db: seq<Row>, sorts: seq<Sort>, published: Option<bool>): seq<Row>
    requires WalkSorts(sorts)
  {
    SortBy(WalkOrder(sorts), Select(Visible(published), db))
  }

  /** The walk's rows are sorted, have no ties, and are stored pages rows. */
  lemma {:induction false} WalkRowsFacts(db: seq<Row>, sorts: seq<Sort>, published: Option<bool>)
    requires WalkSorts(sorts) && UniqueIds(db)
    requires forall x :: x in db ==> PageRow(x)
    ensures var l := WalkRows(db, sorts, published);
      && Sorted(WalkOrder(sorts), l) && Distinct(WalkOrder(sorts), l)
      && |l| <= |db|
      && forall x :: x in l ==> x in db && PageRow(x)
  {
    var o := WalkOrder(sorts);
    var visible := Select(Visible(published), db);
    SortBySorted(o, visible);
    UniqueDistinct(o, 1, db);
    SelectDistinct(o, Visible(published), db);
    SortByDistinct(o, visible);
  }

  /** The seek predicate after boundary row `b`, with its values as a decoded cursor gives them. */
  function SeekOf(sorts: seq<Sort>, b: Row): Expr
    requires WalkSorts(sorts) && PageRow(b)
  {
    Seek(Active(sorts).direction, SortColumn(sorts), IdColumn,
         TypedCursor.Expected(CursorValueOf(At(b, SortColumn(sorts)))), FromJson(IdJson(At(b, IdColumn))))
  }

  /** A non-empty token that decodes to boundary row `b`'s sort value and id. */
  predicate BoundaryCursor(token: string, sorts: seq<Sort>, b: Row)
    requires WalkSorts(sorts) && PageRow(b)
  {
    && token != []
    && TypedCursor.Decode(token)
       == Success(TypedCursor.Decoded(TypedCursor.Expected(CursorValueOf(At(b, SortColumn(sorts)))), FromJson(IdJson(At(b, IdColumn)))))
  }

  /** What a pages row gives the cursor: truthy values that bind back to the stored cells and compare with other rows' cells. */
  lemma {:induction false} PageRowCells(sorts: seq<Sort>, x: Row, y: Row)
    requires WalkSorts(sorts) && PageRow(x) && PageRow(y)
    ensures Project(x)[Active(sorts).column] == At(x, SortColumn(sorts))
    ensures Truthy(Property(Project(x), Active(sorts).column)) && Truthy(Property(Project(x), PagesConfig.id.name))
    ensures Comparable(At(x, SortColumn(sorts)), At(y, SortColumn(sorts))) && Comparable(At(x, IdColumn), At(y, IdColumn))
    ensures Bind(TypedCursor.Expected(CursorValueOf(At(x, SortColumn(sorts))))) == Some(At(x, SortColumn(sorts)))
    ensures Bind(FromJson(IdJson(At(x, IdColumn)))) == Some(At(x, IdColumn))
  {
    var key := Active(sorts).column;
    assert key == "id" || key == "title" || key == "createdAt";
    NextCursorBinds(At(x, SortColumn(sorts)), At(x, IdColumn));
  }

  /** The next cursor of a page that ends with row `b` is a boundary cursor for `b`. */
  lemma {:induction false} NextCursorFor(data: seq<Record>, sorts: seq<Sort>, b: Row)
    requires WalkSorts(sorts) && PageRow(b)
    requires data != [] && data[|data| - 1] == Project(b)
    ensures ComputeNextCursor(data, Some(Active(sorts)), PagesConfig).Some?
    ensures BoundaryCursor(ComputeNextCursor(data, Some(Active(sorts)), PagesConfig).value, sorts, b)
  {
    PageRowCells(sorts, b, b);
  }

  /** A walk request with a boundary cursor for `b` compiles the seek predicate after `b`. */
  lemma {:induction false} CursorWhereFor(sorts: seq<Sort>, published: Option<bool>, limit: int, token: string, b: Row)
    requires WalkSorts(sorts) && PageRow(b) && BoundaryCursor(token, sorts, b)
    ensures CursorWhere(Request(sorts, published, limit, Some(token)).list, PagesConfig, Active(sorts)) == Success(Some(SeekOf(sorts, b)))
  {
  }

  /** A walk request compiles to the walk order, its seek clause, and one row more than the page. */
  lemma {:induction false} WalkQuery(sorts: seq<Sort>, published: Option<bool>, limit: int, c: Option<string>, w: Option<Expr>)
    requires WalkSorts(sorts) && 1 <= limit <= MaxLimit
    requires CursorWhere(Request(sorts, published, limit, c).list, PagesConfig, Active(sorts)) == Success(w)
    ensures QuerySpec(Request(sorts, published, limit, c).list, PagesConfig) == Success(Query(WalkOrder(sorts), w, limit + 1, None, Some(Active(sorts))))
  {
    WalkOrdering(sorts, published, limit, c);
    CursorQuery(Request(sorts, published, limit, c).list, PagesConfig, Ordering(WalkOrder(sorts), Some(Active(sorts))), w);
  }

  /** A walk request orders by the walk order and follows its active sort. */
  lemma {:induction false} WalkOrdering(sorts: seq<Sort>, published: Option<bool>, limit: int, c: Option<string>)
    requires WalkSorts(sorts)
    ensures OrderBySpec(Request(sorts, published, limit, c).list, PagesConfig) == Success(Ordering(WalkOrder(sorts), Some(Active(sorts))))
  {
    var input := Request(sorts, published, limit, c).list;
    assert EffectiveSorts(input, PagesConfig)[0] == Active(sorts);
    assert Lookup(PagesConfig, Active(sorts).column) == Some(SortColumn(sorts));
  }

  /** Over the walk's rows, the seek clause after `b` is the walk order's "after `b`". */
  lemma {:induction false} SeekIsAfter(sorts: seq<Sort>, b: Row, l: seq<Row>)
    requires WalkSorts(sorts) && PageRow(b)
    requires forall x :: x in l ==> PageRow(x)
    ensures forall x :: x in l ==> (Holds(Some(SeekOf(sorts, b)), x) <==> Before(WalkOrder(sorts), b, x))
  {
    forall x | x in l
      ensures Holds(Some(SeekOf(sorts, b)), x) <==> Before(WalkOrder(sorts), b, x)
    {
      SeekAfterRow(sorts, b, x);
    }
  }

  /** The seek predicate after row `l[j - 1]` keeps exactly `l[j..]`. */
  lemma {:induction false} SeekKeepsRest(sorts: seq<Sort>, l: seq<Row>, j: nat)
    requires WalkSorts(sorts) && 0 < j <= |l|
    requires Sorted(WalkOrder(sorts), l) && Distinct(WalkOrder(sorts), l)
    requires forall x :: x in l ==> PageRow(x)
    ensures Select(Some(SeekOf(sorts, l[j - 1])), l) == l[j..]
  {
    assert l[j - 1] in l;
    SeekIsAfter(sorts, l[j - 1], l);
    SelectAfter(WalkOrder(sorts), Some(SeekOf(sorts, l[j - 1])), l, j - 1);
  }

  /** Between pages rows, the seek predicate after `b` holds exactly for the rows after `b` in walk order. */
  lemma {:induction false} SeekAfterRow(sorts: seq<Sort>, b: Row, x: Row)
    requires WalkSorts(sorts) && PageRow(b) && PageRow(x)
    ensures Holds(Some(SeekOf(sorts, b)), x) <==> Before(WalkOrder(sorts), b, x)
  {
    PageRowCells(sorts, b, b);
    PageRowCells(sorts, x, b);
    SeekSelectsAfter(Active(sorts).direction, SortColumn(sorts), IdColumn,
                     TypedCursor.Expected(CursorValueOf(At(b, SortColumn(sorts)))), FromJson(IdJson(At(b, IdColumn))), b, x);
  }

  /** The handler's clause with the seek predicate after `l[j - 1]` keeps exactly the walk's rows from `l[j]` on. */
  lemma {:induction false} VisibleRowsAfter(db: seq<Row>, sorts: seq<Sort>, published: Option<bool>, j: nat, seek: Option<Expr>)
    requires WalkSorts(sorts) && UniqueIds(db)
    requires forall x :: x in db ==> PageRow(x)
    requires j <= |WalkRows(db, sorts, published)|
    requires j == 0 ==> seek.None?
    requires j > 0 ==> WalkRows(db, sorts, published)[j - 1] in db && seek == Some(SeekOf(sorts, WalkRows(db, sorts, published)[j - 1]))
    ensures SortBy(WalkOrder(sorts), Select(PagesWhere(published, seek), db)) == WalkRows(db, sorts, published)[j..]
  {
    var o := WalkOrder(sorts);
    var visible := Select(Visible(published), db);
    var l := WalkRows(db, sorts, published);
    WalkRowsFacts(db, sorts, published);
    if j == 0 {
      assert l[0..] == l;
    } else {
      forall x | x in db
        ensures Holds(PagesWhere(published, seek), x) <==> Holds(Visible(published), x) && Holds(seek, x)
      {
        PagesWhereHolds(published, seek, x);
        PagesWhereHolds(published, None, x);
      }
      SelectBoth(PagesWhere(published, seek), Visible(published), seek, db);
      SelectSortBy(o, seek, visible);
      SeekKeepsRest(sorts, l, j);
    }
  }

  /** How a walk reaches row `l[j]`: no cursor for the first page, otherwise a boundary cursor for `l[j - 1]`. */
  predicate CursorBefore(c: Option<string>, sorts: seq<Sort>, l: seq<Row>, j: nat)
    requires WalkSorts(sorts) && j <= |l| && forall x :: x in l ==> PageRow(x)
  {
    if j == 0 then c.None? else c.Some? && BoundaryCursor(c.value, sorts, l[j - 1])
  }

  /** A walk request whose cursor leads to `l[j]` is answered from the walk's rows from `l[j]` on, one more than `limit` of them. */
  lemma {:induction false} PageQuery(db: seq<Row>, sorts: seq<Sort>, published: Option<bool>, limit: int, j: nat, c: Option<string>)
    requires WalkSorts(sorts) && 1 <= limit <= MaxLimit && UniqueIds(db)
    requires forall x :: x in db ==> PageRow(x)
    requires j <= |WalkRows(db, sorts, published)| && forall x :: x in WalkRows(db, sorts, published) ==> PageRow(x)
    requires CursorBefore(c, sorts, WalkRows(db, sorts, published), j)
    ensures var rest := WalkRows(db, sorts, published)[j..];
      ListSpec(Request(sorts, published, limit, c), db)
        == Success(CursorResponse(ProjectAll(rest[..if limit + 1 <= |rest| then limit + 1 else |rest|]), limit, Some(Active(sorts))))
  {
    var q := PageQueryParts(db, sorts, published, limit, j, c);
    ListAnswer(Request(sorts, published, limit, c), q, db, WalkRows(db, sorts, published)[j..]);
  }

  /** The query of a walk request whose cursor leads to `l[j]`, and the rows it matches: the walk's rows from `l[j]` on. */
  lemma {:induction false} PageQueryParts(db: seq<Row>, sorts: seq<Sort>, published: Option<bool>, limit: int, j: nat, c: Option<string>)
    returns (q: Query)
    requires WalkSorts(sorts) && 1 <= limit <= MaxLimit && UniqueIds(db)
    requires forall x :: x in db ==> PageRow(x)
    requires j <= |WalkRows(db, sorts, published)| && forall x :: x in WalkRows(db, sorts, published) ==> PageRow(x)
    requires CursorBefore(c, sorts, WalkRows(db, sorts, published), j)
    ensures QuerySpec(Request(sorts, published, limit, c).list, PagesConfig) == Success(q)
    ensures q.limit == limit + 1 && q.offset.None? && q.cursorSort == Some(Active(sorts))
    ensures SortBy(q.orderBy, Select(PagesWhere(published, q.where), db)) == WalkRows(db, sorts, published)[j..]
  {
    var seek := SeekBefore(db, sorts, published, limit, j, c);
    q := Query(WalkOrder(sorts), seek, limit + 1, None, Some(Active(sorts)));
    WalkQuery(sorts, published, limit, c, seek);
    VisibleRowsAfter(db, sorts, published, j, seek);
  }

  /** The seek clause a walk request compiles: none for the first page, otherwise the one after `l[j - 1]`. */
  lemma {:induction false} SeekBefore(db: seq<Row>, sorts: seq<Sort>, published: Option<bool>, limit: int, j: nat, c: Option<string>)
    returns (seek: Option<Expr>)
    requires WalkSorts(sorts) && UniqueIds(db)
    requires forall x :: x in db ==> PageRow(x)
    requires j <= |WalkRows(db, sorts, published)| && forall x :: x in WalkRows(db, sorts, published) ==> PageRow(x)
    requires CursorBefore(c, sorts, WalkRows(db, sorts, published), j)
    ensures CursorWhere(Request(sorts, published, limit, c).list, PagesConfig, Active(sorts)) == Success(seek)
    ensures j == 0 ==> seek.None?
    ensures j > 0 ==> WalkRows(db, sorts, published)[j - 1] in db && seek == Some(SeekOf(sorts, WalkRows(db, sorts, published)[j - 1]))
  {
    var l := WalkRows(db, sorts, published);
    WalkRowsFacts(db, sorts, published);
    if j == 0 {
      seek := None;
    } else {
      assert l[j - 1] in l;
      CursorWhereFor(sorts, published, limit, c.value, l[j - 1]);
      seek := Some(SeekOf(sorts, l[j - 1]));
    }
  }

  /** A cursor request whose query matches `rest`, in order, is answered from the first `limit + 1` rows of `rest`. */
  lemma ListAnswer(input: PagesInput, q: Query, db: seq<Row>, rest: seq<Row>)
    requires ValidShape(input.list, PagesConfig) && input.list.pagination.CursorMode?
    requires QuerySpec(input.list, PagesConfig) == Success(q)
    requires q.limit == input.list.pagination.limit + 1 && q.offset.None?
    requires SortBy(q.orderBy, Select(PagesWhere(input.published, q.where), db)) == rest
    ensures var limit := input.list.pagination.limit;
      ListSpec(input, db) == Success(CursorResponse(ProjectAll(rest[..if limit + 1 <= |rest| then limit + 1 else |rest|]), limit, q.cursorSort))
  {
    CursorRespond(input, q, db);
    FetchFirst(db, PagesWhere(input.published, q.where), q.orderBy, q.limit);
  }

  /** A cursor-mode query without an offset is answered from its first `q.limit` rows. */
  lemma CursorRespond(input: PagesInput, q: Query, db: seq<Row>)
    requires ValidPagination(input.list.pagination) && input.list.pagination.CursorMode?
    requires q.limit >= 0 && q.offset.None?
    ensures Respond(input, q, db)
         == CursorResponse(ProjectAll(Fetch(db, PagesWhere(input.published, q.where), q.orderBy, q.limit, 0)),
                           input.list.pagination.limit, q.cursorSort)
  {
  }

  /** Without an offset the database returns the first `n` matching rows in order. */
  lemma FetchFirst(db: seq<Row>, w: Option<Expr>, o: seq<Order>, n: nat)
    ensures var all := SortBy(o, Select(w, db));
      Fetch(db, w, o, n, 0) == all[..if n <= |all| then n else |all|]
  {
    var all := SortBy(o, Select(w, db));
    assert all[0..] == all;
  }

  /** A cursor response to at most `limit + 1` leading rows of `rest` shows `limit` of them and says whether more are left. */
  lemma {:induction false} CursorResponseWindow(rest: seq<Row>, limit: int, cursorSort: Option<Sort>)
    requires limit >= 0
    ensures var shown := if |rest| <= limit then |rest| else limit;
      var resp := CursorResponse(ProjectAll(rest[..if limit + 1 <= |rest| then limit + 1 else |rest|]), limit, cursorSort);
      && resp.data == ProjectAll(rest[..shown])
      && resp.meta == CursorMeta(|rest| > limit, ComputeNextCursor(resp.data, cursorSort, PagesConfig))
  {
    if |rest| > limit {
      var fetched := rest[..limit + 1];
      assert fetched[..limit] == rest[..limit];
      ProjectAllSlice(fetched, 0, limit);
      assert ProjectAll(fetched)[..limit] == ProjectAll(fetched)[0..limit];
      assert fetched[0..limit] == rest[..limit];
    }
  }

  /**
    Page `j` of the records `recs`, where `leads(c, i)` says that cursor `c`
    leads to `recs[i]`: the next `limit` records from `recs[j]` on, whether
    any are left, and a cursor that leads past the last one shown.
   */
  ghost predicate PageOf(resp: Response, recs: seq<Record>, j: nat, limit: int, leads: (Option<string>, nat) -> bool)
    requires 1 <= limit && j <= |recs|
  {
    var shown := if |recs| - j <= limit then |recs| - j else limit;
    && resp.meta.CursorMeta?
    && resp.data == recs[j..j + shown]
    && resp.meta.hasNextPage == (|recs| - j > limit)
    && (shown > 0 ==> leads(resp.meta.nextCursor, j + shown))
  }

  /** The four facts that make `resp` page `j`. */
  lemma {:induction false} PageOfIntro(resp: Response, recs: seq<Record>, j: nat, limit: int, leads: (Option<string>, nat) -> bool, shown: nat)
    requires 1 <= limit && j <= |recs| && shown == if |recs| - j <= limit then |recs| - j else limit
    requires resp.meta.CursorMeta? && resp.data == recs[j..j + shown] && resp.meta.hasNextPage == (|recs| - j > limit)
    requires shown > 0 ==> leads(resp.meta.nextCursor, j + shown)
    ensures PageOf(resp, recs, j, limit, leads)
  {
  }

  /** `serve` answers every cursor that leads to a record of `recs` with the page from that record on. */
  ghost predicate Answers(serve: Option<string> --> Result<Response, ListError>, recs: seq<Record>, limit: int, leads: (Option<string>, nat) -> bool)
    requires forall c :: serve.requires(c)
    requires 1 <= limit
  {
    forall j: nat, c {:trigger serve(c), leads(c, j)} :: j <= |recs| && leads(c, j) ==> serve(c).Success? && PageOf(serve(c).value, recs, j, limit, leads)
  }

  /** Cursor `c` leads to row `i` of walk `l`. */
  function Leads(sorts: seq<Sort>, l: seq<Row>): (leads: (Option<string>, nat) -> bool)
    requires WalkSorts(sorts) && forall x :: x in l ==> PageRow(x)
    ensures forall c, i: nat :: leads(c, i) <==> i <= |l| && CursorBefore(c, sorts, l, i)
  {
    (c, i: nat) => i <= |l| && CursorBefore(c, sorts, l, i)
  }

  /** The last record of a window of projected rows is the projection of the window's last row. */
  lemma {:induction false} LastProjected(l: seq<Row>, j: nat, shown: nat, data: seq<Record>)
    requires 0 < shown && j + shown <= |l| && data == ProjectAll(l)[j..j + shown]
    ensures data != [] && data[|data| - 1] == Project(l[j + shown - 1])
  {
    assert data[shown - 1] == ProjectAll(l)[j + shown - 1];
  }

  /** The next cursor of the page `l[j..j + shown]` leads to row `j + shown`. */
  lemma {:induction false} NextPageCursor(sorts: seq<Sort>, l: seq<Row>, j: nat, shown: nat, data: seq<Record>)
    requires WalkSorts(sorts) && 0 < shown && j + shown <= |l| && forall x :: x in l ==> PageRow(x)
    requires data == ProjectAll(l)[j..j + shown]
    ensures Leads(sorts, l)(ComputeNextCursor(data, Some(Active(sorts)), PagesConfig), j + shown)
  {
    var b := l[j + shown - 1];
    assert b in l;
    LastProjected(l, j, shown, data);
    NextCursorFor(data, sorts, b);
  }

  /** A response showing the first `limit` rows of `l[j..]`, with the cursor that page computes, is page `j`. */
  lemma {:induction false} PageOfWindow(sorts: seq<Sort>, l: seq<Row>, j: nat, limit: int, resp: Response)
    requires WalkSorts(sorts) && 1 <= limit && j <= |l| && forall x :: x in l ==> PageRow(x)
    requires var rest := l[j..];
      && resp.data == ProjectAll(rest[..if |rest| <= limit then |rest| else limit])
      && resp.meta == CursorMeta(|rest| > limit, ComputeNextCursor(resp.data, Some(Active(sorts)), PagesConfig))
    ensures PageOf(resp, ProjectAll(l), j, limit, Leads(sorts, l))
  {
    var shown := if |l| - j <= limit then |l| - j else limit;
    assert l[j..][..shown] == l[j..j + shown];
    ProjectAllSlice(l, j, j + shown);
    if shown > 0 {
      NextPageCursor(sorts, l, j, shown, resp.data);
    }
    PageOfIntro(resp, ProjectAll(l), j, limit, Leads(sorts, l), shown);
  }

  /** The cursor response to the walk's rows from `l[j]` on is page `j`. */
  lemma {:induction false} WindowIsPage(sorts: seq<Sort>, l: seq<Row>, j: nat, limit: int)
    requires WalkSorts(sorts) && 1 <= limit && j <= |l| && forall x :: x in l ==> PageRow(x)
    ensures var rest := l[j..];
      PageOf(CursorResponse(ProjectAll(rest[..if limit + 1 <= |rest| then limit + 1 else |rest|]), limit, Some(Active(sorts))),
             ProjectAll(l), j, limit, Leads(sorts, l))
  {
    var rest := l[j..];
    CursorResponseWindow(rest, limit, Some(Active(sorts)));
    PageOfWindow(sorts, l, j, limit, CursorResponse(ProjectAll(rest[..if limit + 1 <= |rest| then limit + 1 else |rest|]), limit, Some(Active(sorts))));
  }

  /** A request to the pages handler whose cursor leads to `l[j]` is answered with page `j`. */
  lemma {:induction false} PageFrom(db: seq<Row>, sorts: seq<Sort>, published: Option<bool>, limit: int, j: nat, c: Option<string>)
    requires WalkSorts(sorts) && 1 <= limit <= MaxLimit && UniqueIds(db)
    requires forall x :: x in db ==> PageRow(x)
    requires j <= |WalkRows(db, sorts, published)| && forall x :: x in WalkRows(db, sorts, published) ==> PageRow(x)
    requires CursorBefore(c, sorts, WalkRows(db, sorts, published), j)
    ensures ListSpec(Request(sorts, published, limit, c), db).Success?
    ensures PageOf(ListSpec(Request(sorts, published, limit, c), db).value, ProjectAll(WalkRows(db, sorts, published)), j, limit,
                   Leads(sorts, WalkRows(db, sorts, published)))
  {
    PageQuery(db, sorts, published, limit, j, c);
    WindowIsPage(sorts, WalkRows(db, sorts, published), j, limit);
  }

  /** Walking on from a cursor that leads to `recs[j]` collects the rest of `recs`, once each, from a server that answers with their pages. */
  lemma {:induction false} WalkFrom(serve: Option<string> --> Result<Response, ListError>, recs: seq<Record>, limit: int,
                                    leads: (Option<string>, nat) -> bool, j: nat, c: Option<string>, fuel: nat)
    requires forall c :: serve.requires(c)
    requires 1 <= limit && Answers(serve, recs, limit, leads)
    requires j <= |recs| && leads(c, j)
    requires fuel >= |recs| - j + 1
    ensures Walk(serve, c, fuel) == recs[j..]
    decreases fuel
  {
    var resp := serve(c).value;
    assert PageOf(resp, recs, j, limit, leads);
    if |recs| - j > limit {
      WalkFrom(serve, recs, limit, leads, j + limit, resp.meta.nextCursor, fuel - 1);
      assert Walk(serve, c, fuel) == resp.data + Walk(serve, resp.meta.nextCursor, fuel - 1);
      assert resp.data == recs[j..j + limit];
      assert recs[j..] == recs[j..j + limit] + recs[j + limit..];
      assert Walk(serve, c, fuel) == recs[j..];
    } else {
      assert Walk(serve, c, fuel) == resp.data;
      assert resp.data == recs[j..|recs|];
      assert recs[j..|recs|] == recs[j..];
      assert Walk(serve, c, fuel) == recs[j..];
    }
  }

  /**
    Following the pages handler's cursors from the first page visits every
    visible row (not soft-deleted, and published if asked) exactly once, in
    the walk's order, given stored rows with unique ids and non-empty titles.
   */
  lemma {:induction false} WalkVisitsAll(db: seq<Row>, sorts: seq<Sort>, published: Option<bool>, limit: int)
    requires WalkSorts(sorts) && 1 <= limit <= MaxLimit && UniqueIds(db)
    requires forall x :: x in db ==> PageRow(x)
    ensures Walk(Handler(db, sorts, published, limit), None, |db| + 1) == ProjectAll(WalkRows(db, sorts, published))
  {
    var l := WalkRows(db, sorts, published);
    var recs := ProjectAll(l);
    var serve := Handler(db, sorts, published, limit);
    var leads := Leads(sorts, l);
    HandlerAnswers(db, sorts, published, limit);
    WalkFrom(serve, recs, limit, leads, 0, None, |db| + 1);
    assert recs[0..] == recs;
  }

  /** The pages handler answers every cursor that leads to a row of the walk with that row's page. */
  lemma {:induction false} HandlerAnswers(db: seq<Row>, sorts: seq<Sort>, published: Option<bool>, limit: int)
    requires WalkSorts(sorts) && 1 <= limit <= MaxLimit && UniqueIds(db)
    requires forall x :: x in db ==> PageRow(x)
    ensures forall x :: x in WalkRows(db, sorts, published) ==> PageRow(x)
    ensures |ProjectAll(WalkRows(db, sorts, published))| <= |db|
    ensures Leads(sorts, WalkRows(db, sorts, published))(None, 0)
    ensures Answers(Handler(db, sorts, published, limit), ProjectAll(WalkRows(db, sorts, published)), limit,
                    Leads(sorts, WalkRows(db, sorts, published)))
  {
    var l := WalkRows(db, sorts, published);
    var recs := ProjectAll(l);
    var serve := Handler(db, sorts, published, limit);
    WalkRowsFacts(db, sorts, published);
    var leads := Leads(sorts, l);
    forall j: nat, c | j <= |recs| && leads(c, j)
      ensures serve(c).Success? && PageOf(serve(c).value, recs, j, limit, leads)
    {
      PageFrom(db, sorts, published, limit, j, c);
    }
  }
}
