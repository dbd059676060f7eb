/**
  The keyset-pagination list query: a request validated into cursor or
  offset mode with sort instructions, compiled into an `ORDER BY`, an
  optional seek predicate, a limit and an offset; and the cursor for the
  page after the rows a query returned.
 */
module ListQuery {
  import opened Wrappers
  import opened JsNumber
  import opened JsDate
  import opened JsonCodec
  import opened JsValues
  import opened Sql
  import TypedCursor

  /** One sort instruction: the name of a sortable column and a direction. */
  datatype Sort = Sort(column: string, direction: Direction)

  /**
    A list definition: the identity column, the columns a caller may sort
    by under their public names, and the sort used when none is given.
   */
  datatype Definition = Definition(id: Column, sortable: Option<map<string, Column>>, defaultSort: Sort)

  datatype Pagination = CursorMode(limit: int, cursor: Option<string>) | OffsetMode(page: int, pageSize: int)

  /** A validated request. */
  datatype ListInput = ListInput(pagination: Pagination, sort: seq<Sort>)

  /** The one error validation reports (the model keeps no issue list). */
  datatype ValidationError = ValidationError

  /** What compiling throws: an unknown sort column, or the exception decoding the cursor raised. */
  datatype ListError = InvalidSortColumn(column: string) | BadCursor(error: TypedCursor.CursorError)

  const DefaultLimit: int := 30
  const MaxLimit: int := 128
  const DefaultPage: int := 1
  const DefaultPageSize: int := 30

  function SortableKeys(config: Definition): set<string>
  {
    if config.sortable.None? then {} else config.sortable.value.Keys
  }

  /** `config.sortable?.[key]`. */
  function Lookup(config: Definition, key: string): (c: Option<Column>)
    ensures c.Some? <==> key in SortableKeys(config)
  {
    if config.sortable.Some? && key in config.sortable.value then Some(config.sortable.value[key]) else None
  }

  /* ---------------- Validation ---------------- */

  predicate ValidPagination(p: Pagination)
  {
    match p
    case CursorMode(limit, _) => 1 <= limit <= MaxLimit
    case OffsetMode(page, pageSize) => 1 <= page <= MaxSafe && 1 <= pageSize <= MaxLimit
  }

  /** What the object schema guarantees before its refinement: bounds, and sortable columns only. */
  predicate ValidShape(input: ListInput, config: Definition)
  {
    && ValidPagination(input.pagination)
    && forall i :: 0 <= i < |input.sort| ==> input.sort[i].column in SortableKeys(config)
  }

  /** The schema's refinement: cursor mode takes at most one sort instruction. */
  predicate SingleCursorSort(input: ListInput)
  {
    input.pagination.CursorMode? ==> |input.sort| <= 1
  }

  /** What the schema, refinement included, guarantees of the requests it accepts. */
  predicate ValidInput(input: ListInput, config: Definition)
  {
    ValidShape(input, config) && SingleCursorSort(input)
  }

  /** An integer member with a default for when it is absent; out-of-range values are rejected, not clamped. */
  function IntMember(fs: seq<Field>, key: string, default: int, lo: int, hi: int): (r: Result<int, ValidationError>)
    ensures Get(fs, key).None? ==> r == Success(default)
    ensures Get(fs, key).Some? ==> (r.Success? <==> exists n: SafeInt :: Get(fs, key) == Some(JNumber(Int(n))) && lo <= n <= hi)
    ensures Get(fs, key).Some? && r.Success? ==> exists n: SafeInt :: n == r.value && Get(fs, key) == Some(JNumber(Int(n)))
  {
    match Get(fs, key)
    case None => Success(default)
    case Some(JNumber(Int(n))) => if lo <= n <= hi then Success(n) else Failure(ValidationError)
    case Some(_) => Failure(ValidationError)
  }

  /** `z.string().nullish()`. */
  function CursorMember(fs: seq<Field>): (r: Result<Option<string>, ValidationError>)
    ensures r == Success(None) <==> Get(fs, "cursor") == None || Get(fs, "cursor") == Some(JNull)
    ensures r.Success? && r.value.Some? <==> Get(fs, "cursor").Some? && Get(fs, "cursor").value.JString?
  {
    match Get(fs, "cursor")
    case None => Success(None)
    case Some(JNull) => Success(None)
    case Some(JString(s)) => Success(Some(s))
    case Some(_) => Failure(ValidationError)
  }

  /** The `pagination` member: a union told apart by `mode`; absent, it is cursor mode with the default limit. */
  function ParsePagination(v: Option<Json>): (r: Result<Pagination, ValidationError>)
    ensures v.None? ==> r == Success(CursorMode(DefaultLimit, None))
    ensures r.Success? ==> ValidPagination(r.value)
  {
    match v
    case None => Success(CursorMode(DefaultLimit, None))
    case Some(JObject(fs)) =>
      (match Get(fs, "mode")
       case Some(JString(mode)) =>
         if mode == "cursor" then
           match (IntMember(fs, "limit", DefaultLimit, 1, MaxLimit), CursorMember(fs))
           case (Success(limit), Success(cursor)) => Success(CursorMode(limit, cursor))
           case _ => Failure(ValidationError)
         else if mode == "offset" then
           match (IntMember(fs, "page", DefaultPage, 1, MaxSafe), IntMember(fs, "pageSize", DefaultPageSize, 1, MaxLimit))
           case (Success(page), Success(pageSize)) => Success(OffsetMode(page, pageSize))
           case _ => Failure(ValidationError)
         else Failure(ValidationError)
       case _ => Failure(ValidationError))
    case Some(_) => Failure(ValidationError)
  }

  /** One element of `sort`: a sortable column name and "asc" or "desc". */
  function ParseSortEntry(j: Json, keys: set<string>): (r: Result<Sort, ValidationError>)
    ensures r.Success? ==> r.value.column in keys
  {
    match j
    case JObject(fs) =>
      (match (Get(fs, "column"), Get(fs, "direction"))
       case (Some(JString(c)), Some(JString(d))) =>
         if c in keys && d == "asc" then Success(Sort(c, Asc))
         else if c in keys && d == "desc" then Success(Sort(c, Desc))
         else Failure(ValidationError)
       case _ => Failure(ValidationError))
    case _ => Failure(ValidationError)
  }

  function ParseSortEntries(items: seq<Json>, keys: set<string>): (r: Result<seq<Sort>, ValidationError>)
    ensures r.Success? ==> |r.value| == |items| && forall i :: 0 <= i < |items| ==> r.value[i].column in keys
  {
    if items == [] then Success([])
    else
      match (ParseSortEntry(items[0], keys), ParseSortEntries(items[1..], keys))
      case (Success(s), Success(rest)) => Success([s] + rest)
      case _ => Failure(ValidationError)
  }

  /** The `sort` member: absent means no sort instructions. */
  function ParseSort(v: Option<Json>, keys: set<string>): (r: Result<seq<Sort>, ValidationError>)
    ensures v.None? ==> r == Success([])
    ensures r.Success? ==> forall i :: 0 <= i < |r.value| ==> r.value[i].column in keys
  {
    match v
    case None => Success([])
    case Some(JArray(items)) => ParseSortEntries(items, keys)
    case Some(_) => Failure(ValidationError)
  }

  /** The object schema inside `listQuerySchema(config)`, before its refinement: unknown members are dropped. */
  function ParseShape(j: Json, config: Definition): (r: Result<ListInput, ValidationError>)
    ensures r.Success? ==> ValidShape(r.value, config)
    ensures !j.JObject? ==> r.Failure?
  {
    match j
    case JObject(fs) =>
      (match (ParsePagination(Get(fs, "pagination")), ParseSort(Get(fs, "sort"), SortableKeys(config)))
       case (Success(p), Success(sort)) => Success(ListInput(p, sort))
       case _ => Failure(ValidationError))
    case _ => Failure(ValidationError)
  }

  /**
    `listQuerySchema(config).parse(j)`: the object schema, then the
    refinement that refuses cursor mode with more than one sort instruction.
   */
  function ParseInput(j: Json, config: Definition): (r: Result<ListInput, ValidationError>)
    ensures r.Success? ==> ValidInput(r.value, config)
    ensures !j.JObject? ==> r.Failure?
    ensures r.Success? <==> ParseShape(j, config).Success? && SingleCursorSort(ParseShape(j, config).value)
    ensures r.Success? ==> r == ParseShape(j, config)
  {
    match ParseShape(j, config)
    case Failure(e) => Failure(e)
    case Success(input) => if SingleCursorSort(input) then Success(input) else Failure(ValidationError)
  }

  /* ---------------- Properties of validation ---------------- */

  function DirectionName(d: Direction): string
  {
    if d == Asc then "asc" else "desc"
  }

  function SortJson(s: Sort): Json
  {
    JObject([Field("column", JString(s.column)), Field("direction", JString(DirectionName(s.direction)))])
  }

  function PaginationJson(p: Pagination): Json
    requires ValidPagination(p)
  {
    match p
    case CursorMode(limit, cursor) =>
      JObject([Field("mode", JString("cursor")), Field("limit", JNumber(Int(limit)))]
              + if cursor.Some? then [Field("cursor", JString(cursor.value))] else [])
    case OffsetMode(page, pageSize) =>
      JObject([Field("mode", JString("offset")), Field("page", JNumber(Int(page))), Field("pageSize", JNumber(Int(pageSize)))])
  }

  function SortItems(sort: seq<Sort>): (items: seq<Json>)
    ensures |items| == |sort|
  {
    seq(|sort|, i requires 0 <= i < |sort| => SortJson(sort[i]))
  }

  /** A request written out in full as JSON. */
  function InputJson(input: ListInput): Json
    requires ValidPagination(input.pagination)
  {
    JObject([Field("pagination", PaginationJson(input.pagination)),
             Field("sort", JArray(SortItems(input.sort)))])
  }

  lemma GetFirst(f: Field, fs: seq<Field>)
    ensures Get([f] + fs, f.key) == Some(f.value)
  {
  }

  lemma GetNext(f: Field, fs: seq<Field>, k: string)
    requires f.key != k
    ensures Get([f] + fs, k) == Get(fs, k)
  {
    assert ([f] + fs)[1..] == fs;
  }

  lemma ParseSortJson(s: Sort, keys: set<string>)
    requires s.column in keys
    ensures ParseSortEntry(SortJson(s), keys) == Success(s)
  {
    var d := Field("direction", JString(DirectionName(s.direction)));
    GetNext(Field("column", JString(s.column)), [d], "direction");
    GetFirst(d, []);
  }

  lemma {:induction false} ParseSortEntriesJson(sort: seq<Sort>, keys: set<string>)
    requires forall i :: 0 <= i < |sort| ==> sort[i].column in keys
    ensures ParseSortEntries(SortItems(sort), keys) == Success(sort)
  {
    var items := SortItems(sort);
    if sort != [] {
      ParseSortJson(sort[0], keys);
      assert items[1..] == SortItems(sort[1..]);
      ParseSortEntriesJson(sort[1..], keys);
      assert [sort[0]] + sort[1..] == sort;
    }
  }

  lemma ParseCursorPaginationJson(limit: int, cursor: Option<string>)
    requires ValidPagination(CursorMode(limit, cursor))
    ensures ParsePagination(Some(PaginationJson(CursorMode(limit, cursor)))) == Success(CursorMode(limit, cursor))
  {
    var m := Field("mode", JString("cursor"));
    var l := Field("limit", JNumber(Int(limit)));
    var tail := if cursor.Some? then [Field("cursor", JString(cursor.value))] else [];
    assert [m, l] + tail == [m] + ([l] + tail);
    GetFirst(m, [l] + tail);
    GetNext(m, [l] + tail, "limit");
    GetFirst(l, tail);
    GetNext(m, [l] + tail, "cursor");
    GetNext(l, tail, "cursor");
    if cursor.Some? {
      GetFirst(tail[0], []);
    }
  }

  lemma ParseOffsetPaginationJson(page: int, pageSize: int)
    requires ValidPagination(OffsetMode(page, pageSize))
    ensures ParsePagination(Some(PaginationJson(OffsetMode(page, pageSize)))) == Success(OffsetMode(page, pageSize))
  {
    var m := Field("mode", JString("offset"));
    var p := Field("page", JNumber(Int(page)));
    var z := Field("pageSize", JNumber(Int(pageSize)));
    assert [m, p, z] == [m] + ([p] + [z]);
    GetFirst(m, [p] + [z]);
    GetNext(m, [p] + [z], "page");
    GetFirst(p, [z]);
    GetNext(m, [p] + [z], "pageSize");
    GetNext(p, [z], "pageSize");
    GetFirst(z, []);
  }

  /** Every request of the schema's shape is accepted as written by the object schema. */
  lemma ParseShapeJson(input: ListInput, config: Definition)
    requires ValidShape(input, config)
    ensures ParseShape(InputJson(input), config) == Success(input)
  {
    var items := SortItems(input.sort);
    var p := Field("pagination", PaginationJson(input.pagination));
    var s := Field("sort", JArray(items));
    assert [p] + [s] == [p, s];
    GetFirst(p, [s]);
    GetNext(p, [s], "sort");
    GetFirst(s, []);
    assert [s] + [] == [s];
    ParseSortEntriesJson(input.sort, SortableKeys(config));
    assert ParseSort(Get([p, s], "sort"), SortableKeys(config)) == Success(input.sort);
    match input.pagination {
      case CursorMode(limit, cursor) => ParseCursorPaginationJson(limit, cursor);
      case OffsetMode(page, pageSize) => ParseOffsetPaginationJson(page, pageSize);
    }
    assert ParsePagination(Get([p, s], "pagination")) == Success(input.pagination);
  }

  /** Every valid request is accepted as written: the schema refuses nothing it promises. */
  lemma ParseInputJson(input: ListInput, config: Definition)
    requires ValidInput(input, config)
    ensures ParseInput(InputJson(input), config) == Success(input)
  {
    ParseShapeJson(input, config);
  }

  /** The refinement refuses a well-formed cursor request with more than one sort instruction. */
  lemma SeveralCursorSortsRefused(input: ListInput, config: Definition)
    requires ValidShape(input, config) && input.pagination.CursorMode? && |input.sort| > 1
    ensures ParseInput(InputJson(input), config) == Failure(ValidationError)
  {
    ParseShapeJson(input, config);
  }

  /** No pagination and no sort: cursor mode, 30 rows, no cursor, no sort instructions. */
  lemma DefaultInput(config: Definition)
    ensures ParseInput(JObject([]), config) == Success(ListInput(CursorMode(DefaultLimit, None), []))
  {
  }

  /** Offset mode without page or page size: the first page of 30 rows. */
  lemma DefaultOffsetInput(config: Definition)
    ensures ParseInput(JObject([Field("pagination", JObject([Field("mode", JString("offset"))]))]), config)
         == Success(ListInput(OffsetMode(DefaultPage, DefaultPageSize), []))
  {
    var m := Field("mode", JString("offset"));
    GetFirst(m, []);
    GetNext(m, [], "page");
    GetNext(m, [], "pageSize");
    GetFirst(Field("pagination", JObject([m])), []);
  }

  /** A cursor-mode limit is accepted exactly when it lies in 1..128, and then it is kept as given. */
  lemma CursorLimitBounds(n: SafeInt, config: Definition)
    ensures var r := ParseInput(JObject([Field("pagination", JObject([Field("mode", JString("cursor")), Field("limit", JNumber(Int(n)))]))]), config);
      && (r.Success? <==> 1 <= n <= MaxLimit)
      && (r.Success? ==> r.value == ListInput(CursorMode(n, None), []))
  {
    var m := Field("mode", JString("cursor"));
    var l := Field("limit", JNumber(Int(n)));
    GetFirst(m, [l]);
    GetNext(m, [l], "limit");
    GetFirst(l, []);
    GetNext(m, [l], "cursor");
    GetNext(l, [], "cursor");
    GetFirst(Field("pagination", JObject([m, l])), []);
  }

  /** An offset-mode page must be at least 1 and a page size in 1..128; neither is clamped. */
  lemma OffsetBounds(page: SafeInt, pageSize: SafeInt, config: Definition)
    ensures var r := ParseInput(JObject([Field("pagination", JObject([Field("mode", JString("offset")),
        Field("page", JNumber(Int(page))), Field("pageSize", JNumber(Int(pageSize)))]))]), config);
      && (r.Success? <==> 1 <= page && 1 <= pageSize <= MaxLimit)
      && (r.Success? ==> r.value == ListInput(OffsetMode(page, pageSize), []))
  {
    var m := Field("mode", JString("offset"));
    var p := Field("page", JNumber(Int(page)));
    var z := Field("pageSize", JNumber(Int(pageSize)));
    assert [m, p, z] == [m] + ([p] + [z]);
    GetFirst(m, [p] + [z]);
    GetNext(m, [p] + [z], "page");
    GetFirst(p, [z]);
    GetNext(m, [p] + [z], "pageSize");
    GetNext(p, [z], "pageSize");
    GetFirst(z, []);
    GetFirst(Field("pagination", JObject([m, p, z])), []);
  }

  /* ---------------- compileOrderBy ---------------- */

  /** The ordering and, in cursor mode, the sort the cursor follows. */
  datatype Ordering = Ordering(orderBy: seq<Order>, cursorSort: Option<Sort>)

  /** The caller's sorts, or the default sort when there are none. */
  function EffectiveSorts(input: ListInput, config: Definition): (s: seq<Sort>)
    ensures |s| >= 1
  {
    if |input.sort| > 0 then input.sort else [config.defaultSort]
  }

  /** The `ORDER BY` terms of the sorts, or the error for the first one whose column is unknown. */
  function ResolveAll(sorts: seq<Sort>, config: Definition): (r: Result<seq<Order>, ListError>)
    ensures r.Success? <==> forall i :: 0 <= i < |sorts| ==> sorts[i].column in SortableKeys(config)
    ensures r.Success? ==> (|r.value| == |sorts|
      && forall i :: 0 <= i < |sorts| ==> r.value[i] == Order(Lookup(config, sorts[i].column).value, sorts[i].direction))
    ensures r.Failure? ==> exists i :: (0 <= i < |sorts| && r.error == InvalidSortColumn(sorts[i].column)
      && sorts[i].column !in SortableKeys(config))
  {
    if sorts == [] then Success([])
    else
      var init := sorts[..|sorts| - 1];
      var last := sorts[|sorts| - 1];
      assert forall i :: 0 <= i < |init| ==> init[i] == sorts[i];
      match ResolveAll(init, config)
      case Failure(e) => Failure(e)
      case Success(orders) =>
        match Lookup(config, last.column)
        case None => Failure(InvalidSortColumn(last.column))
        case Some(col) => Success(orders + [Order(col, last.direction)])
  }

  /** Some caller sort names the identity column: compares the public sort name with the column's database name. */
  predicate HasIdAlready(input: ListInput, config: Definition)
  {
    exists i :: 0 <= i < |input.sort| && input.sort[i].column == config.id.name
  }

  function TieBreakDirection(input: ListInput, config: Definition): Direction
  {
    if input.sort != [] then input.sort[|input.sort| - 1].direction else config.defaultSort.direction
  }

  /**
    The ordering `compileOrderBy` builds. Cursor mode: the first effective
    sort's column, then the id, both in that sort's direction. Offset mode:
    every effective sort in order, then the id in the last caller sort's
    direction unless a caller sort already names it.
   */
  function OrderBySpec(input: ListInput, config: Definition): Result<Ordering, ListError>
  {
    var sorts := EffectiveSorts(input, config);
    if input.pagination.CursorMode? then
      var primary := sorts[0];
      match Lookup(config, primary.column)
      case None => Failure(InvalidSortColumn(primary.column))
      case Some(col) => Success(Ordering([Order(col, primary.direction), Order(config.id, primary.direction)], Some(primary)))
    else
      match ResolveAll(sorts, config)
      case Failure(e) => Failure(e)
      case Success(orders) =>
        var tail := if HasIdAlready(input, config) then [] else [Order(config.id, TieBreakDirection(input, config))];
        Success(Ordering(orders + tail, None))
  }

  lemma {:induction false} ResolveAllFails(sorts: seq<Sort>, config: Definition, k: nat)
    requires k <= |sorts| && ResolveAll(sorts[..k], config).Failure?
    ensures ResolveAll(sorts, config) == ResolveAll(sorts[..k], config)
    decreases |sorts| - k
  {
    if k < |sorts| {
      assert sorts[..k + 1][..k] == sorts[..k];
      ResolveAllFails(sorts, config, k + 1);
    } else {
      assert sorts[..k] == sorts;
    }
  }

  /** `compileOrderBy`, building the terms one push at a time. */
  method CompileOrderBy(input: ListInput, config: Definition) returns (r: Result<Ordering, ListError>)
    ensures r == OrderBySpec(input, config)
  {
    var orderBy: seq<Order> := [];
    var sorts := EffectiveSorts(input, config);
    if input.pagination.CursorMode? {
      var primary := sorts[0];
      var primaryColumn := Lookup(config, primary.column);
      if primaryColumn.None? {
        return Failure(InvalidSortColumn(primary.column));
      }
      orderBy := orderBy + [Order(primaryColumn.value, primary.direction)];
      orderBy := orderBy + [Order(config.id, primary.direction)];
      assert orderBy == [Order(primaryColumn.value, primary.direction), Order(config.id, primary.direction)];
      return Success(Ordering(orderBy, Some(primary)));
    }
    for i := 0 to |sorts|
      invariant ResolveAll(sorts[..i], config) == Success(orderBy)
    {
      var column := Lookup(config, sorts[i].column);
      assert sorts[..i + 1][..i] == sorts[..i];
      if column.None? {
        ResolveAllFails(sorts, config, i + 1);
        return Failure(InvalidSortColumn(sorts[i].column));
      }
      orderBy := orderBy + [Order(column.value, sorts[i].direction)];
    }
    assert sorts[..|sorts|] == sorts;
    assert ResolveAll(sorts, config) == Success(orderBy);
    var hasIdAlready := exists k :: 0 <= k < |input.sort| && input.sort[k].column == config.id.name;
    assert hasIdAlready == HasIdAlready(input, config);
    if !hasIdAlready {
      var tieBreakDirection := if input.sort != [] then input.sort[|input.sort| - 1].direction else config.defaultSort.direction;
      assert tieBreakDirection == TieBreakDirection(input, config);
      orderBy := orderBy + [Order(config.id, tieBreakDirection)];
    } else {
      assert orderBy + [] == orderBy;
    }
    return Success(Ordering(orderBy, None));
  }

  /**
    Cursor mode orders by exactly the active sort's column and then the id,
    both in the active sort's direction; the active sort is the first
    caller sort, or the default one, and it becomes the cursor sort.
   */
  lemma CursorOrdering(input: ListInput, config: Definition)
    requires input.pagination.CursorMode?
    ensures var active := if input.sort != [] then input.sort[0] else config.defaultSort;
      var r := OrderBySpec(input, config);
      && (r.Success? <==> active.column in SortableKeys(config))
      && (r.Success? ==> (r.value.cursorSort == Some(active)
            && r.value.orderBy == [Order(config.sortable.value[active.column], active.direction), Order(config.id, active.direction)]))
      && (r.Failure? ==> r.error == InvalidSortColumn(active.column))
  {
  }

  /**
    Offset mode orders by every effective sort in the caller's order, then
    by the id unless a caller sort names the id column's database name;
    there is no cursor sort. An unknown column fails the whole ordering.
   */
  lemma OffsetOrdering(input: ListInput, config: Definition)
    requires input.pagination.OffsetMode?
    ensures var sorts := EffectiveSorts(input, config);
      var r := OrderBySpec(input, config);
      && (r.Success? <==> forall i :: 0 <= i < |sorts| ==> sorts[i].column in SortableKeys(config))
      && (r.Success? ==>
            && r.value.cursorSort == None
            && |r.value.orderBy| == |sorts| + (if HasIdAlready(input, config) then 0 else 1)
            && (forall i :: 0 <= i < |sorts| ==> r.value.orderBy[i] == Order(config.sortable.value[sorts[i].column], sorts[i].direction))
            && (!HasIdAlready(input, config) ==> r.value.orderBy[|sorts|] == Order(config.id, TieBreakDirection(input, config))))
      && (r.Failure? ==> exists i :: 0 <= i < |sorts| && r.error == InvalidSortColumn(sorts[i].column) && sorts[i].column !in SortableKeys(config))
  {
  }

  /**
    Every successful ordering holds the identity column, provided a sort
    name equal to the id column's name denotes that column.
   */
  lemma OrderingHasId(input: ListInput, config: Definition)
    requires OrderBySpec(input, config).Success?
    requires config.id.name in SortableKeys(config) ==> config.sortable.value[config.id.name] == config.id
    ensures exists k :: 0 <= k < |OrderBySpec(input, config).value.orderBy| && OrderBySpec(input, config).value.orderBy[k].col == config.id
  {
    var o := OrderBySpec(input, config).value.orderBy;
    if input.pagination.CursorMode? {
      assert o[1].col == config.id;
    } else if HasIdAlready(input, config) {
      var i :| 0 <= i < |input.sort| && input.sort[i].column == config.id.name;
      OffsetOrdering(input, config);
      assert o[i].col == config.id;
    } else {
      OffsetOrdering(input, config);
      assert o[|o| - 1].col == config.id;
    }
  }

  /**
    The ordering fails only on a sort name outside the sortable columns, and
    it cannot fail on an input the schema accepts when the default sort's
    column is sortable; the cursor sort is there exactly in cursor mode.
   */
  lemma OrderingOutcome(input: ListInput, config: Definition)
    ensures var r := OrderBySpec(input, config);
      && (r.Failure? ==> r.error.InvalidSortColumn? && r.error.column !in SortableKeys(config))
      && (r.Success? ==> (r.value.cursorSort.Some? <==> input.pagination.CursorMode?))
      && (ValidShape(input, config) && config.defaultSort.column in SortableKeys(config) ==> r.Success?)
  {
    if input.pagination.OffsetMode? {
      OffsetOrdering(input, config);
    }
  }

  /* ---------------- compileCursorWhere ---------------- */

  /**
    The seek predicate after the boundary `(v, cid)`: for a descending sort
    `col < v OR (col = v AND id < cid)`, for an ascending one the same with `>`.
   */
  function Seek(d: Direction, col: Column, id: Column, v: JsValue, cid: JsValue): Expr
  {
    var op := if d == Desc then Lt else Gt;
    Or([Compare(op, col, v), And([Compare(Eq, col, v), Compare(op, id, cid)])])
  }

  /** A cursor that is absent or the empty string sets no predicate. */
  predicate HasCursor(p: Pagination)
  {
    p.CursorMode? && p.cursor.Some? && p.cursor.value != ""
  }

  /**
    `compileCursorWhere`: no predicate outside cursor mode or without a
    cursor; otherwise the seek predicate after the decoded boundary, or
    the error for an unknown column or an undecodable token.
   */
  function CursorWhere(input: ListInput, config: Definition, cursorSort: Sort): (r: Result<Option<Expr>, ListError>)
    ensures r == Success(None) <==> !HasCursor(input.pagination)
    ensures HasCursor(input.pagination) && cursorSort.column !in SortableKeys(config) ==> r == Failure(InvalidSortColumn(cursorSort.column))
    ensures HasCursor(input.pagination) && cursorSort.column in SortableKeys(config) ==>
      match TypedCursor.Decode(input.pagination.cursor.value)
      case Failure(e) => r == Failure(BadCursor(e))
      case Success(decoded) =>
        r == Success(Some(Seek(cursorSort.direction, config.sortable.value[cursorSort.column], config.id, decoded.value, decoded.id)))
  {
    if !input.pagination.CursorMode? then Success(None)
    else if input.pagination.cursor.None? || input.pagination.cursor.value == "" then Success(None)
    else
      match Lookup(config, cursorSort.column)
      case None => Failure(InvalidSortColumn(cursorSort.column))
      case Some(sortColumn) =>
        match TypedCursor.Decode(input.pagination.cursor.value)
        case Failure(e) => Failure(BadCursor(e))
        case Success(decoded) => Success(Some(Seek(cursorSort.direction, sortColumn, config.id, decoded.value, decoded.id)))
  }

  lemma EvalOr2(a: Expr, b: Expr, r: Row)
    ensures Eval(Or([a, b]), r) == Or3(Eval(a, r), Eval(b, r))
  {
    var ps := [a, b];
    assert ps[0] == a && ps[1..] == [b];
    assert [b][0] == b && [b][1..] == [];
    assert EvalOr([b], r) == Or3(Eval(b, r), FALSE);
    assert EvalOr(ps, r) == Or3(Eval(a, r), EvalOr([b], r));
  }

  lemma EvalAnd2(a: Expr, b: Expr, r: Row)
    ensures Eval(And([a, b]), r) == And3(Eval(a, r), Eval(b, r))
  {
    var ps := [a, b];
    assert ps[0] == a && ps[1..] == [b];
    assert [b][0] == b && [b][1..] == [];
    assert EvalAnd([b], r) == And3(Eval(b, r), TRUE);
    assert EvalAnd(ps, r) == And3(Eval(a, r), EvalAnd([b], r));
  }

  /** A non-NULL value of one of the types a seek compares. */
  predicate Comparable(x: Cell, y: Cell)
  {
    x != NullCell && y != NullCell && Rank(x) == Rank(y)
  }

  /**
    Over rows whose sort and id values are of the boundary's types, the
    seek predicate is never UNKNOWN, and it holds exactly for the rows
    strictly after the boundary row in the ordering `[col, id]`.
   */
  lemma SeekSelectsAfter(d: Direction, col: Column, id: Column, v: JsValue, cid: JsValue, b: Row, r: Row)
    requires Bind(v) == Some(At(b, col)) && Bind(cid) == Some(At(b, id))
    requires Comparable(At(r, col), At(b, col)) && Comparable(At(r, id), At(b, id))
    ensures Eval(Seek(d, col, id, v, cid), r) != UNKNOWN
    ensures Eval(Seek(d, col, id, v, cid), r) == TRUE <==> Before([Order(col, d), Order(id, d)], b, r)
  {
    var op := if d == Desc then Lt else Gt;
    var x, y := At(r, col), At(b, col);
    EvalOr2(Compare(op, col, v), And([Compare(Eq, col, v), Compare(op, id, cid)]), r);
    EvalAnd2(Compare(Eq, col, v), Compare(op, id, cid), r);
    var o := [Order(col, d), Order(id, d)];
    assert o[1..] == [Order(id, d)];
    assert o[1..][1..] == [];
    var first := Compare(op, col, v);
    var same := Compare(Eq, col, v);
    var tie := Compare(op, id, cid);
    assert Eval(first, r) == CompareCells(op, x, y);
    assert Eval(same, r) == CompareCells(Eq, x, y);
    assert Eval(tie, r) == CompareCells(op, At(r, id), At(b, id));
    if x == y {
      LessIrreflexive(x);
      assert Eval(first, r) == FALSE && Eval(same, r) == TRUE;
      assert Before(o, b, r) == Before(o[1..], b, r);
      if At(r, id) == At(b, id) {
        LessIrreflexive(At(r, id));
        assert !Before(o[1..], b, r);
      } else {
        assert Before(o[1..], b, r) == DirLess(d, At(b, id), At(r, id));
      }
    } else {
      assert Eval(same, r) == FALSE;
      assert Before(o, b, r) == DirLess(d, y, x);
    }
  }

  /* ---------------- buildListQuery ---------------- */

  /** The compiled query. */
  datatype Query = Query(orderBy: seq<Order>, where: Option<Expr>, limit: int, offset: Option<int>, cursorSort: Option<Sort>)

  /**
    The query `buildListQuery` compiles: in cursor mode one row more than
    the page and a seek clause exactly when there is a cursor; in offset
    mode the page's window and no seek clause.
   */
  function QuerySpec(input: ListInput, config: Definition): Result<Query, ListError>
  {
    var ordering := OrderBySpec(input, config);
    if ordering.Failure? then Failure(ordering.error)
    else if input.pagination.CursorMode? then
      var where := CursorWhere(input, config, ordering.value.cursorSort.value);
      if where.Failure? then Failure(where.error)
      else Success(Query(ordering.value.orderBy, where.value, input.pagination.limit + 1, None, ordering.value.cursorSort))
    else
      var p := input.pagination;
      Success(Query(ordering.value.orderBy, None, p.pageSize, Some((p.page - 1) * p.pageSize), ordering.value.cursorSort))
  }

  /** In cursor mode the compiled query is the ordering, its seek clause, and one row more than the page. */
  lemma CursorQuery(input: ListInput, config: Definition, ordering: Ordering, w: Option<Expr>)
    requires input.pagination.CursorMode? && OrderBySpec(input, config) == Success(ordering) && ordering.cursorSort.Some?
    requires CursorWhere(input, config, ordering.cursorSort.value) == Success(w)
    ensures QuerySpec(input, config) == Success(Query(ordering.orderBy, w, input.pagination.limit + 1, None, ordering.cursorSort))
  {
  }

  /**
    The compiled query asks for one row more than the page and seeks exactly
    when a cursor was sent in cursor mode; in offset mode it asks for a page
    of rows after the earlier pages, with no seek.
   */
  lemma QueryShape(input: ListInput, config: Definition)
    ensures var r := QuerySpec(input, config);
      && (r.Success? && input.pagination.CursorMode? ==>
            r.value.limit == input.pagination.limit + 1 && r.value.offset.None?
            && (r.value.where.Some? <==> HasCursor(input.pagination)))
      && (r.Success? && input.pagination.OffsetMode? ==>
            r.value.limit == input.pagination.pageSize && r.value.offset == Some((input.pagination.page - 1) * input.pagination.pageSize)
            && r.value.where.None?)
  {
  }

  /**
    `buildListQuery`: the ordering, the seek predicate in cursor mode, one
    row more than the page in cursor mode (to tell whether another page
    follows), and in offset mode a page's worth of rows after the earlier pages.
   */
  method BuildListQuery(input: ListInput, config: Definition) returns (r: Result<Query, ListError>)
    ensures OrderBySpec(input, config).Failure? ==> r == Failure(OrderBySpec(input, config).error)
    ensures OrderBySpec(input, config).Success? && input.pagination.CursorMode? ==>
      var ordering := OrderBySpec(input, config).value;
      match CursorWhere(input, config, ordering.cursorSort.value)
      case Failure(e) => r == Failure(e)
      case Success(w) => r == Success(Query(ordering.orderBy, w, input.pagination.limit + 1, None, ordering.cursorSort))
    ensures OrderBySpec(input, config).Success? && input.pagination.OffsetMode? ==>
      var ordering := OrderBySpec(input, config).value;
      var p := input.pagination;
      r == Success(Query(ordering.orderBy, None, p.pageSize, Some((p.page - 1) * p.pageSize), ordering.cursorSort))
    ensures r == QuerySpec(input, config)
  {
    var compiled := CompileOrderBy(input, config);
    if compiled.Failure? {
      return Failure(compiled.error);
    }
    var ordering := compiled.value;
    var whereParts: seq<Option<Expr>> := [];
    if input.pagination.CursorMode? {
      var part := CursorWhere(input, config, ordering.cursorSort.value);
      if part.Failure? {
        return Failure(part.error);
      }
      whereParts := whereParts + [part.value];
    }
    var where := AndOf(whereParts);
    assert whereParts != [] ==> Present(whereParts) == if whereParts[0].Some? then [whereParts[0].value] else [];
    var limit := if input.pagination.CursorMode? then input.pagination.limit + 1 else input.pagination.pageSize;
    var offset := if input.pagination.OffsetMode? then Some((input.pagination.page - 1) * input.pagination.pageSize) else None;
    return Success(Query(ordering.orderBy, where, limit, offset, ordering.cursorSort));
  }

  /* ---------------- computeNextCursor ---------------- */

  /** A returned row as a JavaScript object, keyed by property name. */
  type Record = map<string, Cell>

  /** The JavaScript value of property `key` of a returned row. */
  function Property(rec: Record, key: string): (v: JsValue)
    ensures v != Unknown
  {
    if key !in rec then Undefined
    else
      match rec[key]
      case Text(s) => Str(s)
      case Integer(n) => Num(Int(n))
      case Timestamp(t) => Date(Valid(t))
      case Boolean(b) => Bool(b)
      case NullCell => Null
  }

  /**
    The cursor value of a non-NULL stored value: a boolean is neither a
    `Date` nor a number, so it goes in as the string `String(b)`.
   */
  function CursorValueOf(c: Cell): (v: TypedCursor.CursorValue)
    requires c != NullCell
    ensures v != TypedCursor.DateObject(Invalid)
  {
    match c
    case Text(s) => TypedCursor.StringValue(s)
    case Integer(n) => TypedCursor.NumberValue(n)
    case Timestamp(t) => TypedCursor.DateObject(Valid(t))
    case Boolean(b) => TypedCursor.StringValue(if b then "true" else "false")
  }

  /** How `JSON.stringify` writes a stored id: a `Date` through `toISOString`. */
  function IdJson(c: Cell): (j: Json)
    ensures Canonical(j)
  {
    match c
    case Text(s) => JString(s)
    case Integer(n) => JNumber(Int(n))
    case Timestamp(t) => JString(ToIsoString(Valid(t)).value)
    case Boolean(b) => JBool(b)
    case NullCell => JNull
  }

  /**
    `computeNextCursor`: null without a cursor sort, without rows, or when
    the last row's sort value or id is falsy (`""`, `0`, `false`, NULL or
    missing); otherwise a token that decodes to the last row's sort value
    and id.
   */
  function ComputeNextCursor(rows: seq<Record>, cursorSort: Option<Sort>, config: Definition): (r: Option<string>)
    ensures r.Some? <==> (cursorSort.Some? && rows != []
      && Truthy(Property(rows[|rows| - 1], cursorSort.value.column)) && Truthy(Property(rows[|rows| - 1], config.id.name)))
    ensures r.Some? ==>
      var last := rows[|rows| - 1];
      var value := last[cursorSort.value.column];
      var id := last[config.id.name];
      value != NullCell && id != NullCell
      && r.value != []
      && TypedCursor.Decode(r.value) == Success(TypedCursor.Decoded(TypedCursor.Expected(CursorValueOf(value)), FromJson(IdJson(id))))
  {
    if cursorSort.None? then None
    else if rows == [] then None
    else
      var last := rows[|rows| - 1];
      var value := Property(last, cursorSort.value.column);
      var id := Property(last, config.id.name);
      if !(Truthy(value) && Truthy(id)) then None
      else
        var payload := TypedCursor.Payload(CursorValueOf(last[cursorSort.value.column]), IdJson(last[config.id.name]));
        TypedCursor.RoundTrip(payload);
        Some(TypedCursor.Encode(payload).value)
  }

  /** Only the last row counts. */
  lemma NextCursorOfLast(rows: seq<Record>, cursorSort: Option<Sort>, config: Definition)
    requires rows != []
    ensures ComputeNextCursor(rows, cursorSort, config) == ComputeNextCursor([rows[|rows| - 1]], cursorSort, config)
  {
  }

  /** The last row's sort value and id read back from the cursor bind to the stored values, for text, integer and timestamp columns and text or integer ids. */
  lemma NextCursorBinds(value: Cell, id: Cell)
    requires value.Text? || value.Integer? || value.Timestamp?
    requires id.Text? || id.Integer?
    ensures Bind(TypedCursor.Expected(CursorValueOf(value))) == Some(value)
    ensures Bind(FromJson(IdJson(id))) == Some(id)
  {
  }
}
