# Keyset pagination, cursors, pager, slugs and the sign-in proxy

A Dafny model of the list-query core of the starter kit, and of the small
pieces of the web app around it:

- **The list-query compiler** (`packages/db/utils/list-query.ts`, module `ListQuery`).
  - It validates a list request.
  - It compiles the request's sort into an `ORDER BY` with an id tie-breaker.
  - In cursor mode it turns the cursor into a seek predicate (`col < v OR (col = v AND id < cid)` and its ascending mirror).
  - It computes the limit and the offset.
  - It derives the next cursor from the last row of a page.
- **The typed cursor codec** (`packages/db/utils/cursor.ts`, module `TypedCursor`). The boundary row's sort value and id travel as JSON `{value, type, id}`, written as UTF-8 and then as unpadded base64url. Dates use their ISO string and numbers their decimal text.
- **The `pages.list` handler** (`packages/api/router/pages.ts`, lines 14-85, module `PagesList`).
  - The list definition of the pages table.
  - The soft-delete test and the `published` filter.
  - The lookahead row that decides `hasNextPage`.
  - The offset-mode page count.
- **The API's generic cursor** (`packages/api/lib/cursor.ts`, module `JsonCursor`). A flat record goes to JSON, then UTF-8, then base64url. Every decoding failure becomes the single "Invalid cursor" error.
- **The pager hook** (`packages/ui/components/pagination.tsx`, module `Pagination`).
  - The controlled and uncontrolled page state.
  - `handleChange`.
  - The item list: boundary pages, sibling window, ellipses.
  - The enabled and disabled states of the Previous and Next buttons.
- **`slugify`** (`apps/web/lib/utils.ts`, module `Slugify`).
- **The request proxy** (`apps/web/proxy.ts`, module `Proxy`).
  - Sign-in redirects.
  - The invitation redirect cookie.
  - The organisation-selection redirect.
  - The route matcher.

Supporting modules give the JavaScript built-ins these files call a precise meaning:

- `JsonCodec`: `JSON.stringify` and `JSON.parse`, with JavaScript's property order.
- `Base64Url`: `Buffer`'s base64url. Encoding follows section 5 of RFC 4648. Node's decoding is lenient: it skips characters outside the alphabet and stops at `=`.
- `Utf8`: UTF-8 encoding, and decoding with U+FFFD replacement.
- `JsNumber`: `String(n)` and `Number(s)` on safe integers. NaN and an explicit bucket for other doubles are also represented.
- `JsDate`: `toISOString`, and `new Date(s)` on ISO strings.
- `JsValues`: property access and truthiness.
- `Decimal`: decimal digit strings.

The database is the module `Sql`:

- three-valued evaluation of the `WHERE` expressions;
- a lexicographic row order for `ORDER BY`;
- `Fetch`, which is filter, sort, skip and take.

Text collates in code-point order in both `WHERE` and `ORDER BY`. The module `TimestampPrecision` looks at the seek on `created_at` when the column keeps microseconds.

The central results:

- **Cursor round trips.** Encoding then decoding a typed cursor returns the id exactly and the value as the source promises: strings verbatim, integers exactly, dates to the millisecond (`TypedCursor.RoundTrip`). The API cursor round trip holds the same way (`JsonCursor.RoundTrip`).
- **The seek predicate.** It selects exactly the rows strictly after the boundary row in the emitted ordering (`ListQuery.SeekSelectsAfter`).
- **The cursor walk.** A client that follows `nextCursor` while `hasNextPage` holds visits every visible page row exactly once, in the ordering, when at most one sort is given, ids are unique, and every row has a non-empty id, a non-empty title and a `created_at` time (`PagesList.WalkVisitsAll`).
- **The pager layout.** For `boundaryCount >= 1` and `siblingCount >= 0`, the item list is strictly increasing, skips no page without an ellipsis, shows the current page (once, when it is in range) and its siblings, and has a fixed width (`Pagination.ItemsLayout`, `Pagination.Width`, `Pagination.SiblingsShown`).
- **Slugs.** `slugify`'s outputs are exactly its fixed points, so it is idempotent (`Slugify.FixedPoints`).
- **The proxy.** Its decision rules, and the cookies each request leaves behind (`Proxy.Decide`, `Proxy.HandleRequest` and the rule lemmas).

Two details of the handler shape the walk and the filter:

- The handler computes `nextCursor` from every non-empty page, the last one included (`packages/api/router/pages.ts:65`). What ends a walk is `hasNextPage` (`PagesList.CursorPageWindow`, `PagesList.NextCursorFor`, `PagesList.Walk`).
- `filters.published` is tested for truthiness, so `published: false` filters nothing (`PagesList.PagesWhereHolds`).

## Model

| member | source | states |
|---|---|---|
| TypedCursor.TypeName | packages/db/utils/cursor.ts:1 | a value type is written as one of the three tags "string", "number", "date" |
| TypedCursor.DetectValueType | packages/db/utils/cursor.ts:14-22 | a value is tagged "date" iff it is a Date object, "number" iff it is a number, and "string" otherwise |
| TypedCursor.SerializeValue | packages/db/utils/cursor.ts:24-38 | serialisation fails, with `toISOString`'s RangeError, exactly for an invalid Date; otherwise the tag is the detected type, and a string is kept verbatim |
| TypedCursor.DeserializeValue | packages/db/utils/cursor.ts:40-50 | tag "date" gives `new Date(value)`, tag "number" gives `Number(value)`, any other tag (unknown ones included) gives the value itself |
| TypedCursor.Encode | packages/db/utils/cursor.ts:52-62 | encoding fails exactly for an invalid Date; otherwise the token is non-empty and uses only the URL-safe base64 alphabet |
| TypedCursor.Decode | packages/db/utils/cursor.ts:64-73 | no error wrapping: a SyntaxError exactly when the token's text is not JSON, a TypeError exactly when it is JSON `null`, and no other failure |
| TypedCursor.SerializedProperties | packages/db/utils/cursor.ts:55-59 | the serialised object's `value`, `type` and `id` properties read back as the value text, the tag and the id |
| TypedCursor.DeserializeSerialized | packages/db/utils/cursor.ts:24-50 | deserialising a serialised value gives the string verbatim, the same integer, or a Date at the same millisecond |
| TypedCursor.RoundTrip | packages/db/utils/cursor.ts:52-73 | for a valid value and a JSON id, `decodeCursor(encodeCursor(p))` succeeds with the expected value and exactly the same id |
| JsonCodec.RoundTrip | packages/db/utils/cursor.ts:61-67 | `JSON.parse(JSON.stringify(v))` gives back `v` for every value whose numbers are integers and whose objects list keys in JavaScript's property order |
| Base64Url.Encode | packages/db/utils/cursor.ts:61 | unpadded base64url: `ceil(4n/3)` characters, all from the URL-safe alphabet |
| Base64Url.RoundTrip | packages/db/utils/cursor.ts:61-66 | Node's lenient base64url decoding of an encoding gives back the bytes |
| Utf8.RoundTrip | packages/db/utils/cursor.ts:61-66 | decoding the UTF-8 encoding of a string gives the string back |
| JsNumber.StringToNumberToString | packages/db/utils/cursor.ts:33-46 | `Number(String(n))` is `n` for every safe integer |
| JsDate.ToIsoString | packages/db/utils/cursor.ts:31-32 | `toISOString` succeeds iff the Date is valid, and writes 24 characters (27 for an extended year) |
| JsDate.ParseToIsoString | packages/db/utils/cursor.ts:31-44 | `new Date(d.toISOString())` is the same time value, to the millisecond |
| JsDate.TimeClip | packages/db/utils/cursor.ts:44 | a time is a valid Date iff its magnitude is at most 8.64e15 ms, and then keeps its value |
| JsValues.GetProperty | packages/db/utils/cursor.ts:70-71 | reading a property fails (TypeError) exactly on `null` and `undefined` |
| JsValues.Truthy | packages/db/utils/list-query.ts:212 | the falsy values are exactly undefined, null, false, 0, NaN and the empty string |
| ListQuery.Lookup | packages/db/utils/list-query.ts:93 | a sort name resolves to a column iff it is a key of `sortable` (never when `sortable` is missing) |
| ListQuery.IntMember | packages/db/utils/list-query.ts:42-48 | an absent number takes its default; a present one is accepted iff it is an integer within the bounds, and is never clamped |
| ListQuery.CursorMember | packages/db/utils/list-query.ts:43 | an absent or null cursor gives no cursor; a string is kept; anything else is rejected |
| ListQuery.ParsePagination | packages/db/utils/list-query.ts:38-54 | a missing pagination block is cursor mode with limit 30 and no cursor; every accepted block satisfies the bounds |
| ListQuery.ParseSortEntry | packages/db/utils/list-query.ts:56-60 | an accepted sort entry names a sortable column |
| ListQuery.ParseSort | packages/db/utils/list-query.ts:55-63 | a missing sort is `[]`; every accepted entry names a sortable column |
| ListQuery.ParseShape | packages/db/utils/list-query.ts:36-64 | every request the object schema accepts keeps the bounds and names sortable columns only; a non-object is rejected |
| ListQuery.ParseInput | packages/db/utils/list-query.ts:36-76 | every accepted request is valid (bounds, sortable columns, at most one sort in cursor mode); a non-object is rejected; a request is accepted iff the object schema accepts it and the refinement holds, and then unchanged |
| ListQuery.ParseShapeJson | packages/db/utils/list-query.ts:36-64 | every request of the schema's shape, written as JSON, is accepted as itself by the object schema |
| ListQuery.ParseInputJson | packages/db/utils/list-query.ts:36-76 | every valid request, written as JSON, is accepted as itself |
| ListQuery.SeveralCursorSortsRefused | packages/db/utils/list-query.ts:65-76 | a well-formed cursor request with two or more sort instructions is rejected by the refinement |
| ListQuery.DefaultInput | packages/db/utils/list-query.ts:51-54 | `{}` is cursor mode, limit 30, no cursor, empty sort |
| ListQuery.DefaultOffsetInput | packages/db/utils/list-query.ts:47-48 | offset mode without page or pageSize is page 1 of 30 |
| ListQuery.CursorLimitBounds | packages/db/utils/list-query.ts:42 | a cursor limit is accepted iff it is in [1, 128], and then kept |
| ListQuery.OffsetBounds | packages/db/utils/list-query.ts:47-48 | page and pageSize are accepted iff page ≥ 1 and pageSize is in [1, 128], and then kept |
| ListQuery.ResolveAll | packages/db/utils/list-query.ts:109-117 | resolving succeeds iff every sort names a sortable column, giving one order per sort in caller order; a failure names an unsortable column |
| ListQuery.CompileOrderBy | packages/db/utils/list-query.ts:83-130 | the ordering the push loop builds is the specified ordering or "Invalid sort column" |
| ListQuery.CursorOrdering | packages/db/utils/list-query.ts:89-106 | cursor mode: the active sort is the first input sort or the default, the ordering is exactly `[active column, id]` in its direction, and it is returned as `cursorSort`; it fails iff the active column is not sortable |
| ListQuery.OffsetOrdering | packages/db/utils/list-query.ts:109-129 | offset mode: every sort in caller order, then an id tie-breaker in the last sort's (or the default) direction unless a sort already names the id; no `cursorSort`; it fails iff some sort is unsortable |
| ListQuery.OrderingOutcome | packages/db/utils/list-query.ts:83-130 | the ordering fails only with "Invalid sort column" on a column that is not sortable; a cursor sort comes back exactly in cursor mode; a request of the schema's shape always compiles when the default sort is sortable |
| ListQuery.OrderingHasId | packages/db/utils/list-query.ts:99-127 | provided the id column's database name, if it is a sortable key, maps to the id column: every compiled ordering contains the id column, so it is total |
| ListQuery.CursorWhere | packages/db/utils/list-query.ts:132-164 | no predicate iff not in cursor mode or the cursor is null or empty; otherwise "Invalid sort column", the cursor's own decode error, or the seek predicate on the decoded value and id |
| ListQuery.SeekSelectsAfter | packages/db/utils/list-query.ts:153-163 | on rows whose cells are comparable with the boundary's, the seek predicate is never unknown, and is true iff the row comes strictly after the boundary row in `[column, id]` order |
| ListQuery.QueryShape | packages/db/utils/list-query.ts:166-190 | a compiled cursor query fetches one row more than the page, has no offset and has a seek clause iff there is a cursor; a compiled offset query fetches the page's window and has no seek clause |
| ListQuery.CursorQuery | packages/db/utils/list-query.ts:166-190 | a cursor-mode query has the compiled ordering, the seek predicate, limit `limit + 1` and no offset |
| ListQuery.BuildListQuery | packages/db/utils/list-query.ts:166-191 | the compile error, or: cursor mode with `limit + 1` and the seek predicate; offset mode with no predicate, `pageSize` and offset `(page - 1) * pageSize` |
| ListQuery.ComputeNextCursor | packages/db/utils/list-query.ts:193-220 | a cursor exists iff there is a cursor sort, a last row, and that row's sort value and id are truthy; it decodes to that value and id |
| ListQuery.NextCursorOfLast | packages/db/utils/list-query.ts:202 | the next cursor depends on the last row only |
| ListQuery.NextCursorBinds | packages/db/utils/list-query.ts:209-219 | the value and id a next cursor carries bind, in the next seek predicate, to the very cells of the row they came from |
| Sql.CompareCells | packages/db/utils/list-query.ts:155-162 | a comparison is unknown iff a cell is NULL or the two are of different types |
| Sql.AndOf | packages/db/utils/list-query.ts:178 | `and()` of the parts is undefined iff every part is undefined |
| Sql.HoldsAndOf | packages/api/router/pages.ts:34-38 | a row passes `and(...)` iff it passes every defined part |
| Sql.BeforeTransitive | packages/db/utils/list-query.ts:119-127 | the row order of an `ORDER BY` is transitive |
| Sql.BeforeTotal | packages/db/utils/list-query.ts:119-127 | two rows that differ on an ordered column are ordered one way or the other |
| Sql.SelectSortBy | packages/api/router/pages.ts:40-54 | filtering after sorting is sorting after filtering |
| Sql.SelectAfter | packages/api/router/pages.ts:40-54 | in a sorted list without ties, a filter true exactly after row m keeps exactly the rows after m |
| Sql.Fetch | packages/api/router/pages.ts:40-54 | the query returns at most `limit` rows: the filtered, sorted rows from `offset` on |
| PagesList.PagesConfigKeys | packages/api/router/pages.ts:14-22 | the pages are sortable by id, title and createdAt; the id and the default sort are among them |
| PagesList.PagesOrderingHasId | packages/api/router/pages.ts:14-22 | every ordering compiled for pages contains the primary key column |
| PagesList.ParseFilters | packages/api/router/pages.ts:28 | filters are optional, and a `published` value is the boolean the request gave |
| PagesList.ParsePagesInput | packages/api/router/pages.ts:26-30 | the pages input is what the list object schema accepts, without its refinement, plus the optional filters; it is rejected iff the object schema or the filters reject it |
| PagesList.ParsePagesInputIntended | packages/api/router/pages.ts:26-30 | with the refinement kept, every accepted pages input is valid, at most one sort in cursor mode included |
| PagesList.PagesSchemasDiffer | packages/api/router/pages.ts:26-30 | the two schemas disagree only on a cursor request with more than one sort, which only the written one accepts |
| PagesList.SeveralCursorSortsAccepted | packages/api/router/pages.ts:26-32 | as written, a cursor request with two sorts is accepted though the list schema rejects it, and it is ordered by the first sort only |
| PagesList.PublishedFilter | packages/api/router/pages.ts:36 | the published filter is present iff `published` is true |
| PagesList.PagesWhereHolds | packages/api/router/pages.ts:34-38 | a row matches iff it is not soft-deleted, it is published when `published` is true, and it passes the seek predicate |
| PagesList.Project | packages/api/router/pages.ts:41-49 | each returned record carries the row's id, title and creation time |
| PagesList.CeilDiv | packages/api/router/pages.ts:80 | the page count is the fewest pages of `pageSize` rows that hold all the rows |
| PagesList.CursorResponse | packages/api/router/pages.ts:56-68 | `hasNextPage` iff a row beyond `limit` was fetched; the data are the first `limit` rows fetched; `nextCursor` is computed from the data shown |
| PagesList.OffsetResponse | packages/api/router/pages.ts:74-84 | the data are the fetched rows; page and pageSize are echoed, the total reported, and the page count is the fewest pages that hold the total |
| PagesList.List | packages/api/router/pages.ts:31-85 | the handler answers with the compile error, or with the response to the compiled query |
| PagesList.CursorPageWindow | packages/api/router/pages.ts:56-68 | cursor mode returns the first `limit` matching rows in query order; `hasNextPage` iff more rows match; `nextCursor` comes from the returned rows whether or not `hasNextPage` holds |
| PagesList.OffsetPageWindow | packages/api/router/pages.ts:71-84 | offset mode returns the `pageSize` rows from `(page - 1) * pageSize`, echoes page and pageSize, and reports the total and `ceil(total / pageSize)` |
| PagesList.NextCursorFor | packages/api/router/pages.ts:65 | a page of stored pages rows always has a next cursor, the last page included, and it names the page's last row |
| PagesList.SeekAfterRow | packages/api/router/pages.ts:34-38 | the seek predicate built from a row's cursor matches exactly the rows after it in walk order |
| PagesList.VisibleRowsAfter | packages/api/router/pages.ts:34-54 | the rows the query returns after the j-th row are exactly the visible rows from position j on |
| PagesList.WalkRowsFacts | packages/api/router/pages.ts:34-54 | the visible rows in walk order are sorted, have no ties and are stored rows |
| PagesList.PageFrom | packages/api/router/pages.ts:31-69 | a request whose cursor leads to position j is answered with page j: the next `limit` rows, whether any remain, and a cursor past them |
| PagesList.WalkVisitsAll | packages/api/router/pages.ts:31-69 | with at most one sort, unique ids, and every row having a non-empty text id, a non-empty title and a timestamp `created_at`, following `nextCursor` while `hasNextPage` visits every visible row exactly once, in order |
| PagesList.HandlerAnswers | packages/api/router/pages.ts:31-69 | the handler answers every cursor of a walk with the right page |
| JsonCursor.Encode | packages/api/lib/cursor.ts:5-8 | a flat record of string, number, boolean or null values encodes to a non-empty token in the URL-safe alphabet |
| JsonCursor.Decode | packages/api/lib/cursor.ts:10-17 | decoding fails, with the one `Invalid cursor` error, exactly when the token's text is not JSON, and otherwise gives the parsed value |
| JsonCursor.RoundTrip | packages/api/lib/cursor.ts:5-17 | a record of strings, booleans, nulls and integers decodes back to itself |
| JsonCursor.NaNBecomesNull | packages/api/lib/cursor.ts:6 | a NaN property comes back as `null` |
| JsonCursor.AnyShape | packages/api/lib/cursor.ts:12-13 | there is no shape check: a token carrying any JSON value, an array or a bare number included, decodes to it |
| JsonCursor.EmptyTokenInvalid | packages/api/lib/cursor.ts:11-16 | the empty token is an invalid cursor |
| Pagination.Range | packages/ui/components/pagination.tsx:131-134 | `range(s, e)` is `s, s+1, ..., e`, and empty when `e < s` |
| Pagination.StartPages | packages/ui/components/pagination.tsx:136 | the start pages are `1, 2, ...`, `min(boundary, count)` of them (none when that is not positive) |
| Pagination.EndPages | packages/ui/components/pagination.tsx:137 | the end pages run up to `count`, `min(boundary, count - boundary)` of them, and none is among the first `boundary` pages |
| Pagination.SiblingsStart | packages/ui/components/pagination.tsx:140-143 | the sibling window starts no earlier than `boundary + 2`, and at `page - siblings` when a whole window fits there |
| Pagination.SiblingsEnd | packages/ui/components/pagination.tsx:145-148 | the sibling window ends before the last page and before the end pages, and at `page + siblings` when a whole window fits there |
| Pagination.LeftGap | packages/ui/components/pagination.tsx:154-158 | an ellipsis exactly when two or more pages lie between the start pages and the window; otherwise the lone page `boundary + 1`, or nothing |
| Pagination.RightGap | packages/ui/components/pagination.tsx:162-166 | an ellipsis exactly when two or more pages lie between the window and the end pages; otherwise the lone page `count - boundary`, or nothing |
| Pagination.Items | packages/ui/components/pagination.tsx:150-168 | the item list opens with the start-page buttons and closes with the end-page buttons |
| Pagination.PaginationHook.constructor | packages/ui/components/pagination.tsx:106-116 | the page state starts at `defaultPage`, or 0 |
| Pagination.PaginationHook.Render | packages/ui/components/pagination.tsx:106-117 | a render takes the new props and keeps the page state |
| Pagination.PaginationHook.HandleChange | packages/ui/components/pagination.tsx:120-129 | an out-of-range target changes nothing and notifies no one; an in-range one notifies the zero-based page, and moves the page state only when uncontrolled; a controlled page never moves |
| Pagination.PaginationHook.ItemList | packages/ui/components/pagination.tsx:136-168 | the pushed item list is the specified list for the current props and page, and has the pager layout |
| Pagination.BuildItems | packages/ui/components/pagination.tsx:150-168 | the push sequence builds start pages, left gap, sibling window, right gap and end pages, and the result has the pager layout |
| Pagination.FewPages | packages/ui/components/pagination.tsx:136-168 | for `boundaryCount >= 1` and `siblingCount >= 0`, with fewer pages than the full width, the list is every page `1..count` and has no ellipsis |
| Pagination.ManyPages | packages/ui/components/pagination.tsx:136-168 | for `boundaryCount >= 1` and `siblingCount >= 0`, with at least the full width, the list is the boundary pages, a gap, a window of `2s+1` pages clamped between the gaps, a gap, and the boundary pages |
| Pagination.Width | packages/ui/components/pagination.tsx:136-168 | for `boundaryCount >= 1` and `siblingCount >= 0`, the list has `min(count, 2b + 2s + 3)` items (none when count ≤ 0) |
| Pagination.ItemsLayout | packages/ui/components/pagination.tsx:136-168 | for `boundaryCount >= 1` and `siblingCount >= 0`, the pages are strictly increasing and in `1..count`, consecutive pages never skip one, each ellipsis hides at least two pages, and the first and last pages are shown |
| Pagination.SiblingsShown | packages/ui/components/pagination.tsx:140-148 | for `boundaryCount >= 1`, `siblingCount >= 0` and a current page in `1..count`, every page within `siblingCount` of it is shown |
| Pagination.OneActive | packages/ui/components/pagination.tsx:210-215 | for `boundaryCount >= 1`, `siblingCount >= 0` and a current page in `1..count`, the current page is shown exactly once, so exactly one button is active |
| Pagination.PageClickAccepted | packages/ui/components/pagination.tsx:210-215 | for `boundaryCount >= 1` and `siblingCount >= 0`, clicking any page button is a change `handleChange` accepts |
| Pagination.PrevDisabledIffIgnored | packages/ui/components/pagination.tsx:205-207 | Previous is disabled exactly when its click would be ignored |
| Pagination.NextDisabledIffIgnored | packages/ui/components/pagination.tsx:222-225 | for a page in range, Next is disabled exactly when its click would be ignored |
| Pagination.NextEnabledOnEmptyPager | packages/ui/components/pagination.tsx:223 | with no pages, Next is enabled yet its click is ignored |
| Pagination.NoNextPageIffIgnored | packages/ui/components/pagination.tsx:222-225 | "no next page" (`page ≥ count - 1`) holds exactly when a Next click would be ignored, and agrees with the source's test whenever the page is in range |
| Slugify.StripMarks | apps/web/lib/utils.ts:4 | no combining mark U+0300 to U+036F survives |
| Slugify.SplitCapitals | apps/web/lib/utils.ts:5 | one hyphen is added for each ASCII capital, and nothing else changes the length |
| Slugify.Lower | apps/web/lib/utils.ts:6 | lower-casing keeps the length and maps each character on its own |
| Slugify.Collapse | apps/web/lib/utils.ts:7 | collapsing never lengthens the text, and empties only the empty text |
| Slugify.TrimStart | apps/web/lib/utils.ts:8 | only leading hyphens are dropped, and the rest does not start with one |
| Slugify.TrimEnd | apps/web/lib/utils.ts:8 | only trailing hyphens are dropped, and the rest does not end with one |
| Slugify.LowerChar | apps/web/lib/utils.ts:6 | lower-casing yields a letter or digit iff the character was a lower-case letter, a digit or a capital |
| Slugify.Slugify | apps/web/lib/utils.ts:1-9 | the output uses only `[a-z0-9-]`, has no leading or trailing hyphen, and never two hyphens in a row |
| Slugify.CollapseShape | apps/web/lib/utils.ts:7 | after collapsing, only `[a-z0-9-]` remain and every hyphen is followed by a letter or digit |
| Slugify.TrimShape | apps/web/lib/utils.ts:8 | trimming a collapsed text leaves no hyphen at either end |
| Slugify.FixedPoints | apps/web/lib/utils.ts:1-9 | the texts `slugify` leaves unchanged are exactly the slugs |
| Slugify.Idempotent | apps/web/lib/utils.ts:1-9 | `slugify(slugify(s)) == slugify(s)` |
| Slugify.CapitalStartsWord | apps/web/lib/utils.ts:5-6 | a capital after a lower-case word starts a new hyphen-separated word |
| Slugify.TitleWords | apps/web/lib/utils.ts:5-8 | two capitalised words become two lower-case words joined by one hyphen ("HelloWorld" → "hello-world") |
| Slugify.MarksIgnored | apps/web/lib/utils.ts:3-4 | a combining mark anywhere in the decomposed text does not change the slug |
| Proxy.Split | apps/web/proxy.ts:15 | `split("/")` yields at least one part, and no part contains "/" |
| Proxy.LastSegment | apps/web/proxy.ts:15 | the last non-empty segment, when there is one, is non-empty |
| Proxy.InvitationId | apps/web/proxy.ts:15-16 | the intended invitation id: present only when a segment follows `invitation`, and then the same non-empty last segment the source takes |
| Proxy.CookieStore.Get | apps/web/proxy.ts:33 | a cookie is found iff it is set, with its stored value |
| Proxy.CookieStore.Set | apps/web/proxy.ts:18 | setting a cookie replaces that one cookie and keeps the others |
| Proxy.CookieStore.Delete | apps/web/proxy.ts:35 | deleting a cookie removes that one cookie and keeps the others |
| Proxy.Decide | apps/web/proxy.ts:13-51 | a signed-out request is always sent to `/sign-in`; a request let through changes no cookie; no cookie but the redirect cookie is ever changed |
| Proxy.DecideIntended | apps/web/proxy.ts:13-51 | the decision with the intended invitation id keeps the same three guarantees |
| Proxy.HandleRequest | apps/web/proxy.ts:5-52 | the response and the cookies left in the store are the proxy's decision for the path, the session and the cookies before |
| Proxy.InvitationPathHasSegment | apps/web/proxy.ts:13-15 | every path starting with `/invitation` has a last segment |
| Proxy.InvitationSignedOut | apps/web/proxy.ts:13-23 | a signed-out invitation path is a 302 to `/sign-in`, and the redirect cookie is always set to `/invitation/<last segment>` for 3600 seconds; no other cookie changes |
| Proxy.InvitationSignedIn | apps/web/proxy.ts:24 | a signed-in invitation path passes through without touching the cookies or checking the organisation |
| Proxy.SignedOut | apps/web/proxy.ts:27-31 | any other signed-out path is a 302 to `/sign-in`, cookies unchanged |
| Proxy.PendingRedirect | apps/web/proxy.ts:33-39 | signed in with a non-empty redirect cookie: the cookie is deleted and the response is a 302 to its value, before any organisation check |
| Proxy.OrganizationRule | apps/web/proxy.ts:41-51 | otherwise `/select-organization` and sessions with an active organisation pass, and the rest get a 302 to `/select-organization` |
| Proxy.InvitationTestOnMatchedPaths | apps/web/proxy.ts:54-56 | on the paths the matcher admits, "starts with /invitation" means exactly "is `/invitation` or under it" |
| Proxy.TwoSegments | apps/web/proxy.ts:15 | `/w/id` splits into the non-empty segments `w` and `id` |
| Proxy.BareInvitationAsWritten | apps/web/proxy.ts:15-18 | as written, the bare path `/invitation` yields the segment "invitation" as its invitation id, and a signed-out request for it sets the redirect cookie to `/invitation/invitation` for 3600 seconds |
| Proxy.BareInvitationId | apps/web/proxy.ts:15-18 | the bare path `/invitation` has no intended invitation id |
| Proxy.IntendedBareInvitation | apps/web/proxy.ts:15-18 | as intended, a signed-out request for `/invitation` goes to `/sign-in` with the cookies untouched |
| Proxy.InvitationIdOfPath | apps/web/proxy.ts:15-17 | `/invitation/<id>` has intended invitation id `<id>`, the same as the source's last segment |
| Proxy.AsWrittenDiffersOnlyOnBarePath | apps/web/proxy.ts:13-23 | the written and the intended decisions differ only on a signed-out invitation path with one segment, where the written one sets the cookie to that segment and the intended one sets nothing |
| TimestampPrecision.Millis | packages/db/utils/cursor.ts:30-31 | the cursor keeps the millisecond a stored microsecond time falls in |
| TimestampPrecision.AscendingRepeatsBoundary | packages/db/utils/list-query.ts:160-163 | ascending, a boundary row stored with a sub-millisecond part matches the seek after its own cursor, though it is not after itself; the seek is `SeekAsWritten`, a stand-alone rendering of `ListQuery.Seek` over integer microseconds, because `Sql` cells hold milliseconds |
| TimestampPrecision.DescendingSkipsSameMillisecond | packages/db/utils/list-query.ts:153-157 | descending, a row stored before the boundary but within its millisecond comes after the boundary, yet the seek leaves it out; the seek is the same stand-alone `SeekAsWritten` |
| TimestampPrecision.SeekExactAtMillisecondPrecision | packages/db/helpers.ts:8 | with times stored to the millisecond, the seek matches exactly the rows after the boundary, in either direction |

## Left out

- Database I/O: `findMany` and the count query are the `Sql` module's `Fetch` and `Select`. The `get`, `create`, `update` and `delete` handlers of the pages router, and the oRPC middleware, are not part of this model.
- The SQL collation is taken to be code-point order for text. In the `Sql` module, timestamps are stored and compared at millisecond precision. The microsecond column that `packages/db/helpers.ts:8` declares is modelled only by `TimestampPrecision`, for the seek on one row.
- PagesList.WalkVisitsAll: holds for a `created_at` column stored to the millisecond. On the microsecond `timestamp` column the schema declares, an ascending walk can repeat a boundary row, and a descending walk can skip rows, as the second finding below shows.
- Sql.CompareCells: a comparison of values of different types is UNKNOWN. PostgreSQL would cast the parameter to the column's type, or raise an error, and neither is modelled. The seek lemmas assume cells of the boundary's types.
- PagesList.ParsePagesInput: models zod 4.0, where `extend` keeps the object schema and drops its refinement. From zod 4.1, `extend` on a refined object schema throws when the router module loads, so `pages.list` is never built. That failure is not modelled, because the zod version is not part of the model.
- TypedCursor.RoundTrip: number values are safe integers only. Fractional and non-finite doubles are not modelled, because `String`/`Number` on doubles is floating point.
- JsonCursor.RoundTrip: numbers are integers or NaN. Other doubles sit in an explicit unmodelled bucket. NaN comes back as `null`, as `JsonCursor.NaNBecomesNull` states.
- Neither codec is claimed to reject a tampered token: base64url decoding is lenient.
- Strings are sequences of Unicode scalar values. A lone surrogate, for example a `"\uD800"` escape, is not modelled, and its parse is a failure.
- Slugify.Slugify: the input is taken after `normalize("NFD")`, which is a Unicode table lookup. `toLowerCase` maps ASCII capitals only. After decomposition no other character lower-cases to `[a-z0-9]`, so the slug does not depend on the rest.
- ListQuery.ParseInput: rejection is one `ValidationError` value. zod's issue codes, messages and paths are not modelled.
- PagesList.WalkVisitsAll: the rows are assumed to have a non-empty text id, a non-empty title and a timestamp `created_at`, unique ids, and at most one sort. The `title` column is only `notNull()`, and the non-empty rule guards only the create path. A page sorted by title whose last row has the title `""` gets `nextCursor: null` while `hasNextPage` is true, because `ListQuery.ComputeNextCursor` tests the value's truthiness, so such a walk stops early. That case is outside the lemma.
- PagesList.WalkVisitsAll: the walk is bounded by `|db| + 1` requests, and the database does not change during it. Rows inserted between requests are not modelled.
- Pagination.ItemsLayout: the layout lemmas (`FewPages`, `ManyPages`, `Width`, `ItemsLayout`, `SiblingsShown`, `OneActive`, `PageClickAccepted`) hold only for `boundaryCount >= 1` and `siblingCount >= 0`, and `SiblingsShown` and `OneActive` also only for a current page in `1..count`. The component accepts any integer for these props and does not clamp a controlled `page`. With `boundaryCount` 0 the first and last pages are not shown, and a controlled page beyond `count` is not in the list. `Items` itself is defined for every input.
- Pagination: the props are integers. Fractional or NaN counts are not modelled.
- Pagination.PaginationHook.HandleChange: the `onChange` call is returned as the notified page instead of invoking a callback.
- React rendering, the items' `key` strings and `className` are not modelled.
- Proxy: the session fetch and the Next.js request and response objects are parameters. A redirect target is kept as the path string, not resolved against `request.url`. The route matcher is modelled only as far as `/invitation` is concerned.

## Findings

| source | as written | input that shows it | evidently intended | confidence | as-written member | corrected member |
|---|---|---|---|---|---|---|
| apps/web/proxy.ts:15-18 | the invitation id is the last non-empty path segment, whatever it is | a signed-out request for `/invitation` sets the redirect cookie to `/invitation/invitation` | only a segment after `/invitation/` is an invitation id, and the bare path sets no cookie | medium, not executed | Proxy.BareInvitationAsWritten, Proxy.AsWrittenDiffersOnlyOnBarePath | Proxy.DecideIntended, Proxy.IntendedBareInvitation, Proxy.InvitationIdOfPath |
| packages/db/helpers.ts:8 | `created_at` is a `timestamp` stored to the microsecond, while the cursor keeps its millisecond (`packages/db/utils/cursor.ts:30-31`) | ascending by `createdAt` with limit 1, when the first row is stored at `…123456` µs, every page shows that row again; descending, a row at `…123200` µs after a boundary at `…123456` µs is never shown | the seek matches exactly the rows after the boundary, as with a column stored to the millisecond | medium, not executed | TimestampPrecision.AscendingRepeatsBoundary, TimestampPrecision.DescendingSkipsSameMillisecond | TimestampPrecision.SeekExactAtMillisecondPrecision, ListQuery.SeekSelectsAfter |
| packages/api/router/pages.ts:27 | the pages input schema is `listQuerySchema(listConfig).extend(...)`; zod 4.0's `extend` drops the list schema's refinement | a cursor request with `sort` of two entries is accepted, and is ordered and paged by the first only | cursor mode with several sorts is refused, as `packages/db/utils/list-query.ts:65-76` requires | medium (zod 4.1 and later throw at load instead), not executed | PagesList.ParsePagesInput, PagesList.SeveralCursorSortsAccepted | PagesList.ParsePagesInputIntended, PagesList.PagesSchemasDiffer |
| packages/ui/components/pagination.tsx:223 | Next is disabled only when `page === count - 1` | `count = 0`, `page = 0`: Next is enabled but its click is ignored | Next is disabled whenever there is no next page (`page >= count - 1`) | medium, not executed | Pagination.NextEnabledOnEmptyPager | Pagination.NoNextPageIffIgnored |
