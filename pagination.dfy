/**
  The pager of the UI kit: `usePagination` turns a page count, the current
  page and two widths into the list of buttons to show (page numbers and
  ellipses), and keeps the current page for an uncontrolled pager. Pages are
  zero-based inside the hook and one-based on the buttons.
 */
module Pagination {
  import opened Wrappers

  /** One entry of `itemList`: a page button (one-based) or an ellipsis. */
  datatype Item = PageItem(n: int) | Ellipsis

  function Min(a: int, b: int): int { if a <= b then a else b }
  function Max(a: int, b: int): int { if a >= b then a else b }

  /** `range(start, end)`: `start`, `start + 1`, ..., `end`; empty when `end < start`. */
  function Range(start: int, end: int): (r: seq<int>)
    ensures |r| == if end < start then 0 else end - start + 1
    ensures forall i :: 0 <= i < |r| ==> r[i] == start + i
  {
    seq(if end < start then 0 else end - start + 1, i => start + i)
  }

  /** Page buttons for the numbers in `r`. */
  function Pages(r: seq<int>): (items: seq<Item>)
    ensures |items| == |r|
    ensures forall i :: 0 <= i < |r| ==> items[i] == PageItem(r[i])
  {
    seq(|r|, i requires 0 <= i < |r| => PageItem(r[i]))
  }

  /* ---------------- The item list ---------------- */

  /** The first pages: `1`, `2`, ... up to `boundary` of them, and no more than there are. */
  function StartPages(count: int, boundary: int): (r: seq<int>)
    ensures |r| == Max(0, Min(boundary, count))
    ensures forall i :: 0 <= i < |r| ==> r[i] == i + 1
  {
    Range(1, Min(boundary, count))
  }

  /** The last pages, ending at `count`: up to `boundary` of them, none among the first `boundary`. */
  function EndPages(count: int, boundary: int): (r: seq<int>)
    ensures boundary >= 0 ==> |r| == Max(0, Min(boundary, count - boundary))
    ensures forall i :: 0 <= i < |r| ==> r[i] == count - |r| + 1 + i && r[i] > boundary
  {
    Range(Max(count - boundary + 1, boundary + 1), count)
  }

  /**
    The first page of the sibling window: never before `boundary + 2`, so a
    gap is left after the first pages, and `siblings` pages before the
    current one when there is room for a whole window.
   */
  function SiblingsStart(count: int, boundary: int, siblings: int, displayPage: int): (r: int)
    ensures r >= boundary + 2
    ensures boundary + 2 <= displayPage - siblings <= count - boundary - siblings * 2 - 1 ==> r == displayPage - siblings
  {
    Max(Min(displayPage - siblings, count - boundary - siblings * 2 - 1), boundary + 2)
  }

  /**
    The last page of the sibling window: never the last page, never within
    one of the last pages, and `siblings` pages after the current one when
    there is room for a whole window.
   */
  function SiblingsEnd(count: int, boundary: int, siblings: int, displayPage: int): (r: int)
    ensures r <= count - 1
    ensures boundary >= 0 && count - boundary > boundary ==> r <= count - boundary - 1
    ensures boundary >= 0 && boundary + siblings * 2 + 2 <= displayPage + siblings <= count - boundary - 1 ==> r == displayPage + siblings
  {
    var endPages := EndPages(count, boundary);
    Min(Max(displayPage + siblings, boundary + siblings * 2 + 2),
        if |endPages| > 0 then endPages[0] - 2 else count - 1)
  }

  /**
    What stands between the first pages and the sibling window: an ellipsis
    exactly when two or more pages lie between them, a lone page in between
    shown as its own button, or nothing.
   */
  function LeftGap(count: int, boundary: int, siblings: int, displayPage: int): (r: seq<Item>)
    ensures r == [Ellipsis] <==> SiblingsStart(count, boundary, siblings, displayPage) >= boundary + 3
    ensures r == [] || r == [Ellipsis] || r == [PageItem(boundary + 1)]
    ensures r == [PageItem(boundary + 1)] ==> SiblingsStart(count, boundary, siblings, displayPage) == boundary + 2
  {
    if SiblingsStart(count, boundary, siblings, displayPage) > boundary + 2 then [Ellipsis]
    else if boundary + 1 < count - boundary then [PageItem(boundary + 1)]
    else []
  }

  /**
    What stands between the sibling window and the last pages: an ellipsis
    exactly when two or more pages lie between them, a lone page in between
    shown as its own button, or nothing.
   */
  function RightGap(count: int, boundary: int, siblings: int, displayPage: int): (r: seq<Item>)
    ensures r == [Ellipsis] <==> SiblingsEnd(count, boundary, siblings, displayPage) <= count - boundary - 2
    ensures r == [] || r == [Ellipsis] || r == [PageItem(count - boundary)]
    ensures boundary >= 0 && r == [PageItem(count - boundary)] ==> SiblingsEnd(count, boundary, siblings, displayPage) == count - boundary - 1
  {
    if SiblingsEnd(count, boundary, siblings, displayPage) < count - boundary - 1 then [Ellipsis]
    else if count - boundary > boundary then [PageItem(count - boundary)]
    else []
  }

  /**
    `itemList` for a pager of `count` pages showing one-based page
    `displayPage`: it opens with the first pages and closes with the last.
   */
  function Items(count: int, boundary: int, siblings: int, displayPage: int): (r: seq<Item>)
    ensures var first := StartPages(count, boundary);
      |first| <= |r| && r[..|first|] == Pages(first)
    ensures var last := EndPages(count, boundary);
      |last| <= |r| && r[|r| - |last|..] == Pages(last)
  {
    Pages(StartPages(count, boundary))
    + LeftGap(count, boundary, siblings, displayPage)
    + Pages(Range(SiblingsStart(count, boundary, siblings, displayPage), SiblingsEnd(count, boundary, siblings, displayPage)))
    + RightGap(count, boundary, siblings, displayPage)
    + Pages(EndPages(count, boundary))
  }

  /** The width of a full pager: both boundaries, both gaps and the sibling window. */
  function FullWidth(boundary: int, siblings: int): int
  {
    2 * boundary + 2 * siblings + 3
  }

  /** `v` moved into `[lo, hi]`. */
  function Clamp(v: int, lo: int, hi: int): (r: int)
    requires lo <= hi
    ensures lo <= r <= hi
    ensures lo <= v <= hi ==> r == v
  {
    Min(Max(v, lo), hi)
  }

  /* ---------------- Layout properties ---------------- */

  /** Page numbers rise from left to right, so no page is shown twice. */
  predicate Increasing(items: seq<Item>)
  {
    forall i, j :: 0 <= i < j < |items| && items[i].PageItem? && items[j].PageItem? ==> items[i].n < items[j].n
  }

  /** Every page shown exists. */
  predicate InRange(items: seq<Item>, count: int)
  {
    forall i :: 0 <= i < |items| && items[i].PageItem? ==> 1 <= items[i].n <= count
  }

  /** Two neighbouring page buttons are consecutive pages. */
  predicate NoSkips(items: seq<Item>)
  {
    forall i :: 0 <= i < |items| - 1 && items[i].PageItem? && items[i + 1].PageItem? ==> items[i + 1].n == items[i].n + 1
  }

  /** An ellipsis sits between two page buttons and stands for at least two pages. */
  predicate EllipsesHideTwo(items: seq<Item>)
  {
    forall i :: 0 <= i < |items| && items[i].Ellipsis? ==>
      0 < i < |items| - 1 && items[i - 1].PageItem? && items[i + 1].PageItem? && items[i + 1].n >= items[i - 1].n + 3
  }

  /** The first and the last page are always shown; no page at all when there is none. */
  predicate Ends(items: seq<Item>, count: int)
  {
    if count <= 0 then items == []
    else |items| > 0 && items[0] == PageItem(1) && items[|items| - 1] == PageItem(count)
  }

  predicate Layout(items: seq<Item>, count: int)
  {
    Increasing(items) && InRange(items, count) && NoSkips(items) && EllipsesHideTwo(items) && Ends(items, count)
  }

  lemma PagesJoin(a: int, m: int, e: int)
    requires a - 1 <= m <= e
    ensures Pages(Range(a, m)) + Pages(Range(m + 1, e)) == Pages(Range(a, e))
  {
  }

  /** With few pages every page is shown and there is no ellipsis. */
  lemma FewPages(count: int, boundary: int, siblings: int, displayPage: int)
    requires boundary >= 1 && siblings >= 0 && count < FullWidth(boundary, siblings)
    ensures Items(count, boundary, siblings, displayPage) == Pages(Range(1, count))
  {
    if count <= boundary {
      NoEndPages(count, boundary, siblings, displayPage);
    } else if count <= 2 * boundary {
      NoMiddle(count, boundary, siblings, displayPage);
    } else {
      FullMiddle(count, boundary, siblings, displayPage);
    }
  }

  lemma NoEndPages(count: int, boundary: int, siblings: int, displayPage: int)
    requires boundary >= 1 && siblings >= 0 && count <= boundary
    ensures Items(count, boundary, siblings, displayPage) == Pages(Range(1, count))
  {
    assert EndPages(count, boundary) == [];
    assert StartPages(count, boundary) == Range(1, count);
    assert SiblingsStart(count, boundary, siblings, displayPage) == boundary + 2;
    assert SiblingsEnd(count, boundary, siblings, displayPage) == count - 1;
    assert Range(boundary + 2, count - 1) == [];
    assert LeftGap(count, boundary, siblings, displayPage) == [];
    assert RightGap(count, boundary, siblings, displayPage) == [];
    var first := Pages(Range(1, count));
    assert Items(count, boundary, siblings, displayPage) == first + [] + Pages([]) + [] + Pages([]);
    assert first + [] + Pages([]) + [] + Pages([]) == first;
  }

  lemma NoMiddle(count: int, boundary: int, siblings: int, displayPage: int)
    requires boundary >= 1 && siblings >= 0 && boundary < count <= 2 * boundary
    ensures Items(count, boundary, siblings, displayPage) == Pages(Range(1, count))
  {
    assert EndPages(count, boundary) == Range(boundary + 1, count);
    assert SiblingsStart(count, boundary, siblings, displayPage) == boundary + 2;
    assert SiblingsEnd(count, boundary, siblings, displayPage) == boundary - 1;
    assert LeftGap(count, boundary, siblings, displayPage) == [];
    assert RightGap(count, boundary, siblings, displayPage) == [];
    PagesJoin(1, boundary, count);
  }

  lemma FullMiddle(count: int, boundary: int, siblings: int, displayPage: int)
    requires boundary >= 1 && siblings >= 0 && 2 * boundary < count < FullWidth(boundary, siblings)
    ensures Items(count, boundary, siblings, displayPage) == Pages(Range(1, count))
  {
    var se := SiblingsEnd(count, boundary, siblings, displayPage);
    assert EndPages(count, boundary) == Range(count - boundary + 1, count);
    assert SiblingsStart(count, boundary, siblings, displayPage) == boundary + 2;
    assert se == count - boundary - 1;
    assert RightGap(count, boundary, siblings, displayPage) == Pages(Range(count - boundary, count - boundary));
    if count == 2 * boundary + 1 {
      OneMiddlePage(count, boundary, siblings, displayPage);
    } else {
      SeveralMiddlePages(count, boundary, siblings, displayPage);
    }
  }

  lemma OneMiddlePage(count: int, boundary: int, siblings: int, displayPage: int)
    requires boundary >= 1 && siblings >= 0 && count == 2 * boundary + 1
    requires SiblingsStart(count, boundary, siblings, displayPage) == boundary + 2
    requires SiblingsEnd(count, boundary, siblings, displayPage) == boundary
    requires EndPages(count, boundary) == Range(boundary + 2, count)
    requires RightGap(count, boundary, siblings, displayPage) == Pages(Range(boundary + 1, boundary + 1))
    ensures Items(count, boundary, siblings, displayPage) == Pages(Range(1, count))
  {
    assert LeftGap(count, boundary, siblings, displayPage) == [];
    assert Range(boundary + 2, boundary) == [];
    PagesJoin(1, boundary, boundary + 1);
    PagesJoin(1, boundary + 1, count);
  }

  lemma SeveralMiddlePages(count: int, boundary: int, siblings: int, displayPage: int)
    requires boundary >= 1 && siblings >= 0 && count >= 2 * boundary + 2
    requires SiblingsStart(count, boundary, siblings, displayPage) == boundary + 2
    requires SiblingsEnd(count, boundary, siblings, displayPage) == count - boundary - 1
    requires EndPages(count, boundary) == Range(count - boundary + 1, count)
    requires RightGap(count, boundary, siblings, displayPage) == Pages(Range(count - boundary, count - boundary))
    ensures Items(count, boundary, siblings, displayPage) == Pages(Range(1, count))
  {
    assert LeftGap(count, boundary, siblings, displayPage) == Pages(Range(boundary + 1, boundary + 1));
    PagesJoin(1, boundary, boundary + 1);
    PagesJoin(1, boundary + 1, count - boundary - 1);
    PagesJoin(1, count - boundary - 1, count - boundary);
    PagesJoin(1, count - boundary, count);
  }

  /** Where the sibling window of a full pager starts. */
  function WindowStart(count: int, boundary: int, siblings: int, displayPage: int): int
    requires boundary >= 1 && siblings >= 0 && count >= FullWidth(boundary, siblings)
  {
    Clamp(displayPage - siblings, boundary + 2, count - boundary - 2 * siblings - 1)
  }

  /**
    Position `i` of a full pager whose window starts at page `w`: the first
    `boundary` pages, a gap, `2 * siblings + 1` window pages, a gap, the last
    `boundary` pages. A gap is an ellipsis unless it would stand for one page
    only, and then it is that page.
   */
  function Slot(count: int, boundary: int, siblings: int, w: int, i: int): Item
  {
    var r := boundary + 2 * siblings + 2;
    if i < boundary then PageItem(i + 1)
    else if i == boundary then (if w == boundary + 2 then PageItem(boundary + 1) else Ellipsis)
    else if i < r then PageItem(w + i - boundary - 1)
    else if i == r then (if w + 2 * siblings == count - boundary - 1 then PageItem(count - boundary) else Ellipsis)
    else PageItem(count - boundary + i - r)
  }

  function FullPager(count: int, boundary: int, siblings: int, w: int): (items: seq<Item>)
    requires boundary >= 1 && siblings >= 0
    ensures |items| == FullWidth(boundary, siblings)
    ensures forall i :: 0 <= i < |items| ==> items[i] == Slot(count, boundary, siblings, w, i)
  {
    seq(FullWidth(boundary, siblings), i => Slot(count, boundary, siblings, w, i))
  }

  /**
    With many pages the pager is always the full width, its sibling window
    of `2 * siblings + 1` pages centred on the current page and moved inwards
    near either end.
   */
  lemma ManyPages(count: int, boundary: int, siblings: int, displayPage: int)
    requires boundary >= 1 && siblings >= 0 && count >= FullWidth(boundary, siblings)
    ensures Items(count, boundary, siblings, displayPage)
      == FullPager(count, boundary, siblings, WindowStart(count, boundary, siblings, displayPage))
  {
    var w := WindowStart(count, boundary, siblings, displayPage);
    var r := boundary + 2 * siblings + 2;
    assert SiblingsStart(count, boundary, siblings, displayPage) == w;
    assert EndPages(count, boundary) == Range(count - boundary + 1, count);
    assert SiblingsEnd(count, boundary, siblings, displayPage) == w + 2 * siblings;
    var items := Items(count, boundary, siblings, displayPage);
    var pager := FullPager(count, boundary, siblings, w);
    assert |items| == |pager|;
    forall i | 0 <= i < |items|
      ensures items[i] == pager[i]
    {
      if i < boundary {
      } else if i == boundary {
      } else if i < r {
      } else if i == r {
      } else {
      }
    }
  }

  /** `itemList` never holds more than the full width, and holds every page when there are fewer. */
  lemma Width(count: int, boundary: int, siblings: int, displayPage: int)
    requires boundary >= 1 && siblings >= 0
    ensures |Items(count, boundary, siblings, displayPage)| == Max(0, Min(count, FullWidth(boundary, siblings)))
  {
    if count < FullWidth(boundary, siblings) {
      FewPages(count, boundary, siblings, displayPage);
    } else {
      ManyPages(count, boundary, siblings, displayPage);
    }
  }

  lemma AllPagesLayout(count: int)
    ensures Layout(Pages(Range(1, count)), count)
  {
  }

  lemma FullPagerIncreasing(count: int, boundary: int, siblings: int, w: int)
    requires boundary >= 1 && siblings >= 0 && count >= FullWidth(boundary, siblings)
    requires boundary + 2 <= w <= count - boundary - 2 * siblings - 1
    ensures Increasing(FullPager(count, boundary, siblings, w))
  {
  }

  lemma FullPagerGaps(count: int, boundary: int, siblings: int, w: int)
    requires boundary >= 1 && siblings >= 0 && count >= FullWidth(boundary, siblings)
    requires boundary + 2 <= w <= count - boundary - 2 * siblings - 1
    ensures NoSkips(FullPager(count, boundary, siblings, w))
    ensures EllipsesHideTwo(FullPager(count, boundary, siblings, w))
  {
  }

  lemma FullPagerLayout(count: int, boundary: int, siblings: int, w: int)
    requires boundary >= 1 && siblings >= 0 && count >= FullWidth(boundary, siblings)
    requires boundary + 2 <= w <= count - boundary - 2 * siblings - 1
    ensures Layout(FullPager(count, boundary, siblings, w), count)
  {
    FullPagerIncreasing(count, boundary, siblings, w);
    FullPagerGaps(count, boundary, siblings, w);
  }

  /** The pager's layout: see `Layout`. */
  lemma ItemsLayout(count: int, boundary: int, siblings: int, displayPage: int)
    requires boundary >= 1 && siblings >= 0
    ensures Layout(Items(count, boundary, siblings, displayPage), count)
  {
    if count < FullWidth(boundary, siblings) {
      FewPages(count, boundary, siblings, displayPage);
      AllPagesLayout(count);
    } else {
      ManyPages(count, boundary, siblings, displayPage);
      FullPagerLayout(count, boundary, siblings, WindowStart(count, boundary, siblings, displayPage));
    }
  }

  /** The current page and those of its siblings that exist are always shown. */
  lemma SiblingsShown(count: int, boundary: int, siblings: int, displayPage: int, p: int)
    requires boundary >= 1 && siblings >= 0
    requires 1 <= displayPage <= count
    requires 1 <= p <= count && displayPage - siblings <= p <= displayPage + siblings
    ensures PageItem(p) in Items(count, boundary, siblings, displayPage)
  {
    var items := Items(count, boundary, siblings, displayPage);
    if count < FullWidth(boundary, siblings) {
      FewPages(count, boundary, siblings, displayPage);
      assert items[p - 1] == PageItem(p);
    } else {
      ManyPages(count, boundary, siblings, displayPage);
      var i := ShownAt(count, boundary, siblings, WindowStart(count, boundary, siblings, displayPage), displayPage, p);
      assert items[i] == PageItem(p);
    }
  }

  /** Where page `p` sits in a full pager. */
  lemma ShownAt(count: int, boundary: int, siblings: int, w: int, displayPage: int, p: int) returns (i: int)
    requires boundary >= 1 && siblings >= 0 && count >= FullWidth(boundary, siblings)
    requires w == Clamp(displayPage - siblings, boundary + 2, count - boundary - 2 * siblings - 1)
    requires 1 <= p <= count && displayPage - siblings <= p <= displayPage + siblings
    ensures 0 <= i < FullWidth(boundary, siblings) && Slot(count, boundary, siblings, w, i) == PageItem(p)
  {
    if p <= boundary {
      i := p - 1;
    } else if p == boundary + 1 {
      i := boundary;
    } else if p < w + 2 * siblings + 1 {
      i := boundary + 1 + p - w;
    } else if p == count - boundary {
      i := boundary + 2 * siblings + 2;
    } else {
      i := p - count + 2 * boundary + 2 * siblings + 2;
    }
  }

  /** A one-based page number is a page of the pager. */
  predicate Accepts(count: int, newDisplayPage: int)
  {
    0 <= newDisplayPage - 1 < count
  }

  /** Exactly one button is the active one: the current page's. */
  lemma OneActive(count: int, boundary: int, siblings: int, displayPage: int)
    requires boundary >= 1 && siblings >= 0 && 1 <= displayPage <= count
    ensures PageItem(displayPage) in Items(count, boundary, siblings, displayPage)
    ensures var items := Items(count, boundary, siblings, displayPage);
      forall i, j :: 0 <= i < j < |items| && items[i] == PageItem(displayPage) ==> items[j] != PageItem(displayPage)
  {
    SiblingsShown(count, boundary, siblings, displayPage, displayPage);
    ItemsLayout(count, boundary, siblings, displayPage);
  }

  /** A click on any page button asks for a page the pager has. */
  lemma PageClickAccepted(count: int, boundary: int, siblings: int, displayPage: int, i: int)
    requires boundary >= 1 && siblings >= 0
    requires 0 <= i < |Items(count, boundary, siblings, displayPage)|
    requires Items(count, boundary, siblings, displayPage)[i].PageItem?
    ensures Accepts(count, Items(count, boundary, siblings, displayPage)[i].n)
  {
    ItemsLayout(count, boundary, siblings, displayPage);
  }

  /* ---------------- The hook ---------------- */

  /** The props `usePagination` reads; an omitted prop is `None`. */
  datatype Props = Props(
    count: int,
    defaultPage: Option<int>,
    page: Option<int>,
    siblingCount: Option<int>,
    boundaryCount: Option<int>)

  function OrElse(o: Option<int>, default: int): int
  {
    if o.Some? then o.value else default
  }

  /**
    One mounted `usePagination`: the props of the latest render and the page
    the hook keeps in its own state. A `page` prop makes the pager
    controlled: the state is then neither read nor written.
   */
  class PaginationHook {
    var props: Props
    var pageState: int

    /** The first render: the state starts at `defaultPage`, or 0. */
    constructor (props: Props)
      ensures this.props == props
      ensures pageState == OrElse(props.defaultPage, 0)
    {
      this.props := props;
      pageState := OrElse(props.defaultPage, 0);
    }

    /** A later render with new props: the state survives, `defaultPage` is not read again. */
    method Render(props: Props)
      modifies this
      ensures this.props == props
      ensures pageState == old(pageState)
    {
      this.props := props;
    }

    /** The current zero-based page. */
    function Page(): int
      reads this
    {
      OrElse(props.page, pageState)
    }

    function DisplayPage(): int
      reads this
    {
      Page() + 1
    }

    function Siblings(): int
      reads this
    {
      OrElse(props.siblingCount, 1)
    }

    function Boundary(): int
      reads this
    {
      OrElse(props.boundaryCount, 1)
    }

    /**
      `handleChange(newDisplayPage)`: a one-based page outside the pager is
      ignored; otherwise an uncontrolled pager moves there, and `onChange`,
      if given, is called with the zero-based page, returned here.
     */
    method HandleChange(newDisplayPage: int) returns (notified: Option<int>)
      modifies this
      ensures props == old(props)
      ensures notified == if Accepts(props.count, newDisplayPage) then Some(newDisplayPage - 1) else None
      ensures pageState == if Accepts(props.count, newDisplayPage) && props.page.None? then newDisplayPage - 1 else old(pageState)
      ensures props.page.None? && notified.Some? ==> Page() == notified.value && 0 <= Page() < props.count
      ensures props.page.Some? || notified.None? ==> Page() == old(Page())
    {
      var newPage := newDisplayPage - 1;
      if newPage < 0 || newPage >= props.count {
        return None;
      }
      if props.page.None? {
        pageState := newPage;
      }
      notified := Some(newPage);
    }

    /** `itemList` of the current render. */
    method ItemList() returns (items: seq<Item>)
      ensures items == Items(props.count, Boundary(), Siblings(), DisplayPage())
      ensures Boundary() >= 1 && Siblings() >= 0 ==> Shows(items, props.count, Boundary(), Siblings(), DisplayPage())
    {
      items := BuildItems(props.count, Boundary(), Siblings(), DisplayPage());
    }
  }

  /** `itemList`, built push by push. */
  method BuildItems(count: int, boundary: int, siblings: int, displayPage: int) returns (items: seq<Item>)
    ensures items == Items(count, boundary, siblings, displayPage)
    ensures boundary >= 1 && siblings >= 0 ==> Shows(items, count, boundary, siblings, displayPage)
  {
    var startPages := Range(1, Min(boundary, count));
    var endPages := Range(Max(count - boundary + 1, boundary + 1), count);
    var siblingsStart := Max(Min(displayPage - siblings, count - boundary - siblings * 2 - 1), boundary + 2);
    var siblingsEnd := Min(Max(displayPage + siblings, boundary + siblings * 2 + 2),
                           if |endPages| > 0 then endPages[0] - 2 else count - 1);
    assert startPages == StartPages(count, boundary) && endPages == EndPages(count, boundary);
    assert siblingsStart == SiblingsStart(count, boundary, siblings, displayPage);
    assert siblingsEnd == SiblingsEnd(count, boundary, siblings, displayPage);
    var left := LeftGap(count, boundary, siblings, displayPage);
    var right := RightGap(count, boundary, siblings, displayPage);
    items := Pages(startPages);
    if siblingsStart > boundary + 2 {
      items := items + [Ellipsis];
      assert left == [Ellipsis];
    } else if boundary + 1 < count - boundary {
      items := items + [PageItem(boundary + 1)];
      assert left == [PageItem(boundary + 1)];
    } else {
      assert left == [] && items + left == items;
    }
    assert items == Pages(startPages) + left;
    items := items + Pages(Range(siblingsStart, siblingsEnd));
    ghost var middle := items;
    if siblingsEnd < count - boundary - 1 {
      items := items + [Ellipsis];
      assert right == [Ellipsis];
    } else if count - boundary > boundary {
      items := items + [PageItem(count - boundary)];
      assert right == [PageItem(count - boundary)];
    } else {
      assert right == [] && items + right == items;
    }
    assert items == middle + right;
    items := items + Pages(endPages);
    PagerFacts(count, boundary, siblings, displayPage);
  }

  /** A pager's buttons: well laid out, as wide as the pages allow, the current page among them. */
  predicate Shows(items: seq<Item>, count: int, boundary: int, siblings: int, displayPage: int)
  {
    Layout(items, count)
    && |items| == Max(0, Min(count, FullWidth(boundary, siblings)))
    && (1 <= displayPage <= count ==> PageItem(displayPage) in items)
  }

  /** What every pager shows. */
  lemma PagerFacts(count: int, boundary: int, siblings: int, displayPage: int)
    ensures boundary >= 1 && siblings >= 0 ==> Shows(Items(count, boundary, siblings, displayPage), count, boundary, siblings, displayPage)
  {
    if boundary >= 1 && siblings >= 0 {
      ItemsLayout(count, boundary, siblings, displayPage);
      Width(count, boundary, siblings, displayPage);
      if 1 <= displayPage <= count {
        SiblingsShown(count, boundary, siblings, displayPage, displayPage);
      }
    }
  }

  /* ---------------- Previous and Next ---------------- */

  /** The Previous button is disabled on the first page. */
  predicate PrevDisabled(page: int)
  {
    page == 0
  }

  /** The Next button is disabled on the last page. */
  predicate NextDisabled(page: int, count: int)
  {
    page == count - 1
  }

  /** On a page of the pager, Previous is disabled exactly when its click would be ignored. */
  lemma PrevDisabledIffIgnored(page: int, count: int)
    requires 0 <= page < count
    ensures PrevDisabled(page) <==> !Accepts(count, page + 1 - 1)
  {
  }

  /** On a page of the pager, Next is disabled exactly when its click would be ignored. */
  lemma NextDisabledIffIgnored(page: int, count: int)
    requires 0 <= page < count
    ensures NextDisabled(page, count) <==> !Accepts(count, page + 1 + 1)
  {
  }

  /** As written, Next stays enabled on a pager with no pages, where its click is ignored. */
  lemma NextEnabledOnEmptyPager()
    ensures !NextDisabled(0, 0) && !Accepts(0, 0 + 1 + 1)
  {
  }

  /** Next disabled whenever there is no later page: on the last page, and on a pager with no pages. */
  predicate NoNextPage(page: int, count: int)
  {
    page >= count - 1
  }

  /** From any page, Next is disabled exactly when its click would be ignored; on a page of the pager it is the rule as written. */
  lemma NoNextPageIffIgnored(page: int, count: int)
    requires page >= 0
    ensures NoNextPage(page, count) <==> !Accepts(count, page + 1 + 1)
    ensures page < count ==> (NoNextPage(page, count) <==> NextDisabled(page, count))
  {
  }
}
