/**
 * The page selector under every table (resources/js/components/table/BottomBar.tsx):
 * the centred window of page numbers, the current-page derivation from the
 * table's zero-based page index, the page buttons and the go-to-page input.
 */
module Pagination {
  import opened Text
  import opened Values

  /** The window size the bottom bar asks for. */
  const DefaultMaxPagesToShow: int := 3

  /** 1 when the window size is even, so that the extra page goes to the right. */
  function EvenOffset(maxPagesToShow: int): int {
    if maxPagesToShow % 2 == 0 then 1 else 0
  }

  /** `Math.floor(maxPagesToShow / 2)`: Dafny's division by 2 rounds down for negatives too. */
  function Half(maxPagesToShow: int): int {
    maxPagesToShow / 2
  }

  /** First page of the window centred on `current`, before any shift. */
  function CentredStart(current: int, maxPagesToShow: int): int {
    current - Half(maxPagesToShow) + EvenOffset(maxPagesToShow)
  }

  /** Last page of the window centred on `current`, before any shift. */
  function CentredEnd(current: int, maxPagesToShow: int): int {
    current + Half(maxPagesToShow)
  }

  /** The `start`/`end` pair the source computes before building the range. */
  function Bounds(current: int, total: int, maxPagesToShow: int): (int, int) {
    if maxPagesToShow >= total then (1, total)
    else
      var start0 := CentredStart(current, maxPagesToShow);
      var end0 := CentredEnd(current, maxPagesToShow);
      var start1 := if start0 < 1 then 1 else start0;
      var end1 := if start0 < 1 then end0 + 1 - start0 else end0;
      if end1 > total then (start1 - (end1 - total), total) else (start1, end1)
  }

  /** The pages `lo, lo + 1, …, hi`, as the `for` loop pushes them. */
  function Range(lo: int, hi: int): (r: seq<int>)
    ensures |r| == if hi < lo then 0 else hi - lo + 1
    ensures forall i :: 0 <= i < |r| ==> r[i] == lo + i
    decreases hi - lo
  {
    if lo > hi then [] else [lo] + Range(lo + 1, hi)
  }

  function Max0(n: int): nat {
    if n < 0 then 0 else n
  }

  /** Strictly ascending by one. */
  predicate Consecutive(r: seq<int>) {
    forall i :: 0 <= i < |r| - 1 ==> r[i + 1] == r[i] + 1
  }

  /** `getCenteredPagination(current, total, maxPagesToShow)`. */
  function CenteredPagination(current: int, total: int, maxPagesToShow: int): (pages: seq<int>)
    ensures Consecutive(pages)
    // a window at least as wide as the page count lists every page, none for total < 1
    ensures maxPagesToShow >= total ==>
      |pages| == Max0(total) && forall i :: 0 <= i < |pages| ==> pages[i] == i + 1
    // otherwise the window has exactly maxPagesToShow pages, all of them real
    ensures maxPagesToShow < total ==>
      |pages| == Max0(maxPagesToShow) && forall i :: 0 <= i < |pages| ==> 1 <= pages[i] <= total
    ensures 1 <= maxPagesToShow < total && 1 <= current <= total ==> current in pages
    // away from both edges the window is centred, the extra page of an even size on the right
    ensures (1 <= maxPagesToShow < total && 1 <= CentredStart(current, maxPagesToShow)
             && CentredEnd(current, maxPagesToShow) <= total) ==>
      pages[0] == CentredStart(current, maxPagesToShow)
      && pages[|pages| - 1] == CentredEnd(current, maxPagesToShow)
    // near the start it begins at 1, near the end it stops at total
    ensures 1 <= maxPagesToShow < total && CentredStart(current, maxPagesToShow) < 1 ==> pages[0] == 1
    ensures 1 <= maxPagesToShow < total && CentredEnd(current, maxPagesToShow) > total ==>
      pages[|pages| - 1] == total
  {
    var (start, end) := Bounds(current, total, maxPagesToShow);
    var pages := Range(start, end);
    if 1 <= maxPagesToShow < total && 1 <= current <= total then
      assert pages[current - start] == current;
      pages
    else pages
  }

  function Clamp(x: int, lo: int, hi: int): int {
    if x < lo then lo else if x > hi then hi else x
  }

  /**
   * An independent description of the window: the centred start clamped into
   * [1, total - maxPagesToShow + 1], followed by maxPagesToShow consecutive pages.
   */
  lemma CenteredIsClampedWindow(current: int, total: int, maxPagesToShow: int)
    requires 1 <= maxPagesToShow < total
    ensures CenteredPagination(current, total, maxPagesToShow)
      == seq(maxPagesToShow, i =>
           Clamp(CentredStart(current, maxPagesToShow), 1, total - maxPagesToShow + 1) + i)
  {
    var pages := CenteredPagination(current, total, maxPagesToShow);
    var lo := Clamp(CentredStart(current, maxPagesToShow), 1, total - maxPagesToShow + 1);
    assert CentredEnd(current, maxPagesToShow) - CentredStart(current, maxPagesToShow) + 1 == maxPagesToShow;
    assert pages[0] == lo;
  }

  /** The page number shown for the table's zero-based page index. */
  function CurrentPage(pageIndex: int): int {
    pageIndex + 1
  }

  /** The page index a page button navigates to. */
  function ButtonTarget(page: int): (pageIndex: int)
    ensures CurrentPage(pageIndex) == page
  {
    page - 1
  }

  /** A page button is disabled when it shows the current page. */
  predicate ButtonDisabled(page: int, pageIndex: int) {
    page == CurrentPage(pageIndex)
  }

  /** The pages the bottom bar renders, with the default window size. */
  function PagesToShow(pageIndex: int, pageCount: int): (pages: seq<int>)
    ensures 0 <= pageIndex < pageCount ==> CurrentPage(pageIndex) in pages
    ensures |pages| == if pageCount <= DefaultMaxPagesToShow then Max0(pageCount) else DefaultMaxPagesToShow
    ensures forall i :: 0 <= i < |pages| ==> 1 <= pages[i] <= pageCount
  {
    CenteredPagination(CurrentPage(pageIndex), pageCount, DefaultMaxPagesToShow)
  }

  /** On a real page exactly one button of the window is disabled: the current page's. */
  lemma OneDisabledButton(pageIndex: int, pageCount: int)
    requires 0 <= pageIndex < pageCount
    ensures exists k ::
      0 <= k < |PagesToShow(pageIndex, pageCount)| && ButtonDisabled(PagesToShow(pageIndex, pageCount)[k], pageIndex)
    ensures forall j, k :: 0 <= j < k < |PagesToShow(pageIndex, pageCount)| ==>
      !(ButtonDisabled(PagesToShow(pageIndex, pageCount)[j], pageIndex)
        && ButtonDisabled(PagesToShow(pageIndex, pageCount)[k], pageIndex))
  {
    var pages := PagesToShow(pageIndex, pageCount);
    var k :| 0 <= k < |pages| && pages[k] == CurrentPage(pageIndex);
    assert ButtonDisabled(pages[k], pageIndex);
    var lo := Bounds(CurrentPage(pageIndex), pageCount, DefaultMaxPagesToShow).0;
    assert forall j :: 0 <= j < |pages| ==> pages[j] == lo + j;
  }

  /**
   * The go-to-page input's change handler: an empty value selects page index
   * 0, a number n selects index n - 1, and a value that is not a number is
   * ignored (None).
   */
  function GoToPageIndex(value: string): (target: Option<int>)
    ensures value == "" ==> target == Some(0)
    ensures value != "" && target.Some? ==> IntLiteral(value) && CurrentPage(target.value) == IntLiteralValue(value)
    ensures IntLiteral(value) ==> target.Some?
  {
    if value == "" then Some(0)
    else if IntLiteral(value) then Some(IntLiteralValue(value) - 1)
    else None
  }

  /** Typing the number of the page shown for an index selects that index again. */
  lemma GoToShownPage(pageIndex: int)
    ensures GoToPageIndex(IntToDecimal(CurrentPage(pageIndex))) == Some(pageIndex)
  {
    IntLiteralDecimal(CurrentPage(pageIndex));
  }
}
