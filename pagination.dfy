/**
  Page arithmetic of the deployment-history view (src/components/ComponentHistory.tsx)
  and the stateless pager (src/components/Pagination.tsx): five items per
  page, `Math.ceil` page count, `slice` bounds, the clamped `goToPage`, and
  the window of at most five page buttons.
*/
module Pagination {
  import opened Wrappers

  const ItemsPerPage: nat := 5

  /** `Math.ceil(n / 5)`. */
  function TotalPages(n: nat): (pages: nat)
    ensures pages * ItemsPerPage >= n
    ensures pages > 0 ==> (pages - 1) * ItemsPerPage < n
    ensures pages == 0 <==> n == 0
  {
    (n + ItemsPerPage - 1) / ItemsPerPage
  }

  function StartIndex(currentPage: int): int {
    (currentPage - 1) * ItemsPerPage
  }

  function EndIndex(currentPage: int): int {
    StartIndex(currentPage) + ItemsPerPage
  }

  function Min(a: int, b: int): int {
    if a <= b then a else b
  }

  function Max(a: int, b: int): int {
    if a >= b then a else b
  }

  /** `s.slice(start, end)` for `0 <= start`: both bounds are cut to the length. */
  function Slice<T>(s: seq<T>, start: nat, end: int): seq<T> {
    var lo := Min(start, |s|);
    var hi := Max(lo, Min(end, |s|));
    s[lo..hi]
  }

  /** `filteredHistory.slice(startIndex, endIndex)` for a page numbered from 1. */
  function PageSlice<T>(items: seq<T>, page: int): (r: seq<T>)
    requires page >= 1
    ensures |r| <= ItemsPerPage
  {
    Slice(items, StartIndex(page), EndIndex(page))
  }

  /** Pages `1..k` one after another. */
  function Pages<T>(items: seq<T>, k: nat): seq<T> {
    if k == 0 then [] else Pages(items, k - 1) + PageSlice(items, k)
  }

  lemma {:induction false} PagesPrefix<T>(items: seq<T>, k: nat)
    ensures Pages(items, k) == items[..Min(k * ItemsPerPage, |items|)]
  {
    if k > 0 {
      PagesPrefix(items, k - 1);
      var lo := Min((k - 1) * ItemsPerPage, |items|);
      var hi := Min(k * ItemsPerPage, |items|);
      assert PageSlice(items, k) == items[lo..hi];
      assert items[..lo] + items[lo..hi] == items[..hi];
    }
  }

  /** Reading the pages in order shows every item once, in order. */
  lemma PagesCoverItems<T>(items: seq<T>)
    ensures Pages(items, TotalPages(|items|)) == items
  {
    PagesPrefix(items, TotalPages(|items|));
  }

  /** A page in range is never empty: only the last one may hold fewer than five. */
  lemma PageInRangeNonEmpty<T>(items: seq<T>, page: int)
    requires 1 <= page <= TotalPages(|items|)
    ensures 1 <= |PageSlice(items, page)|
    ensures page < TotalPages(|items|) ==> |PageSlice(items, page)| == ItemsPerPage
  {
  }

  /** `Math.max(1, Math.min(page, totalPages))`. */
  function ClampPage(page: int, totalPages: nat): (p: int)
    ensures p >= 1
    ensures totalPages >= 1 ==> p <= totalPages
    ensures 1 <= page <= totalPages ==> p == page
    ensures totalPages == 0 ==> p == 1
  {
    Max(1, Min(page, totalPages))
  }

  /** Clamping a clamped page changes nothing. */
  lemma ClampPageIdempotent(page: int, totalPages: nat)
    ensures ClampPage(ClampPage(page, totalPages), totalPages) == ClampPage(page, totalPages)
  {
  }

  // ------------------------------------------------------------ page window

  /** The label of button `i` of the window. */
  function PageNumber(i: int, currentPage: int, totalPages: int): int {
    if totalPages <= 5 then i + 1
    else if currentPage <= 3 then i + 1
    else if currentPage >= totalPages - 2 then totalPages - 4 + i
    else currentPage - 2 + i
  }

  /** `Array.from({ length: Math.min(5, totalPages) }, ...)`. */
  function PageWindow(currentPage: int, totalPages: nat): (w: seq<int>)
    ensures |w| == Min(5, totalPages)
    ensures forall i :: 0 <= i < |w| ==> w[i] == PageNumber(i, currentPage, totalPages)
  {
    seq(Min(5, totalPages), i requires 0 <= i < Min(5, totalPages) => PageNumber(i, currentPage, totalPages))
  }

  /** The window is a run of consecutive increasing page numbers. */
  lemma PageWindowConsecutive(currentPage: int, totalPages: nat)
    ensures var w := PageWindow(currentPage, totalPages);
      forall i :: 0 <= i < |w| - 1 ==> w[i + 1] == w[i] + 1
  {
  }

  /** With the current page in range, every button is a real page and the current one is among them. */
  lemma PageWindowInRange(currentPage: int, totalPages: nat)
    requires 1 <= currentPage <= totalPages
    ensures var w := PageWindow(currentPage, totalPages);
      && (forall i :: 0 <= i < |w| ==> 1 <= w[i] <= totalPages)
      && currentPage in w
  {
    var w := PageWindow(currentPage, totalPages);
    var first := PageNumber(0, currentPage, totalPages);
    assert 0 <= currentPage - first < |w|;
    assert w[currentPage - first] == currentPage;
  }

  /**
    Where the window starts and ends, branch by branch: pages `1..` when
    there are at most five pages or the current page is among the first
    three, the last five pages near the end, otherwise two on each side of
    the current page.
  */
  lemma PageWindowEnds(currentPage: int, totalPages: nat)
    requires totalPages >= 1
    ensures var w := PageWindow(currentPage, totalPages);
      && (totalPages <= 5 ==> w[0] == 1 && w[|w| - 1] == totalPages)
      && (totalPages > 5 && currentPage <= 3 ==> w[0] == 1 && w[|w| - 1] == 5)
      && (totalPages > 5 && currentPage >= totalPages - 2 ==> w[0] == totalPages - 4 && w[|w| - 1] == totalPages)
      && (totalPages > 5 && 3 < currentPage < totalPages - 2 ==> w[0] == currentPage - 2 && w[|w| - 1] == currentPage + 2)
  {
  }

  // ----------------------------------------------------------------- pager

  /** The range text: `All N ... shown` for one page, else `Showing a-b of N`. */
  datatype RangeText = AllShown(total: int) | Showing(first: int, last: int, total: int)

  datatype Controls = Controls(previousDisabled: bool, pages: seq<int>, nextDisabled: bool)

  /** What `Pagination` renders; `Hidden` is its `null`. */
  datatype PagerView = Hidden | Shown(text: RangeText, controls: Option<Controls>)

  function Pager(currentPage: int, totalPages: nat, startIndex: int, endIndex: int, totalItems: int): (v: PagerView)
    ensures v.Hidden? <==> totalPages < 1
    ensures v.Shown? ==> (v.controls.Some? <==> totalPages > 1)
    ensures v.Shown? && v.controls.Some? ==>
      && (v.controls.value.previousDisabled <==> currentPage == 1)
      && (v.controls.value.nextDisabled <==> currentPage == totalPages)
    ensures v.Shown? && totalPages == 1 ==> v.text == AllShown(totalItems)
    ensures v.Shown? && totalPages > 1 ==>
      && v.text.Showing? && v.text.first == startIndex + 1 && v.text.total == totalItems
      && v.text.last <= totalItems && v.text.last <= endIndex
      && (v.text.last == totalItems || v.text.last == endIndex)
    ensures v.Shown? && v.controls.Some? ==> v.controls.value.pages == PageWindow(currentPage, totalPages)
  {
    if totalPages < 1 then Hidden
    else
      var text := if totalPages == 1 then AllShown(totalItems)
                  else Showing(startIndex + 1, Min(endIndex, totalItems), totalItems);
      var controls := if totalPages > 1 then Some(Controls(currentPage == 1, PageWindow(currentPage, totalPages), currentPage == totalPages))
                      else None;
      Shown(text, controls)
  }

  /**
    Fed with the history view's figures, the range text names exactly the
    shown items: from `startIndex + 1` to `min(endIndex, n)`, never beyond
    `n`, as many as the page slice holds.
  */
  lemma PagerCountsShownItems<T>(items: seq<T>, page: int)
    requires 1 <= page <= TotalPages(|items|) && TotalPages(|items|) > 1
    ensures var v := Pager(page, TotalPages(|items|), StartIndex(page), EndIndex(page), |items|);
      && v.Shown? && v.text.Showing?
      && v.text.first == StartIndex(page) + 1
      && 1 <= v.text.first <= v.text.last <= |items|
      && v.text.last - v.text.first + 1 == |PageSlice(items, page)|
  {
  }

  /** The view's own `Showing a-b of n` line: `b` is `min(startIndex + 5, n)`, at most `n`. */
  function ShowingUpper(currentPage: int, n: nat): (upper: int)
    ensures upper <= n
    ensures upper <= EndIndex(currentPage)
    ensures upper == n || upper == EndIndex(currentPage)
  {
    Min(EndIndex(currentPage), n)
  }
}
