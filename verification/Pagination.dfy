/** The page links of ui-bootstrap's pagination. */
module Pagination {
  import opened Wrappers

  /** A link of the pager; an ellipsis also has a page number, the one a click on it selects. */
  datatype Page = Page(number: int, ellipsis: bool, active: bool)

  function Max(a: int, b: int): int {
    if a >= b then a else b
  }

  function Min(a: int, b: int): int {
    if a <= b then a else b
  }

  /** `Math.floor(a / b)` */
  function FloorDiv(a: int, b: int): int
    requires b != 0
  {
    if b > 0 then a / b else (-a) / (-b)
  }

  /** `Math.ceil(a / b)` */
  function CeilDiv(a: int, b: int): int
    requires b != 0
  {
    -FloorDiv(-a, b)
  }

  /** `calculateTotalPages` */
  function TotalPages(totalItems: int, itemsPerPage: int): (n: int)
    ensures n >= 1 && (itemsPerPage < 1 || totalItems <= itemsPerPage ==> n == 1)
  {
    CeilOfFew(totalItems, itemsPerPage);
    var totalPages := if itemsPerPage < 1 then 1 else CeilDiv(totalItems, itemsPerPage);
    Max(totalPages, 1)
  }

  lemma CeilOfFew(a: int, b: int)
    ensures b >= 1 && a <= b ==> CeilDiv(a, b) <= 1
  {
    if b >= 1 && a <= b {
      CeilBetween(a, b);
      if CeilDiv(a, b) > 1 {
        MultiplesGrow(1, CeilDiv(a, b) - 1, b);
      }
    }
  }

  lemma CeilBetween(a: int, b: int)
    requires b > 0
    ensures (CeilDiv(a, b) - 1) * b < a <= CeilDiv(a, b) * b
  {
    var q := (-a) / b;
    assert (-a) == q * b + (-a) % b;
    assert (CeilDiv(a, b) - 1) * b == -(q * b) - b;
    assert CeilDiv(a, b) * b == -(q * b);
  }

  /** Item `item` is on page `page` when pages of `limit` items start at offset `(page - 1) * limit`. */
  predicate OnPage(item: int, page: int, limit: int) {
    (page - 1) * limit <= item < (page - 1) * limit + limit
  }

  lemma MultiplesGrow(a: int, b: int, k: int)
    requires a <= b && k >= 0
    ensures a * k <= b * k
  {
  }

  lemma PageOfItem(item: int, page: int, limit: int)
    requires limit >= 1
    ensures OnPage(item, page, limit) <==> page == item / limit + 1
  {
    var p := item / limit;
    assert item == p * limit + item % limit;
    assert (page - 1) * limit + limit == page * limit && (p + 1) * limit == p * limit + limit;
    if page - 1 < p {
      MultiplesGrow(page, p, limit);
    } else if page - 1 > p {
      MultiplesGrow(p + 1, page - 1, limit);
    }
  }

  /** The pages tile the items: each item is on exactly one page, and that page exists. */
  lemma PagesTile(item: int, totalItems: int, limit: int)
    requires limit >= 1 && 0 <= item < totalItems
    ensures 1 <= item / limit + 1 <= TotalPages(totalItems, limit)
    ensures forall page :: OnPage(item, page, limit) <==> page == item / limit + 1
  {
    forall page ensures OnPage(item, page, limit) <==> page == item / limit + 1 {
      PageOfItem(item, page, limit);
    }
    var p, n := item / limit, CeilDiv(totalItems, limit);
    CeilBetween(totalItems, limit);
    assert p * limit <= item < n * limit;
    if n <= p {
      MultiplesGrow(n, p, limit);
    }
  }

  /** And no page is empty while there are items. */
  lemma PagesNonempty(page: int, totalItems: int, limit: int)
    requires limit >= 1 && 1 <= page <= TotalPages(totalItems, limit) && totalItems >= 1
    ensures 0 <= (page - 1) * limit < totalItems
  {
    CeilBetween(totalItems, limit);
    var n := CeilDiv(totalItems, limit);
    MultiplesGrow(0, page - 1, limit);
    if page <= n {
      MultiplesGrow(page - 1, n - 1, limit);
    }
  }

  // ---------- What the links should be ----------

  ghost predicate StrictlyIncreasing(pages: seq<Page>) {
    forall i, j :: 0 <= i < j < |pages| ==> pages[i].number < pages[j].number
  }

  /** The current page is linked, and it alone is active. */
  ghost predicate OneActive(pages: seq<Page>, currentPage: int) {
    && (exists i :: 0 <= i < |pages| && pages[i] == Page(currentPage, false, true))
    && forall i :: 0 <= i < |pages| && pages[i].active ==> pages[i].number == currentPage
  }

  /** Neighbouring numbers follow each other; only an ellipsis stands for pages left out, and for `hidden` at least. */
  ghost predicate GapsMarked(pages: seq<Page>, hidden: int) {
    forall i :: 0 < i < |pages| ==> GapAt(pages, i, hidden)
  }

  ghost predicate GapAt(pages: seq<Page>, i: int, hidden: int)
    requires 0 < i < |pages|
  {
    && (!pages[i - 1].ellipsis && !pages[i].ellipsis ==> pages[i].number == pages[i - 1].number + 1)
    && (pages[i].ellipsis && i + 1 < |pages| ==>
          !pages[i - 1].ellipsis && !pages[i + 1].ellipsis && pages[i + 1].number - pages[i - 1].number - 1 >= hidden)
  }

  /** The links of an unbroken window of pages. */
  function Window(startPage: int, endPage: int, currentPage: int): (pages: seq<Page>)
    ensures |pages| == if startPage <= endPage then endPage - startPage + 1 else 0
    ensures forall i :: 0 <= i < |pages| ==> pages[i] == Page(startPage + i, false, startPage + i == currentPage)
    decreases endPage - startPage
  {
    if startPage > endPage then []
    else [Page(startPage, false, startPage == currentPage)] + Window(startPage + 1, endPage, currentPage)
  }

  /** Half of the window, rounded down, lies before the current page, unless the window would pass an end. */
  predicate Centred(startPage: int, endPage: int, currentPage: int, totalPages: int, size: int) {
    if 2 * currentPage <= size then startPage == 1
    else if currentPage - size / 2 + size > totalPages then endPage == totalPages
    else startPage == currentPage - size / 2
  }

  /** The window is one of the sets of `size` pages counted from page 1 on, the last set perhaps shorter. */
  predicate PageSet(startPage: int, endPage: int, totalPages: int, size: int)
    requires size > 0
  {
    (startPage - 1) % size == 0 && (endPage == startPage + size - 1 || (endPage == totalPages < startPage + size))
  }

  lemma MultipleOf(n: int, size: int)
    requires size > 0
    ensures (n * size) % size == 0
  {
    var q, r := (n * size) / size, (n * size) % size;
    assert n * size == q * size + r;
    if n < q {
      MultiplesGrow(n + 1, q, size);
    } else if q < n {
      MultiplesGrow(q + 1, n, size);
    }
  }

  /** The limits of the window of visible pages. */
  method PageLimits(currentPage: int, totalPages: int, maxSize: Option<int>, rotate: bool)
      returns (startPage: int, endPage: int)
    requires 1 <= currentPage <= totalPages
    ensures maxSize.None? || maxSize.value >= totalPages ==> startPage == 1 && endPage == totalPages
    ensures maxSize.Some? && maxSize.value < 1 ==> endPage < startPage
    ensures maxSize.None? || maxSize.value >= 1 ==> 1 <= startPage <= currentPage <= endPage <= totalPages
    ensures maxSize.Some? && 1 <= maxSize.value < totalPages ==>
              && endPage - startPage + 1 <= maxSize.value
              && (rotate ==> endPage - startPage + 1 == maxSize.value)
              && (rotate ==> Centred(startPage, endPage, currentPage, totalPages, maxSize.value))
              && (!rotate ==> PageSet(startPage, endPage, totalPages, maxSize.value))
  {
    startPage, endPage := 1, totalPages;
    if maxSize.Some? && maxSize.value < totalPages {
      var size := maxSize.value;
      if rotate {
        startPage := Max(currentPage - FloorDiv(size, 2), 1);
        endPage := startPage + size - 1;
        if endPage > totalPages {
          endPage := totalPages;
          startPage := endPage - size + 1;
        }
      } else if size == 0 {
        // Infinity times zero is no number, and no page is at most that
        endPage := startPage - 1;
      } else {
        var visible := CeilDiv(currentPage, size);
        startPage := (visible - 1) * size + 1;
        endPage := Min(startPage + size - 1, totalPages);
        if size > 0 {
          MultipleOf(visible - 1, size);
          CeilBetween(currentPage, size);
          PageSetPositive(visible, size);
          assert visible * size == (visible - 1) * size + size;
        }
      }
    }
  }

  lemma PageSetPositive(n: int, size: int)
    requires size > 0 && n * size > 0
    ensures n >= 1 && (n - 1) * size >= 0
  {
    if n < 1 {
      MultiplesGrow(n, 0, size);
    } else {
      MultiplesGrow(0, n - 1, size);
    }
  }

  // ---------- The links beside the window ----------

  function Link(number: int): Page {
    Page(number, false, false)
  }

  function Ellipsis(number: int): Page {
    Page(number, true, false)
  }

  function LinksBefore(startPage: int, boundaryLinkNumbers: bool): seq<Page> {
    if startPage <= 1 then []
    else if !boundaryLinkNumbers then [Ellipsis(startPage - 1)]
    else if startPage == 2 then [Link(1)]
    else if startPage == 3 then [Link(1), Link(2)]
    else [Link(1), Ellipsis(startPage - 1)]
  }

  function LinksAfter(endPage: int, totalPages: int, boundaryLinkNumbers: bool): seq<Page> {
    if endPage >= totalPages then []
    else if !boundaryLinkNumbers then [Ellipsis(endPage + 1)]
    else if endPage == totalPages - 1 then [Link(totalPages)]
    else if endPage == totalPages - 2 then [Link(totalPages - 1), Link(totalPages)]
    else [Ellipsis(endPage + 1), Link(totalPages)]
  }

  method UnshiftLinks(window: seq<Page>, startPage: int, boundaryLinkNumbers: bool) returns (pages: seq<Page>)
    ensures pages == LinksBefore(startPage, boundaryLinkNumbers) + window
  {
    pages := window;
    if startPage > 1 {
      if !boundaryLinkNumbers || startPage > 3 {
        pages := [Ellipsis(startPage - 1)] + pages;
      }
      if boundaryLinkNumbers {
        if startPage == 3 {
          pages := [Link(2)] + pages;
        }
        pages := [Link(1)] + pages;
      }
    }
  }

  method PushLinks(window: seq<Page>, endPage: int, totalPages: int, boundaryLinkNumbers: bool)
      returns (pages: seq<Page>)
    ensures pages == window + LinksAfter(endPage, totalPages, boundaryLinkNumbers)
  {
    pages := window;
    if endPage < totalPages {
      if !boundaryLinkNumbers || endPage < totalPages - 2 {
        pages := pages + [Ellipsis(endPage + 1)];
      }
      if boundaryLinkNumbers {
        if endPage == totalPages - 2 {
          pages := pages + [Link(totalPages - 1)];
        }
        pages := pages + [Link(totalPages)];
      }
    }
  }

  method PushWindow(startPage: int, endPage: int, currentPage: int) returns (pages: seq<Page>)
    ensures pages == Window(startPage, endPage, currentPage)
  {
    pages := [];
    var number := startPage;
    while number <= endPage
      invariant if startPage <= endPage then startPage <= number <= endPage + 1 else number == startPage
      invariant pages == Window(startPage, number - 1, currentPage)
      decreases endPage - number
    {
      pages := pages + [Page(number, false, number == currentPage)];
      number := number + 1;
    }
  }

  lemma IncreasingConcat(a: seq<Page>, b: seq<Page>)
    requires StrictlyIncreasing(a) && StrictlyIncreasing(b)
    requires a != [] && b != [] ==> a[|a| - 1].number < b[0].number
    ensures StrictlyIncreasing(a + b)
  {
    forall i, j | 0 <= i < j < |a + b| ensures (a + b)[i].number < (a + b)[j].number {
      if i < |a| <= j {
        assert a[i].number <= a[|a| - 1].number < b[0].number <= b[j - |a|].number;
      }
    }
  }

  /** Two lists fit together when nothing is skipped where they meet, or only behind a proper ellipsis. */
  lemma GapsConcat(a: seq<Page>, b: seq<Page>, hidden: int)
    requires GapsMarked(a, hidden) && GapsMarked(b, hidden) && a != [] && b != []
    requires !a[|a| - 1].ellipsis && !b[0].ellipsis ==> b[0].number == a[|a| - 1].number + 1
    requires a[|a| - 1].ellipsis && |a| > 1 ==>
               !a[|a| - 2].ellipsis && !b[0].ellipsis && b[0].number - a[|a| - 2].number - 1 >= hidden
    requires b[0].ellipsis && |b| > 1 ==>
               !b[1].ellipsis && !a[|a| - 1].ellipsis && b[1].number - a[|a| - 1].number - 1 >= hidden
    ensures GapsMarked(a + b, hidden)
  {
    var ab := a + b;
    forall i | 0 < i < |ab| ensures GapAt(ab, i, hidden) {
      if i < |a| {
        assert GapAt(a, i, hidden);
      } else if i > |a| {
        assert GapAt(b, i - |a|, hidden);
      }
    }
  }

  lemma BesideFits(startPage: int, endPage: int, totalPages: int, b: bool)
    requires 1 <= startPage <= endPage <= totalPages
    ensures StrictlyIncreasing(LinksBefore(startPage, b)) && StrictlyIncreasing(LinksAfter(endPage, totalPages, b))
    ensures GapsMarked(LinksBefore(startPage, b), if b then 2 else 0)
    ensures GapsMarked(LinksAfter(endPage, totalPages, b), if b then 2 else 0)
  {
  }

  lemma PrependBefore(window: seq<Page>, startPage: int, b: bool)
    requires 1 < startPage && window != [] && window[0].number == startPage && !window[0].ellipsis
    requires StrictlyIncreasing(window) && GapsMarked(window, if b then 2 else 0)
    ensures var pages := LinksBefore(startPage, b) + window;
            StrictlyIncreasing(pages) && GapsMarked(pages, if b then 2 else 0)
  {
    BesideFits(startPage, startPage, startPage, b);
    IncreasingConcat(LinksBefore(startPage, b), window);
    GapsConcat(LinksBefore(startPage, b), window, if b then 2 else 0);
  }

  lemma AppendAfter(front: seq<Page>, endPage: int, totalPages: int, b: bool)
    requires 1 <= endPage < totalPages
    requires front != [] && front[|front| - 1].number == endPage && !front[|front| - 1].ellipsis
    requires StrictlyIncreasing(front) && GapsMarked(front, if b then 2 else 0)
    ensures var pages := front + LinksAfter(endPage, totalPages, b);
            StrictlyIncreasing(pages) && GapsMarked(pages, if b then 2 else 0)
  {
    BesideFits(1, endPage, totalPages, b);
    IncreasingConcat(front, LinksAfter(endPage, totalPages, b));
    GapsConcat(front, LinksAfter(endPage, totalPages, b), if b then 2 else 0);
  }

  lemma WindowFits(startPage: int, endPage: int, currentPage: int, hidden: int)
    ensures StrictlyIncreasing(Window(startPage, endPage, currentPage))
    ensures GapsMarked(Window(startPage, endPage, currentPage), hidden)
  {
  }

  lemma LastOfFront(before: seq<Page>, startPage: int, endPage: int, currentPage: int)
    requires startPage <= endPage
    ensures var front := before + Window(startPage, endPage, currentPage);
            front != [] && front[|front| - 1].number == endPage && !front[|front| - 1].ellipsis
  {
    var window := Window(startPage, endPage, currentPage);
    assert (before + window)[|before + window| - 1] == window[|window| - 1];
  }

  lemma FrontFits(before: seq<Page>, startPage: int, endPage: int, currentPage: int, b: bool)
    requires 1 <= startPage <= endPage
    requires before == [] || (startPage > 1 && before == LinksBefore(startPage, b))
    ensures StrictlyIncreasing(before + Window(startPage, endPage, currentPage))
    ensures GapsMarked(before + Window(startPage, endPage, currentPage), if b then 2 else 0)
  {
    var window := Window(startPage, endPage, currentPage);
    WindowFits(startPage, endPage, currentPage, if b then 2 else 0);
    if before == [] {
      assert before + window == window;
    } else {
      PrependBefore(window, startPage, b);
    }
  }

  /** The links before, in and after the window fit together. */
  lemma LinksFit(before: seq<Page>, startPage: int, endPage: int, after: seq<Page>, totalPages: int,
                 currentPage: int, b: bool)
    requires 1 <= startPage <= currentPage <= endPage <= totalPages
    requires before == [] || before == LinksBefore(startPage, b)
    requires after == [] || after == LinksAfter(endPage, totalPages, b)
    ensures var pages := before + Window(startPage, endPage, currentPage) + after;
            StrictlyIncreasing(pages) && GapsMarked(pages, if b then 2 else 0)
  {
    var front := before + Window(startPage, endPage, currentPage);
    FrontFits(before, startPage, endPage, currentPage, b);
    LastOfFront(before, startPage, endPage, currentPage);
    if after == [] {
      assert front + [] == front;
    } else {
      AppendAfter(front, endPage, totalPages, b);
    }
  }

  lemma BoundariesLinked(startPage: int, endPage: int, totalPages: int, currentPage: int)
    requires 1 <= startPage <= currentPage <= endPage <= totalPages
    ensures var pages := LinksBefore(startPage, true) + Window(startPage, endPage, currentPage)
                         + LinksAfter(endPage, totalPages, true);
            && pages != [] && pages[0] == Page(1, false, currentPage == 1)
            && pages[|pages| - 1] == Page(totalPages, false, currentPage == totalPages)
  {
  }

  lemma CurrentActive(before: seq<Page>, startPage: int, endPage: int, after: seq<Page>, totalPages: int,
                      currentPage: int, b: bool)
    requires 1 <= startPage <= currentPage <= endPage <= totalPages
    requires before == [] || before == LinksBefore(startPage, b)
    requires after == [] || after == LinksAfter(endPage, totalPages, b)
    ensures var pages := before + Window(startPage, endPage, currentPage) + after;
            OneActive(pages, currentPage) && forall i :: 0 <= i < |pages| ==> 1 <= pages[i].number <= totalPages
  {
    var window := Window(startPage, endPage, currentPage);
    var pages := before + window + after;
    assert pages[|before| + (currentPage - startPage)] == window[currentPage - startPage];
    assert forall p :: p in pages <==> p in before || p in window || p in after;
    forall i | 0 <= i < |pages|
      ensures 1 <= pages[i].number <= totalPages && (pages[i].active ==> pages[i].number == currentPage)
    {
      assert pages[i] in pages;
    }
  }

  /** The numbers are pages in increasing order, the current one alone is active, and gaps are marked. */
  ghost predicate Proper(pages: seq<Page>, currentPage: int, totalPages: int, hidden: int) {
    && StrictlyIncreasing(pages) && (forall i :: 0 <= i < |pages| ==> 1 <= pages[i].number <= totalPages)
    && OneActive(pages, currentPage) && GapsMarked(pages, hidden)
  }

  lemma LinksProper(before: seq<Page>, startPage: int, endPage: int, after: seq<Page>, totalPages: int,
                    currentPage: int, b: bool)
    requires 1 <= startPage <= currentPage <= endPage <= totalPages
    requires before == [] || before == LinksBefore(startPage, b)
    requires after == [] || after == LinksAfter(endPage, totalPages, b)
    ensures Proper(before + Window(startPage, endPage, currentPage) + after, currentPage, totalPages,
                   if b then 2 else 0)
  {
    LinksFit(before, startPage, endPage, after, totalPages, currentPage, b);
    CurrentActive(before, startPage, endPage, after, totalPages, currentPage, b);
  }

  /** An ellipsis stands beside the window exactly where more than `hidden` pages are left out, and leads next to it. */
  ghost predicate Ellipses(pages: seq<Page>, startPage: int, endPage: int, totalPages: int, beside: bool, hidden: int) {
    forall p: Page :: p in pages && p.ellipsis <==>
                        && beside && p.ellipsis && !p.active
                        && ((startPage - 1 > hidden && p.number == startPage - 1)
                            || (totalPages - endPage > hidden && p.number == endPage + 1))
  }

  lemma EllipsesShown(before: seq<Page>, startPage: int, endPage: int, after: seq<Page>, totalPages: int,
                      currentPage: int, b: bool, beside: bool)
    requires 1 <= startPage <= currentPage <= endPage <= totalPages
    requires before == if beside then LinksBefore(startPage, b) else []
    requires after == if beside then LinksAfter(endPage, totalPages, b) else []
    ensures Ellipses(before + Window(startPage, endPage, currentPage) + after, startPage, endPage, totalPages, beside,
                     if b then 2 else 0)
  {
    var window := Window(startPage, endPage, currentPage);
    var pages, hidden := before + window + after, if b then 2 else 0;
    forall p: Page ensures p in pages && p.ellipsis <==> p.ellipsis && (p in before || p in after) {
      assert p in pages <==> p in before || p in window || p in after;
      assert p in window ==> !p.ellipsis;
    }
    forall p: Page
      ensures p in LinksBefore(startPage, b) && p.ellipsis <==> startPage - 1 > hidden && p == Ellipsis(startPage - 1)
      ensures p in LinksAfter(endPage, totalPages, b) && p.ellipsis
              <==> totalPages - endPage > hidden && p == Ellipsis(endPage + 1)
    {
    }
  }

  /**
   * `getPages`. Next to boundary numbers an ellipsis hides two pages or more, and the first and the last
   * page are linked; a size below one shows nothing.
   */
  method GetPages(currentPage: int, totalPages: int, maxSize: Option<int>, rotate: bool, forceEllipses: bool,
                  boundaryLinkNumbers: bool) returns (pages: seq<Page>, ghost startPage: int, ghost endPage: int)
    requires 1 <= currentPage <= totalPages
    ensures maxSize.Some? && maxSize.value < 1 ==> pages == []
    ensures maxSize.None? || maxSize.value >= 1 ==>
              && 1 <= startPage <= currentPage <= endPage <= totalPages
              && (maxSize.Some? ==> endPage - startPage + 1 <= maxSize.value)
              && (maxSize.None? || maxSize.value >= totalPages ==> startPage == 1 && endPage == totalPages)
              && var beside := && maxSize.Some? && maxSize.value < totalPages
                               && (!rotate || forceEllipses || boundaryLinkNumbers);
                 pages == (if beside then LinksBefore(startPage, boundaryLinkNumbers) else [])
                          + Window(startPage, endPage, currentPage)
                          + (if beside then LinksAfter(endPage, totalPages, boundaryLinkNumbers) else [])
    ensures maxSize.Some? && 1 <= maxSize.value < totalPages ==>
              if rotate then endPage - startPage + 1 == maxSize.value
                             && Centred(startPage, endPage, currentPage, totalPages, maxSize.value)
              else PageSet(startPage, endPage, totalPages, maxSize.value)
    ensures maxSize.None? || maxSize.value >= 1 ==>
              var beside := && maxSize.Some? && maxSize.value < totalPages
                            && (!rotate || forceEllipses || boundaryLinkNumbers);
              Ellipses(pages, startPage, endPage, totalPages, beside, if boundaryLinkNumbers then 2 else 0)
    ensures maxSize.None? || maxSize.value >= 1 ==>
              Proper(pages, currentPage, totalPages, if boundaryLinkNumbers then 2 else 0)
    ensures boundaryLinkNumbers && maxSize.Some? && 1 <= maxSize.value < totalPages ==>
              && pages != [] && pages[0] == Page(1, false, currentPage == 1)
              && pages[|pages| - 1] == Page(totalPages, false, currentPage == totalPages)
  {
    var first, last := PageLimits(currentPage, totalPages, maxSize, rotate);
    startPage, endPage := first, last;
    var isMaxSized := maxSize.Some? && maxSize.value < totalPages;
    var window := PushWindow(first, last, currentPage);
    if isMaxSized && maxSize.value > 0 && (!rotate || forceEllipses || boundaryLinkNumbers) {
      pages := UnshiftLinks(window, first, boundaryLinkNumbers);
      pages := PushLinks(pages, last, totalPages, boundaryLinkNumbers);
      LinksProper(LinksBefore(startPage, boundaryLinkNumbers), startPage, endPage,
                  LinksAfter(endPage, totalPages, boundaryLinkNumbers), totalPages, currentPage, boundaryLinkNumbers);
      BoundariesLinked(startPage, endPage, totalPages, currentPage);
      EllipsesShown(LinksBefore(startPage, boundaryLinkNumbers), startPage, endPage,
                    LinksAfter(endPage, totalPages, boundaryLinkNumbers), totalPages, currentPage,
                    boundaryLinkNumbers, true);
    } else {
      pages := window;
      if maxSize.None? || maxSize.value >= 1 {
        assert [] + window + [] == window;
        LinksProper([], startPage, endPage, [], totalPages, currentPage, boundaryLinkNumbers);
        EllipsesShown([], startPage, endPage, [], totalPages, currentPage, boundaryLinkNumbers, false);
      }
    }
  }
}
