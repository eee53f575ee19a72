/** Page-windowing arithmetic: `paginateArray`, `buildIndexArr` and the
    clamped page state of `usePaginatedArray`. The batch filler carries a
    textually identical copy of `paginateArray`, modelled by the same members. */
module Pagination {
  import opened Js

  /** The integers `lo..hi`, inclusive; empty when `lo > hi`. */
  function Range(lo: int, hi: int): (r: seq<int>)
    ensures |r| == if lo <= hi then hi - lo + 1 else 0
    ensures forall k :: 0 <= k < |r| ==> r[k] == lo + k
  {
    var n := if lo <= hi then hi - lo + 1 else 0;
    seq(n, k requires 0 <= k < n => lo + k)
  }

  lemma RangeSnoc(lo: int, hi: int)
    requires lo <= hi + 1
    ensures Range(lo, hi + 1) == Range(lo, hi) + [hi + 1]
  {
  }

  lemma AsItemsRangeSnoc(lo: int, hi: int)
    requires lo <= hi + 1
    ensures AsItems(Range(lo, hi + 1)) == AsItems(Range(lo, hi)) + [PageNumber(hi + 1)]
  {
    RangeSnoc(lo, hi);
  }

  /** `Math.max(1, Math.ceil(len / perPage))` */
  function TotalPages(len: nat, perPage: nat): (r: nat)
    requires perPage > 0
    ensures r >= 1
    ensures len <= r * perPage
    ensures r == 1 || (r - 1) * perPage < len
  {
    var c := (len + perPage - 1) / perPage;
    if c < 1 then 1 else c
  }

  /** `Array.from({ length: totalPages }, (_, i) => i + 1)` */
  function IndexArr(totalPages: int): (r: seq<int>)
    ensures |r| == if totalPages < 0 then 0 else totalPages
    ensures forall k :: 0 <= k < |r| ==> r[k] == k + 1
  {
    Range(1, totalPages)
  }

  /** First index of page `page`: `(pageNumber - 1) * itemsPerPage`. */
  function PageStart(perPage: nat, page: int): (r: int)
    ensures page >= 1 ==> r >= 0
  {
    if page >= 1 then MulNonNegative(page - 1, perPage); (page - 1) * perPage
    else (page - 1) * perPage
  }

  /** `getPage(pageNumber)`: `arr.slice(start, start + itemsPerPage)`. */
  function GetPage<T>(a: seq<T>, perPage: nat, page: int): (r: seq<T>)
    ensures |r| <= perPage
    ensures page >= 1 ==>
      r == a[Min(PageStart(perPage, page), |a|)..Min(PageStart(perPage, page) + perPage, |a|)]
  {
    var start := PageStart(perPage, page);
    SliceLength(a, start, start + perPage);
    Slice(a, start, start + perPage)
  }

  function Min(a: int, b: int): int {
    if a <= b then a else b
  }

  function Max(a: int, b: int): int {
    if a >= b then a else b
  }

  lemma MulNonNegative(a: int, b: int)
    requires a >= 0 && b >= 0
    ensures a * b >= 0
  {
  }

  /** Pages `1..k` laid end to end. */
  function PagesUpTo<T>(a: seq<T>, perPage: nat, k: nat): seq<T> {
    if k == 0 then [] else PagesUpTo(a, perPage, k - 1) + GetPage(a, perPage, k)
  }

  lemma {:induction false} PagesUpToIsPrefix<T>(a: seq<T>, perPage: nat, k: nat)
    ensures PagesUpTo(a, perPage, k) == a[..Min(k * perPage, |a|)]
  {
    if k > 0 {
      PagesUpToIsPrefix(a, perPage, k - 1);
      var start := PageStart(perPage, k);
      PageStartStep(perPage, k);
      PrefixSplit(a, start, start + perPage);
    }
  }

  lemma PageStartStep(perPage: nat, k: nat)
    requires k > 0
    ensures PageStart(perPage, k) == (k - 1) * perPage
    ensures k * perPage == PageStart(perPage, k) + perPage
  {
  }

  lemma PrefixSplit<T>(a: seq<T>, i: int, j: int)
    requires 0 <= i <= j
    ensures a[..Min(i, |a|)] + a[Min(i, |a|)..Min(j, |a|)] == a[..Min(j, |a|)]
  {
  }

  /** Pages `1..totalPages` concatenate back to the whole array. */
  lemma PagesCoverArray<T>(a: seq<T>, perPage: nat)
    requires perPage > 0
    ensures PagesUpTo(a, perPage, TotalPages(|a|, perPage)) == a
  {
    var t := TotalPages(|a|, perPage);
    PagesUpToIsPrefix(a, perPage, t);
    assert a[..|a|] == a;
  }

  /** Every page before the last one is full, so the last non-empty page is `totalPages`. */
  lemma PagesBeforeLastAreFull<T>(a: seq<T>, perPage: nat, page: int)
    requires perPage > 0
    requires 1 <= page < TotalPages(|a|, perPage)
    ensures |GetPage(a, perPage, page)| == perPage
  {
    var t := TotalPages(|a|, perPage);
    assert page * perPage <= (t - 1) * perPage by {
      MulNonNegative(t - 1 - page, perPage);
    }
    assert PageStart(perPage, page) + perPage == page * perPage;
  }

  /** `setPageClamped(newPage)`: `Math.min(Math.max(1, newPage), totalPages)`. */
  function ClampPage(page: int, totalPages: int): (r: int)
    ensures totalPages >= 1 ==> 1 <= r <= totalPages
    ensures 1 <= page <= totalPages ==> r == page
    ensures page > totalPages ==> r == totalPages
    ensures page < 1 && totalPages >= 1 ==> r == 1
  {
    Min(Max(1, page), totalPages)
  }

  /** The entries of the pagination bar. */
  datatype PageItem = PageNumber(n: int) | EllipsisStart | EllipsisEnd

  /** The numeric entries, in order. */
  function Numbers(items: seq<PageItem>): seq<int> {
    if items == [] then []
    else if items[0].PageNumber? then [items[0].n] + Numbers(items[1..])
    else Numbers(items[1..])
  }

  function AsItems(ns: seq<int>): (r: seq<PageItem>)
    ensures |r| == |ns|
    ensures forall k :: 0 <= k < |r| ==> r[k] == PageNumber(ns[k])
  {
    seq(|ns|, k requires 0 <= k < |ns| => PageNumber(ns[k]))
  }

  lemma {:induction false} NumbersAppend(x: seq<PageItem>, y: seq<PageItem>)
    ensures Numbers(x + y) == Numbers(x) + Numbers(y)
  {
    if x != [] {
      assert (x + y)[0] == x[0];
      assert (x + y)[1..] == x[1..] + y;
      NumbersAppend(x[1..], y);
    } else {
      assert x + y == y;
    }
  }

  lemma {:induction false} NumbersOfItems(ns: seq<int>)
    ensures Numbers(AsItems(ns)) == ns
  {
    if ns != [] {
      assert AsItems(ns)[1..] == AsItems(ns[1..]);
      NumbersOfItems(ns[1..]);
    }
  }

  predicate StrictlyIncreasing(ns: seq<int>) {
    forall i, j :: 0 <= i < j < |ns| ==> ns[i] < ns[j]
  }

  /** First page of the middle run of `buildIndexArr`, after the re-adjustment at the end. */
  function WindowStart(currentPage: int, totalPages: int, maxPages: int): int {
    Max(2, WindowEnd(currentPage, totalPages, maxPages) - (maxPages - 2) + 1)
  }

  /** Last page of the middle run: `Math.min(totalPages - 1, start + middleCount - 1)`.
      `Math.floor(middleCount / 2)` is Dafny's `/`, which floors for a positive divisor. */
  function WindowEnd(currentPage: int, totalPages: int, maxPages: int): int {
    var middleCount := maxPages - 2;
    var half := middleCount / 2;
    Min(totalPages - 1, Max(2, currentPage - half) + middleCount - 1)
  }

  /** `buildIndexArr(currentPage, totalPages, maxPages)` */
  method BuildIndexArr(currentPage: int, totalPages: int, maxPages: int)
    returns (pages: seq<PageItem>)
    ensures totalPages <= maxPages ==> pages == AsItems(Range(1, totalPages))
    ensures totalPages > maxPages ==>
      var start := WindowStart(currentPage, totalPages, maxPages);
      var end := WindowEnd(currentPage, totalPages, maxPages);
      && |pages| >= 2
      && pages[0] == PageNumber(1)
      && pages[|pages| - 1] == PageNumber(totalPages)
      && Numbers(pages) == [1] + Range(start, end) + [totalPages]
      && (EllipsisStart in pages <==> start > 2)
      && (EllipsisEnd in pages <==> end < totalPages - 1)
      && |Range(start, end)| <= Max(0, maxPages - 2)
  {
    if totalPages <= maxPages {
      return AsItems(Range(1, totalPages));
    }
    var middleCount := maxPages - 2;
    var half := middleCount / 2;
    var start := Max(2, currentPage - half);
    var end := Min(totalPages - 1, start + middleCount - 1);
    start := Max(2, end - middleCount + 1);
    assert end == WindowEnd(currentPage, totalPages, maxPages);
    assert start == WindowStart(currentPage, totalPages, maxPages);

    var head := [PageNumber(1)];
    if start > 2 {
      head := head + [EllipsisStart];
    }
    pages := AppendRun(head, start, end);
    var tail := if end < totalPages - 1 then [EllipsisEnd] else [];
    pages := pages + tail + [PageNumber(totalPages)];
    LayoutNumbers(head, Range(start, end), tail, totalPages);
    assert pages[0] == head[0];
  }

  /** The `for (let i = start; i <= end; i++) pages.push(i)` loop. */
  method AppendRun(prefix: seq<PageItem>, start: int, end: int) returns (pages: seq<PageItem>)
    ensures pages == prefix + AsItems(Range(start, end))
  {
    pages := prefix;
    var i := start;
    while i <= end
      invariant start <= i <= Max(start, end + 1)
      invariant pages == prefix + AsItems(Range(start, i - 1))
    {
      AsItemsRangeSnoc(start, i - 1);
      pages := pages + [PageNumber(i)];
      i := i + 1;
    }
    if start > end {
      assert Range(start, i - 1) == [] == Range(start, end);
    }
  }

  /** The numeric entries and the ellipses of `head + middle + tail + [last]`. */
  lemma LayoutNumbers(head: seq<PageItem>, middle: seq<int>, tail: seq<PageItem>, last: int)
    requires head == [PageNumber(1)] || head == [PageNumber(1), EllipsisStart]
    requires tail == [] || tail == [EllipsisEnd]
    ensures var pages := head + AsItems(middle) + tail + [PageNumber(last)];
      && Numbers(pages) == [1] + middle + [last]
      && (EllipsisStart in pages <==> EllipsisStart in head)
      && (EllipsisEnd in pages <==> EllipsisEnd in tail)
  {
    var mid := AsItems(middle);
    NumbersAppend(head, mid);
    NumbersAppend(head + mid, tail);
    NumbersAppend(head + mid + tail, [PageNumber(last)]);
    NumbersOfItems(middle);
    assert Numbers(head) == [1] by {
      if |head| == 2 {
        NumbersAppend([PageNumber(1)], [EllipsisStart]);
        assert head == [PageNumber(1)] + [EllipsisStart];
      }
    }
    assert Numbers(tail) == [];
    assert Numbers([PageNumber(last)]) == [last];
    assert EllipsisStart !in mid && EllipsisEnd !in mid;
  }

  /** Outside the short case the numeric entries start at 1, end at
      `totalPages` and increase strictly, all within `1..totalPages`. */
  lemma WindowIsOrdered(currentPage: int, totalPages: int, maxPages: int)
    requires 1 <= maxPages < totalPages
    ensures var ns := [1] + Range(WindowStart(currentPage, totalPages, maxPages),
                                  WindowEnd(currentPage, totalPages, maxPages)) + [totalPages];
      && StrictlyIncreasing(ns)
      && (forall k :: 0 <= k < |ns| ==> 1 <= ns[k] <= totalPages)
  {
    var start := WindowStart(currentPage, totalPages, maxPages);
    var end := WindowEnd(currentPage, totalPages, maxPages);
    var mid := Range(start, end);
    var ns := [1] + mid + [totalPages];
    forall i, j | 0 <= i < j < |ns|
      ensures ns[i] < ns[j]
    {
      if i == 0 {
        if j < |ns| - 1 { assert ns[j] == mid[j - 1]; }
      } else if j < |ns| - 1 {
        assert ns[i] == mid[i - 1] && ns[j] == mid[j - 1];
      } else {
        assert ns[i] == mid[i - 1];
      }
    }
    forall k | 0 <= k < |ns|
      ensures 1 <= ns[k] <= totalPages
    {
      if 0 < k < |ns| - 1 { assert ns[k] == mid[k - 1]; }
    }
  }

  /** With room for at least one middle page, the middle run is exactly
      `maxPages - 2` long and the current page is always one of the numbers shown. */
  lemma WindowShowsCurrentPage(currentPage: int, totalPages: int, maxPages: int)
    requires 3 <= maxPages < totalPages
    requires 1 <= currentPage <= totalPages
    ensures |Range(WindowStart(currentPage, totalPages, maxPages),
                   WindowEnd(currentPage, totalPages, maxPages))| == maxPages - 2
    ensures currentPage in [1] + Range(WindowStart(currentPage, totalPages, maxPages),
                                       WindowEnd(currentPage, totalPages, maxPages)) + [totalPages]
  {
    var start := WindowStart(currentPage, totalPages, maxPages);
    var end := WindowEnd(currentPage, totalPages, maxPages);
    var half := (maxPages - 2) / 2;
    assert 0 <= half <= maxPages - 3;
    var ns := [1] + Range(start, end) + [totalPages];
    if 1 < currentPage < totalPages {
      assert start <= currentPage <= end;
      assert ns[currentPage - start + 1] == currentPage;
    } else if currentPage == totalPages {
      assert ns[|ns| - 1] == totalPages;
    } else {
      assert ns[0] == 1;
    }
  }

  /** The state `usePaginatedArray` hands to its caller for a stored page. */
  datatype View<T> = View(
    pageNumber: int,
    currentPage: seq<T>,
    emptySlots: int,
    totalPages: nat,
    indexArr: seq<PageItem>)

  /** `usePaginatedArray(array, { rowsPer, maxPages })` at stored page `page`;
      `maxPages == 0` stands for the option being absent. */
  method UsePaginatedArray<T>(a: seq<T>, page: int, rowsPer: nat, maxPages: nat)
    returns (view: View<T>)
    requires rowsPer > 0
    ensures view.totalPages == TotalPages(|a|, rowsPer)
    ensures view.currentPage == GetPage(a, rowsPer, page)
    ensures 0 <= view.emptySlots <= rowsPer
    ensures view.emptySlots + |view.currentPage| == rowsPer
    ensures view.pageNumber == page
    ensures maxPages == 0 ==> view.indexArr == AsItems(IndexArr(view.totalPages))
    ensures maxPages > 0 && view.totalPages <= maxPages ==> view.indexArr == AsItems(IndexArr(view.totalPages))
    ensures maxPages > 0 && view.totalPages > maxPages ==>
      && |view.indexArr| >= 2
      && view.indexArr[0] == PageNumber(1)
      && view.indexArr[|view.indexArr| - 1] == PageNumber(view.totalPages)
      && Numbers(view.indexArr) == [1] + Range(WindowStart(page, view.totalPages, maxPages),
                                               WindowEnd(page, view.totalPages, maxPages)) + [view.totalPages]
      && StrictlyIncreasing(Numbers(view.indexArr))
      && (forall k :: 0 <= k < |Numbers(view.indexArr)| ==> 1 <= Numbers(view.indexArr)[k] <= view.totalPages)
  {
    var totalPages := TotalPages(|a|, rowsPer);
    var current := GetPage(a, rowsPer, page);
    var indexArr;
    if maxPages > 0 {
      indexArr := BuildIndexArr(page, totalPages, maxPages);
      if totalPages > maxPages {
        WindowIsOrdered(page, totalPages, maxPages);
      } else {
        assert IndexArr(totalPages) == Range(1, totalPages);
      }
    } else {
      indexArr := AsItems(IndexArr(totalPages));
    }
    view := View(page, current, rowsPer - |current|, totalPages, indexArr);
  }
}
