/** The pager shared by the admin client's posts, categories and users pages:
    the page buttons (`getPaginationNumbers`, written out identically in the
    three pages), the page-change guard and the "showing up to" count. */
module Pagination {
  import PostQueries

  /** How many pages are shown on each side of the current one. */
  const Delta: int := 2

  /** The entry that stands for an ellipsis. */
  const Dots: int := -1

  function Max(a: int, b: int): int { if a < b then b else a }
  function Min(a: int, b: int): int { if a < b then a else b }

  /** The consecutive pages `lo`, `lo + 1`, …, `hi`; empty when `lo > hi`. */
  function Window(lo: int, hi: int): (r: seq<int>)
    decreases hi - lo
    ensures |r| == if lo <= hi then hi - lo + 1 else 0
    ensures forall k :: 0 <= k < |r| ==> r[k] == lo + k
  {
    if lo > hi then [] else [lo] + Window(lo + 1, hi)
  }

  /** First page of the window around `cur`. */
  function WindowStart(cur: int): int { Max(2, cur - Delta) }

  /** Last page of the window around `cur` among `total` pages. */
  function WindowEnd(cur: int, total: int): int { Min(total - 1, cur + Delta) }

  /** An ellipsis follows page 1. */
  predicate LeftDots(cur: int) { cur - Delta > 2 }

  /** An ellipsis precedes the last page. */
  predicate RightDots(cur: int, total: int) { cur + Delta < total - 1 }

  /** The button row as a declarative description: page 1, perhaps an
      ellipsis, the window, perhaps an ellipsis, the last page. */
  function Buttons(cur: int, total: int): seq<int> {
    (if LeftDots(cur) then [1, Dots] else [1])
    + Window(WindowStart(cur), WindowEnd(cur, total))
    + (if RightDots(cur, total) then [Dots, total] else [total])
  }

  /** `getPaginationNumbers`: collects the window in a loop, then frames it
      with page 1, the last page and the ellipses. */
  method PaginationNumbers(cur: int, total: int) returns (r: seq<int>)
    ensures r == Buttons(cur, total)
  {
    var lo := WindowStart(cur);
    var hi := WindowEnd(cur, total);
    var range: seq<int> := [];
    var i := lo;
    while i <= hi
      invariant lo <= i <= Max(lo, hi + 1)
      invariant |range| == i - lo
      invariant forall k :: 0 <= k < |range| ==> range[k] == lo + k
      decreases hi - i
    {
      range := range + [i];
      i := i + 1;
    }
    assert range == Window(lo, hi);
    if cur - Delta > 2 {
      r := [1, -1];
    } else {
      r := [1];
    }
    r := r + range;
    if cur + Delta < total - 1 {
      r := r + [-1, total];
    } else {
      r := r + [total];
    }
  }

  /** The row starts with page 1, ends with the last page and has at most
      nine entries. */
  lemma ButtonsFrame(cur: int, total: int)
    ensures |Buttons(cur, total)| <= 9
    ensures Buttons(cur, total)[0] == 1
    ensures Buttons(cur, total)[|Buttons(cur, total)| - 1] == total
  {
    var w := Window(WindowStart(cur), WindowEnd(cur, total));
    assert |w| <= 5;
  }

  /** For a current page within range, an ellipsis follows page 1 exactly
      when the window starts past page 3, and one precedes the last page
      exactly when the window ends before the last page but one. */
  lemma {:induction false} ButtonsDots(cur: int, total: int)
    requires 1 <= cur <= total
    ensures |Buttons(cur, total)| >= 2
    ensures Buttons(cur, total)[1] == Dots <==> cur - Delta > 2
    ensures Buttons(cur, total)[|Buttons(cur, total)| - 2] == Dots <==> cur + Delta < total - 1
  {
    var b := Buttons(cur, total);
    var lo, hi := WindowStart(cur), WindowEnd(cur, total);
    var w := Window(lo, hi);
    var head: seq<int> := if LeftDots(cur) then [1, Dots] else [1];
    var tail: seq<int> := if RightDots(cur, total) then [Dots, total] else [total];
    assert b == head + w + tail;
    if !LeftDots(cur) {
      if |w| > 0 {
        assert b[1] == w[0] == lo;
      } else {
        assert b[1] == tail[0];
        assert hi < 2 && total <= 2;
      }
    }
    if !RightDots(cur, total) {
      if |w| > 0 {
        assert b[|b| - 2] == w[|w| - 1] == hi;
      } else if !LeftDots(cur) {
        assert b[|b| - 2] == 1;
      }
    }
  }

  /** Apart from the ellipses, a row of two or more pages counts strictly
      upwards, and every entry between the first and the last lies in the
      window around the current page. */
  lemma {:induction false} ButtonsIncreasing(cur: int, total: int)
    requires total >= 2
    ensures forall i, j :: 0 <= i < j < |Buttons(cur, total)| && Buttons(cur, total)[i] != Dots && Buttons(cur, total)[j] != Dots
              ==> Buttons(cur, total)[i] < Buttons(cur, total)[j]
    ensures forall i :: 0 < i < |Buttons(cur, total)| - 1 && Buttons(cur, total)[i] != Dots
              ==> WindowStart(cur) <= Buttons(cur, total)[i] <= WindowEnd(cur, total)
  {
    var b := Buttons(cur, total);
    var lo, hi := WindowStart(cur), WindowEnd(cur, total);
    var w := Window(lo, hi);
    var head: seq<int> := if LeftDots(cur) then [1, Dots] else [1];
    var tail: seq<int> := if RightDots(cur, total) then [Dots, total] else [total];
    assert b == head + w + tail;
    // Rank of a non-ellipsis entry: 1 for page 1, the page itself inside the
    // window, and the last page at the end.
    forall i | 0 <= i < |b| && b[i] != Dots
      ensures (i == 0 && b[i] == 1)
           || (|head| <= i < |head| + |w| && b[i] == w[i - |head|] && lo <= b[i] <= hi)
           || (i == |b| - 1 && b[i] == total)
    {
      if i < |head| {
        assert i == 0;
      } else if i < |head| + |w| {
      } else {
        assert i == |b| - 1;
      }
    }
  }

  /** Every page of the window appears in the row. */
  lemma ButtonsShowWindow(cur: int, total: int, p: int)
    requires WindowStart(cur) <= p <= WindowEnd(cur, total)
    ensures p in Buttons(cur, total)
  {
    var lo := WindowStart(cur);
    var w := Window(lo, WindowEnd(cur, total));
    assert w[p - lo] == p;
  }

  /** A single page shows its number twice. */
  lemma SinglePageRow()
    ensures Buttons(1, 1) == [1, 1]
  {
    assert Window(2, 0) == [];
  }

  /** With no results the server reports zero pages and page 1; the row is
      then page 1 followed by a "page 0" button. */
  lemma EmptyListRow()
    ensures Buttons(1, 0) == [1, 0]
  {
    assert Window(2, -1) == [];
  }

  /** The page a list shows after `onPageChange(page)`, and whether it
      reloads. */
  datatype Navigation = Navigation(current: int, reload: bool)

  /** `onPageChange`: moves to `page` and reloads only when it is a real
      page; any other request leaves the list as it is. */
  function OnPageChange(cur: int, totalPages: int, page: int): (r: Navigation)
    ensures r.reload <==> 1 <= page <= totalPages
    ensures r.reload ==> r.current == page
    ensures !r.reload ==> r.current == cur
  {
    if 1 <= page && page <= totalPages then Navigation(page, true) else Navigation(cur, false)
  }

  /** A current page within range stays within range, and repeating a
      request changes nothing further. */
  lemma OnPageChangeStaysInRange(cur: int, totalPages: int, page: int)
    requires 1 <= cur <= totalPages
    ensures 1 <= OnPageChange(cur, totalPages, page).current <= totalPages
    ensures OnPageChange(OnPageChange(cur, totalPages, page).current, totalPages, page).current
            == OnPageChange(cur, totalPages, page).current
  {
  }

  /** `getMaxPage`: the number of the last item the current page shows. */
  function MaxItem(cur: int, pageSize: int, total: int): (r: int)
    ensures r <= total
    ensures r <= cur * pageSize
    ensures r == total || r == cur * pageSize
  {
    Min(cur * pageSize, total)
  }

  /** On any page the server can report for a non-empty list, the last item
      shown lies on that page: past the previous page's items, and no
      further than this page's. */
  lemma {:induction false} MaxItemOnPage(cur: PostQueries.Positive, pageSize: PostQueries.Positive, total: nat)
    requires total > 0
    requires cur <= PostQueries.CeilDiv(total, pageSize)
    ensures (cur - 1) * pageSize < MaxItem(cur, pageSize, total) <= cur * pageSize
  {
    var pages := PostQueries.CeilDiv(total, pageSize);
    PostQueries.MulMonotone(cur - 1, pages - 1, pageSize);
    assert cur * pageSize == (cur - 1) * pageSize + pageSize;
  }
}
