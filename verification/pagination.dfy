/** Client-side pagination: the slice of the filtered list shown on the current
    page, and the previous/next page buttons. */
module Pagination {

  function Max(a: int, b: int): int { if a >= b then a else b }
  function Min(a: int, b: int): int { if a <= b then a else b }

  /** Where an `Array.prototype.slice` argument lands in a list of length `len`
      (ECMA-262, Array.prototype.slice): a negative value counts back from the
      end, and the result is clipped to 0 .. len. */
  function RelativeIndex(k: int, len: nat): (r: nat)
    ensures r <= len
    ensures 0 <= k <= len ==> r == k
  {
    if k < 0 then Max(len + k, 0) else Min(k, len)
  }

  /** `s.slice(start, end)`: never fails; an out-of-range or inverted range gives
      an empty list. */
  function Slice<T>(s: seq<T>, start: int, end: int): (r: seq<T>)
    ensures |r| == Max(0, RelativeIndex(end, |s|) - RelativeIndex(start, |s|))
    ensures forall i :: 0 <= i < |r| ==> r[i] == s[RelativeIndex(start, |s|) + i]
  {
    var from := RelativeIndex(start, |s|);
    var to := RelativeIndex(end, |s|);
    if from < to then s[from..to] else []
  }

  /** `r` is the window of `s` that starts at `start` and holds `count` elements,
      cut short where `s` ends. */
  ghost predicate IsWindow<T>(s: seq<T>, start: int, count: int, r: seq<T>)
  {
    && |r| == Max(0, Min(count, |s| - start))
    && forall i :: 0 <= i < |r| ==> 0 <= start + i < |s| && r[i] == s[start + i]
  }

  /** A slice of `count` elements from a non-negative `start` is that window. */
  lemma SliceWindow<T>(s: seq<T>, start: int, count: int)
    requires start >= 0 && count >= 0
    ensures IsWindow(s, start, count, Slice(s, start, start + count))
  {
    assert RelativeIndex(start, |s|) == Min(start, |s|);
    assert RelativeIndex(start + count, |s|) == Min(start + count, |s|);
  }

  /** The rows shown on `currentPage` (1-based) with `rowsPerPage` rows a page:
      `filtered.slice(startIndex, startIndex + rowsPerPage)`. For the page numbers
      the component produces (at least 1) the slice starts at `startIndex`, holds
      at most `rowsPerPage` rows, and holds fewer only where the list runs out. */
  function VisibleRows<T>(filtered: seq<T>, currentPage: int, rowsPerPage: int): (r: seq<T>)
    ensures currentPage >= 1 && rowsPerPage >= 0 ==>
              IsWindow(filtered, (currentPage - 1) * rowsPerPage, rowsPerPage, r)
  {
    var startIndex := (currentPage - 1) * rowsPerPage;
    var endIndex := startIndex + rowsPerPage;
    if currentPage >= 1 && rowsPerPage >= 0 then
      StartIndexNonNegative(currentPage, rowsPerPage);
      SliceWindow(filtered, startIndex, rowsPerPage);
      Slice(filtered, startIndex, endIndex)
    else
      Slice(filtered, startIndex, endIndex)
  }

  /** Pages from 1 on start at a non-negative index. */
  lemma StartIndexNonNegative(currentPage: int, rowsPerPage: int)
    requires currentPage >= 1 && rowsPerPage >= 0
    ensures (currentPage - 1) * rowsPerPage >= 0
  {
  }

  /** The page starting at or past the end of the list shows nothing; this is what
      happens when a smaller filtered list or a larger page size leaves
      `currentPage` out of range, since nothing moves it back. */
  lemma PastTheEndIsEmpty<T>(filtered: seq<T>, currentPage: int, rowsPerPage: int)
    requires currentPage >= 1 && rowsPerPage >= 0
    ensures VisibleRows(filtered, currentPage, rowsPerPage) == [] <==>
              rowsPerPage == 0 || (currentPage - 1) * rowsPerPage >= |filtered|
  {
  }

  /** Every row of the filtered list is shown on exactly the page its index falls
      into, at the matching position: the pages cover the list with nothing lost. */
  lemma EveryRowHasItsPage<T>(filtered: seq<T>, rowsPerPage: int, i: int)
    requires rowsPerPage >= 1
    requires 0 <= i < |filtered|
    ensures var page := VisibleRows(filtered, i / rowsPerPage + 1, rowsPerPage);
            i % rowsPerPage < |page| && page[i % rowsPerPage] == filtered[i]
  {
    var q := i / rowsPerPage;
    var m := i % rowsPerPage;
    assert q * rowsPerPage + m == i;
    assert q >= 0;
    assert (q + 1 - 1) * rowsPerPage == q * rowsPerPage;
  }

  /** A list of 23 rows shown 10 at a time: rows 0-9, 10-19, 20-22, then nothing. */
  lemma TwentyThreeRowsTenPerPage<T>(filtered: seq<T>)
    requires |filtered| == 23
    ensures VisibleRows(filtered, 1, 10) == filtered[0..10]
    ensures VisibleRows(filtered, 2, 10) == filtered[10..20]
    ensures VisibleRows(filtered, 3, 10) == filtered[20..23]
    ensures VisibleRows(filtered, 4, 10) == []
  {
  }

  /** The previous-page button: one page back, never below page 1. */
  function PrevPage(page: int): (r: int)
    ensures r >= 1
    ensures page > 1 ==> r == page - 1
    ensures page <= 1 ==> r == 1
  {
    Max(page - 1, 1)
  }

  /** The next-page button: one page forward only while rows remain beyond the
      current page (`prev * rowsPerPage < filteredCharacters.length`). */
  function NextPage(page: int, rowsPerPage: int, len: int): (r: int)
    ensures r == page || r == page + 1
    ensures r == page + 1 <==> page * rowsPerPage < len
  {
    if page * rowsPerPage < len then page + 1 else page
  }

  /** Next stays put exactly when the following page would show nothing. */
  lemma NextStopsAtLastPage<T>(filtered: seq<T>, page: int, rowsPerPage: int)
    requires page >= 1 && rowsPerPage >= 1
    ensures NextPage(page, rowsPerPage, |filtered|) == page <==>
              VisibleRows(filtered, page + 1, rowsPerPage) == []
  {
    PastTheEndIsEmpty(filtered, page + 1, rowsPerPage);
  }

  /** Next never lands on an empty page when started from a non-empty one. */
  lemma NextKeepsRowsVisible<T>(filtered: seq<T>, page: int, rowsPerPage: int)
    requires page >= 1 && rowsPerPage >= 1
    requires VisibleRows(filtered, page, rowsPerPage) != []
    ensures VisibleRows(filtered, NextPage(page, rowsPerPage, |filtered|), rowsPerPage) != []
  {
    PastTheEndIsEmpty(filtered, page + 1, rowsPerPage);
  }

  /** Previous undoes a Next that moved. */
  lemma PrevUndoesNext(page: int, rowsPerPage: int, len: int)
    requires page >= 1
    requires NextPage(page, rowsPerPage, len) != page
    ensures PrevPage(NextPage(page, rowsPerPage, len)) == page
  {
  }

  /** Next undoes a Previous that moved, exactly when the page it left had rows. */
  lemma NextUndoesPrev<T>(filtered: seq<T>, page: int, rowsPerPage: int)
    requires page > 1 && rowsPerPage >= 1
    ensures NextPage(PrevPage(page), rowsPerPage, |filtered|) == page <==>
              VisibleRows(filtered, page, rowsPerPage) != []
  {
    PastTheEndIsEmpty(filtered, page, rowsPerPage);
  }
}
