/**
  Pagination of the filtered list: a fixed page size of 5, the number of
  pages, the window shown for the current page, and the page buttons.
 */
module Paging {
  import opened Sequences

  const PageSize: nat := 5

  /** `Math.ceil(n / pageSize)`, in integer arithmetic: the least number of
      pages that holds `n` items. */
  function PageCount(n: nat): (c: nat)
    ensures c * PageSize >= n
    ensures n > 0 ==> (c - 1) * PageSize < n
    ensures n == 0 ==> c == 0
  {
    (n + PageSize - 1) / PageSize
  }

  /** The ceiling is unique: any page count that holds the items and would
      not with one page fewer is `PageCount(n)`. */
  lemma PageCountIsCeiling(n: nat, c: nat)
    requires c * PageSize >= n
    requires (c - 1) * PageSize < n
    ensures c == PageCount(n)
  {
  }

  /** How `slice` reads an index: a negative one counts from the end, and
      both kinds are clamped to `0..len`. */
  function RelativeIndex(i: int, len: nat): (k: nat)
    ensures k <= len
    ensures 0 <= i ==> k == Min(i, len)
    ensures i < 0 && len + i >= 0 ==> k == len + i
    ensures len + i < 0 ==> k == 0
  {
    if i < 0 then (if len + i < 0 then 0 else len + i)
    else Min(i, len)
  }

  /** `s.slice(start, end)`. */
  function Slice<T>(s: seq<T>, start: int, end: int): (r: seq<T>)
    ensures |r| <= |s|
    ensures 0 <= start <= end ==> r == s[Min(start, |s|)..Min(end, |s|)]
    ensures end <= start && (start < 0 <==> end < 0) ==> r == []
  {
    var from := RelativeIndex(start, |s|);
    var to := RelativeIndex(end, |s|);
    if from < to then s[from..to] else []
  }

  /** `displayedUsers`: the slice from `startIndex` to `endIndex` for the
      1-based `currentPage`. It holds at most a page of items, it is the
      window `(p-1)*5 .. p*5` cut at the end of the list, and a page past
      the end is empty. */
  function DisplayedPage<T>(items: seq<T>, currentPage: int): (r: seq<T>)
    ensures currentPage >= 1 ==> |r| <= PageSize
    ensures currentPage >= 1 ==>
      r == items[Min((currentPage - 1) * PageSize, |items|)..Min(currentPage * PageSize, |items|)]
    ensures currentPage >= 1 && (currentPage - 1) * PageSize >= |items| ==> r == []
  {
    var startIndex := (currentPage - 1) * PageSize;
    var endIndex := startIndex + PageSize;
    Slice(items, startIndex, endIndex)
  }

  /** The numbers on the page buttons: `pageNumber + 1` for each key of
      `Array(pageCount)`. */
  function PageButtons(pageCount: nat): (b: seq<int>)
    ensures |b| == pageCount
    ensures forall k :: 0 <= k < |b| ==> b[k] == k + 1
  {
    seq(pageCount, k => k + 1)
  }

  /** Every page button names a page between 1 and the page count, and that
      page shows at least one item. */
  lemma PageButtonsValid<T>(items: seq<T>)
    ensures forall b :: b in PageButtons(PageCount(|items|)) ==>
      1 <= b <= PageCount(|items|) && DisplayedPage(items, b) != []
  {
  }

  /** The pages named in `pages`, shown one after another. */
  function ConcatPages<T>(items: seq<T>, pages: seq<int>): (r: seq<T>)
  {
    if pages == [] then []
    else ConcatPages(items, pages[..|pages| - 1]) + DisplayedPage(items, pages[|pages| - 1])
  }

  /** The first `k` pages shown one after another are the first `k * 5`
      items (or all of them). */
  lemma {:induction false} FirstPagesArePrefix<T>(items: seq<T>, k: nat)
    ensures ConcatPages(items, PageButtons(k)) == items[..Min(k * PageSize, |items|)]
  {
    if k > 0 {
      assert PageButtons(k)[..k - 1] == PageButtons(k - 1);
      FirstPagesArePrefix(items, k - 1);
      var lo := Min((k - 1) * PageSize, |items|);
      var hi := Min(k * PageSize, |items|);
      assert items[..hi] == items[..lo] + items[lo..hi];
    }
  }

  /** The pages of all the buttons, shown one after another, give back the
      whole list: the pages neither overlap nor leave anything out. */
  lemma PagesCoverList<T>(items: seq<T>)
    ensures ConcatPages(items, PageButtons(PageCount(|items|))) == items
  {
    FirstPagesArePrefix(items, PageCount(|items|));
  }
}
