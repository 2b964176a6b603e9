/**
 * The visible slice of `renderTable` and the page count of
 * `renderPagination`.
 */
module Paging {

  function Min(a: int, b: int): int {
    if a <= b then a else b
  }

  /** `Math.ceil(len / perPage)`: the fewest pages of `perPage` items that
      hold `len` items. */
  function TotalPages(len: nat, perPage: nat): (t: nat)
    requires perPage > 0
    ensures t * perPage >= len
    ensures t == 0 || (t - 1) * perPage < len
    ensures t == 0 <==> len == 0
  {
    var t := (len + perPage - 1) / perPage;
    var r := (len + perPage - 1) % perPage;
    assert len + perPage - 1 == t * perPage + r;
    assert (t - 1) * perPage == t * perPage - perPage;
    t
  }

  /** An index argument of `Array.prototype.slice`: negative values count
      from the end, and the result is clamped to `[0, len]`. */
  function SliceIndex(i: int, len: nat): (r: nat)
    ensures r <= len
  {
    if i < 0 then (if len + i < 0 then 0 else len + i)
    else if i > len then len
    else i
  }

  function Slice<T>(s: seq<T>, start: int, end: int): seq<T> {
    var from, to := SliceIndex(start, |s|), SliceIndex(end, |s|);
    if from < to then s[from..to] else []
  }

  /** The products `renderTable` shows for `page`. */
  function PageSlice<T>(s: seq<T>, page: int, perPage: int): seq<T> {
    var start := (page - 1) * perPage;
    Slice(s, start, start + perPage)
  }

  /** The slice of `n` items from a non-negative `start`, cut off at the
      end of the list. */
  lemma WindowAt<T>(s: seq<T>, start: int, n: int)
    requires start >= 0 && n >= 1
    ensures Slice(s, start, start + n) == s[Min(start, |s|)..Min(start + n, |s|)]
    ensures |Slice(s, start, start + n)| <= n
  {
  }

  /** Page `page` is the window `[(page-1)*perPage, page*perPage)` cut off at
      the end of the list, so it holds at most `perPage` products. */
  lemma PageSliceWindow<T>(s: seq<T>, page: int, perPage: int)
    requires page >= 1 && perPage >= 1
    ensures PageSlice(s, page, perPage) ==
      s[Min((page - 1) * perPage, |s|)..Min(page * perPage, |s|)]
    ensures |PageSlice(s, page, perPage)| <= perPage
  {
    var start := (page - 1) * perPage;
    MulPred(page, perPage);
    MulNonNegative(page - 1, perPage);
    WindowAt(s, start, perPage);
    assert start + perPage == page * perPage;
  }

  lemma MulNonNegative(a: int, b: int)
    requires a >= 0 && b >= 0
    ensures a * b >= 0
  {
  }

  lemma MulMonotone(a: int, b: int, n: int)
    requires a <= b && n >= 0
    ensures a * n <= b * n
  {
    MulNonNegative(b - a, n);
    assert b * n - a * n == (b - a) * n;
  }

  lemma MulPred(k: int, n: int)
    ensures (k - 1) * n == k * n - n
  {
  }

  /** Every page from 1 to the page count holds at least one product. */
  lemma PagesInRangeNonEmpty<T>(s: seq<T>, page: int, perPage: int)
    requires perPage >= 1 && 1 <= page <= TotalPages(|s|, perPage)
    ensures PageSlice(s, page, perPage) != []
  {
    FirstIndexInRange(|s|, perPage, page);
    PageSliceWindow(s, page, perPage);
  }

  /** The first index of a page within the page count is an index of the
      list. */
  lemma FirstIndexInRange(len: nat, perPage: int, page: int)
    requires perPage >= 1 && 1 <= page <= TotalPages(len, perPage)
    ensures (page - 1) * perPage < len
  {
    var t := TotalPages(len, perPage);
    MulMonotone(page - 1, t - 1, perPage);
  }

  /** Pages 1 to `k` laid end to end. */
  function PagesUpTo<T>(s: seq<T>, perPage: int, k: nat): seq<T>
    decreases k
  {
    if k == 0 then [] else PagesUpTo(s, perPage, k - 1) + PageSlice(s, k, perPage)
  }

  lemma {:induction false} PagesUpToPrefix<T>(s: seq<T>, perPage: int, k: nat)
    requires perPage >= 1
    ensures PagesUpTo(s, perPage, k) == s[..Min(k * perPage, |s|)]
    decreases k
  {
    if k > 0 {
      PagesUpToPrefix(s, perPage, k - 1);
      PageSliceWindow(s, k, perPage);
      MulPred(k, perPage);
      MulNonNegative(k - 1, perPage);
      var a, b := Min((k - 1) * perPage, |s|), Min(k * perPage, |s|);
      assert 0 <= a <= b <= |s|;
      PrefixThenWindow(s, a, b);
    }
  }

  lemma PrefixThenWindow<T>(s: seq<T>, a: int, b: int)
    requires 0 <= a <= b <= |s|
    ensures s[..a] + s[a..b] == s[..b]
  {
  }

  /** The pages 1 to `TotalPages` tile the list: laid end to end they give
      back the whole list, each product once and in order. */
  lemma PagesTileList<T>(s: seq<T>, perPage: int)
    requires perPage >= 1
    ensures PagesUpTo(s, perPage, TotalPages(|s|, perPage)) == s
  {
    PagesUpToPrefix(s, perPage, TotalPages(|s|, perPage));
  }
}
