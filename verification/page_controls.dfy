/**
 * The page-control row of `renderPagination`: a "previous" button, page
 * buttons with ellipses standing for runs of hidden pages, and a "next"
 * button.
 */
module PageControls {

  /** One control. Page buttons are never disabled; the ellipsis is a plain
      marker, not a button. */
  datatype PageItem =
    | Prev(target: int, disabled: bool)
    | Page(number: int, active: bool)
    | Ellipsis
    | Next(target: int, disabled: bool)

  /** The loop renders page `i` as a button: the first page, the last page,
      and every page within two of the current one. */
  predicate Shown(i: int, cp: int, total: int) {
    i == 1 || i == total || (cp - 2 <= i <= cp + 2)
  }

  /** What one iteration of the loop appends for page `i`. */
  function Slot(i: int, cp: int, total: int): seq<PageItem> {
    if Shown(i, cp, total) then [Page(i, i == cp)]
    else if i == cp - 3 || i == cp + 3 then [Ellipsis]
    else []
  }

  /** What the iterations for pages `a` to `b` append, in order. */
  function Segment(cp: int, total: int, a: int, b: int): seq<PageItem>
    decreases b - a
  {
    if b < a then [] else Segment(cp, total, a, b - 1) + Slot(b, cp, total)
  }

  /** The whole row for current page `cp` of `total`. */
  function Controls(cp: int, total: int): seq<PageItem> {
    [Prev(cp - 1, cp == 1)] + Segment(cp, total, 1, total) + [Next(cp + 1, cp == total)]
  }

  /** `renderPagination`'s loop, appending one control at a time. */
  method BuildControls(cp: int, total: int) returns (items: seq<PageItem>)
    ensures items == Controls(cp, total)
  {
    items := [Prev(cp - 1, cp == 1)];
    var i := 1;
    while i <= total
      invariant 1 <= i && (i <= total + 1 || i == 1)
      invariant items == [Prev(cp - 1, cp == 1)] + Segment(cp, total, 1, i - 1)
    {
      if i == 1 || i == total || (i >= cp - 2 && i <= cp + 2) {
        items := items + [Page(i, i == cp)];
      } else if i == cp - 3 || i == cp + 3 {
        items := items + [Ellipsis];
      }
      i := i + 1;
    }
    items := items + [Next(cp + 1, cp == total)];
  }

  /** Page buttons `lo` to `hi` in a row. */
  function Run(lo: int, hi: int, cp: int): (r: seq<PageItem>)
    ensures |r| == if hi < lo then 0 else hi - lo + 1
    ensures forall k :: 0 <= k < |r| ==> r[k] == Page(lo + k, lo + k == cp)
  {
    if hi < lo then [] else seq(hi - lo + 1, k requires 0 <= k < hi - lo + 1 => Page(lo + k, lo + k == cp))
  }

  function WindowLow(cp: int): int {
    if cp - 2 < 1 then 1 else cp - 2
  }

  function WindowHigh(cp: int, total: int): int {
    if cp + 2 > total then total else cp + 2
  }

  lemma {:induction false} SegmentSplit(cp: int, total: int, a: int, m: int, b: int)
    requires a - 1 <= m <= b
    ensures Segment(cp, total, a, b) == Segment(cp, total, a, m) + Segment(cp, total, m + 1, b)
    decreases b - m
  {
    if m < b {
      SegmentSplit(cp, total, a, m, b - 1);
    }
  }

  lemma {:induction false} SegmentHidden(cp: int, total: int, a: int, b: int)
    requires forall i :: a <= i <= b ==> Slot(i, cp, total) == []
    ensures Segment(cp, total, a, b) == []
    decreases b - a
  {
    if a <= b {
      SegmentHidden(cp, total, a, b - 1);
    }
  }

  lemma {:induction false} SegmentRun(cp: int, total: int, a: int, b: int)
    requires forall i :: a <= i <= b ==> Slot(i, cp, total) == [Page(i, i == cp)]
    ensures Segment(cp, total, a, b) == Run(a, b, cp)
    decreases b - a
  {
    if a <= b {
      SegmentRun(cp, total, a, b - 1);
      assert Run(a, b, cp) == Run(a, b - 1, cp) + [Page(b, b == cp)];
    }
  }

  /** Page 1, followed by an ellipsis when pages are hidden between it and
      the window; nothing when page 1 is inside the window. */
  function LeftEdge(cp: int): seq<PageItem> {
    var lo := WindowLow(cp);
    if lo == 1 then [] else if lo == 2 then [Page(1, false)] else [Page(1, false), Ellipsis]
  }

  /** The last page, preceded by an ellipsis when pages are hidden between
      the window and it; nothing when it is inside the window. */
  function RightEdge(cp: int, total: int): seq<PageItem> {
    var hi := WindowHigh(cp, total);
    if hi == total then [] else if hi == total - 1 then [Page(total, false)] else [Ellipsis, Page(total, false)]
  }

  /** The page buttons and ellipses described directly: the left edge, the
      window of pages around the current one, the right edge. */
  function Layout(cp: int, total: int): seq<PageItem>
    requires 1 <= cp <= total
  {
    LeftEdge(cp) + Run(WindowLow(cp), WindowHigh(cp, total), cp) + RightEdge(cp, total)
  }

  /** The iterations before the window append `LeftEdge`. */
  lemma SegmentBeforeWindow(cp: int, total: int)
    requires 1 <= cp <= total
    ensures Segment(cp, total, 1, WindowLow(cp) - 1) == LeftEdge(cp)
  {
    var lo := WindowLow(cp);
    if lo >= 3 {
      assert lo == cp - 2;
      forall i | 2 <= i <= lo - 2 ensures Slot(i, cp, total) == [] {
        assert !Shown(i, cp, total) && i != cp - 3 && i != cp + 3;
      }
      SegmentSplit(cp, total, 1, 1, lo - 1);
      SegmentSplit(cp, total, 2, lo - 2, lo - 1);
      SegmentHidden(cp, total, 2, lo - 2);
      assert Segment(cp, total, lo - 1, lo - 1) == Slot(lo - 1, cp, total) == [Ellipsis];
      assert Segment(cp, total, 1, 1) == Slot(1, cp, total) == [Page(1, false)];
    } else if lo == 2 {
      assert Segment(cp, total, 1, 1) == Slot(1, cp, total) == [Page(1, false)];
    }
  }

  /** The iterations after the window append `RightEdge`. */
  lemma SegmentAfterWindow(cp: int, total: int)
    requires 1 <= cp <= total
    ensures Segment(cp, total, WindowHigh(cp, total) + 1, total) == RightEdge(cp, total)
  {
    var hi := WindowHigh(cp, total);
    if hi <= total - 2 {
      assert hi == cp + 2;
      forall i | hi + 2 <= i <= total - 1 ensures Slot(i, cp, total) == [] {
        assert !Shown(i, cp, total) && i != cp - 3 && i != cp + 3;
      }
      SegmentSplit(cp, total, hi + 1, hi + 1, total);
      SegmentSplit(cp, total, hi + 2, total - 1, total);
      SegmentHidden(cp, total, hi + 2, total - 1);
      assert Segment(cp, total, hi + 1, hi + 1) == Slot(hi + 1, cp, total) == [Ellipsis];
      assert Segment(cp, total, total, total) == Slot(total, cp, total) == [Page(total, false)];
    } else if hi == total - 1 {
      assert Segment(cp, total, total, total) == Slot(total, cp, total) == [Page(total, false)];
    }
  }

  /** The loop's output equals the direct description. */
  lemma SegmentIsLayout(cp: int, total: int)
    requires 1 <= cp <= total
    ensures Segment(cp, total, 1, total) == Layout(cp, total)
  {
    var lo, hi := WindowLow(cp), WindowHigh(cp, total);
    SegmentSplit(cp, total, 1, lo - 1, total);
    SegmentSplit(cp, total, lo, hi, total);
    SegmentRun(cp, total, lo, hi);
    SegmentBeforeWindow(cp, total);
    SegmentAfterWindow(cp, total);
  }

  /** The row opens with "previous" (disabled exactly on page 1) and closes
      with "next" (disabled exactly on the last page); between them lie the
      page buttons and ellipses of `Layout`. */
  lemma ControlsShape(cp: int, total: int)
    requires 1 <= cp <= total
    ensures Controls(cp, total) == [Prev(cp - 1, cp == 1)] + Layout(cp, total) + [Next(cp + 1, cp == total)]
  {
    SegmentIsLayout(cp, total);
  }

  /** Page `n` has a button exactly when it is the first, the last, or within
      two of the current page; that button is active exactly when `n` is the
      current page. */
  lemma LayoutPages(cp: int, total: int)
    requires 1 <= cp <= total
    ensures forall n, a :: Page(n, a) in Layout(cp, total) <==>
      1 <= n <= total && Shown(n, cp, total) && a == (n == cp)
  {
    var lo, hi := WindowLow(cp), WindowHigh(cp, total);
    var run := Run(lo, hi, cp);
    forall n, a ensures Page(n, a) in run <==> lo <= n <= hi && a == (n == cp) {
      if lo <= n <= hi && a == (n == cp) {
        assert run[n - lo] == Page(n, a);
      }
    }
  }

  /** Page numbers rise strictly from left to right. */
  lemma LayoutIncreasing(cp: int, total: int)
    requires 1 <= cp <= total
    ensures var l := Layout(cp, total);
      forall j, k :: 0 <= j < k < |l| && l[j].Page? && l[k].Page? ==> l[j].number < l[k].number
  {
    var lo, hi := WindowLow(cp), WindowHigh(cp, total);
    var left, run, right := LeftEdge(cp), Run(lo, hi, cp), RightEdge(cp, total);
    var l := Layout(cp, total);
    var n1, n2 := |left|, |left| + |run|;
    assert forall k :: 0 <= k < n1 ==> l[k] == left[k];
    assert forall k :: n1 <= k < n2 ==> l[k] == run[k - n1];
    assert forall k :: n2 <= k < |l| ==> l[k] == right[k - n2];
    forall j, k | 0 <= j < k < |l| && l[j].Page? && l[k].Page? ensures l[j].number < l[k].number {
      if j < n1 {
        assert l[j].number == 1;
      }
      if n2 <= k {
        assert l[k].number == total;
      }
    }
  }

  /** The ellipsis at `k` sits between two page buttons: either page 1 and
      the window's first page `cp - 2`, with pages hidden between them, or
      the window's last page `cp + 2` and the last page, with pages hidden
      between them. */
  predicate FlankedEllipsis(l: seq<PageItem>, k: int, cp: int, total: int)
    requires 0 <= k < |l|
  {
    && 0 < k < |l| - 1 && l[k - 1].Page? && l[k + 1].Page?
    && ((l[k - 1].number == 1 && l[k + 1].number == cp - 2 && cp - 3 > 1)
     || (l[k - 1].number == cp + 2 && l[k + 1].number == total && cp + 3 < total))
  }

  /** Every ellipsis is flanked as `FlankedEllipsis` says, so there is at
      most one on each side of the current page. */
  lemma LayoutEllipses(cp: int, total: int)
    requires 1 <= cp <= total
    ensures var l := Layout(cp, total);
      forall k :: 0 <= k < |l| && l[k] == Ellipsis ==> FlankedEllipsis(l, k, cp, total)
  {
    var lo, hi := WindowLow(cp), WindowHigh(cp, total);
    var left, run, right := LeftEdge(cp), Run(lo, hi, cp), RightEdge(cp, total);
    var l := Layout(cp, total);
    var n1, n2 := |left|, |left| + |run|;
    forall k | 0 <= k < |l| && l[k] == Ellipsis
      ensures FlankedEllipsis(l, k, cp, total)
    {
      assert lo <= cp <= hi;
      if k < n1 {
        assert l[k] == left[k];
        assert left == [Page(1, false), Ellipsis] && lo == cp - 2;
        assert k == 1 && l[0] == Page(1, false);
        assert l[2] == run[0] == Page(lo, lo == cp);
      } else if k < n2 {
        assert false;
      } else {
        assert l[k] == right[k - n2];
        assert right == [Ellipsis, Page(total, false)] && hi == cp + 2;
        assert k == n2 && l[k + 1] == Page(total, false);
        assert l[k - 1] == run[|run| - 1] == Page(hi, hi == cp);
      }
    }
  }

  /** Page buttons next to each other carry consecutive numbers: a gap in
      the numbering is always marked by an ellipsis. */
  lemma LayoutAdjacentPages(cp: int, total: int)
    requires 1 <= cp <= total
    ensures var l := Layout(cp, total);
      forall k :: 0 <= k < |l| - 1 && l[k].Page? && l[k + 1].Page? ==> l[k + 1].number == l[k].number + 1
  {
    var lo, hi := WindowLow(cp), WindowHigh(cp, total);
    var left, run, right := LeftEdge(cp), Run(lo, hi, cp), RightEdge(cp, total);
    var l := Layout(cp, total);
    var n1, n2 := |left|, |left| + |run|;
    forall k | 0 <= k < |l| - 1 && l[k].Page? && l[k + 1].Page?
      ensures l[k + 1].number == l[k].number + 1
    {
      if k < n1 {
        assert l[k] == left[k];
        if k + 1 == n1 {
          assert l[k + 1] == run[0];
        } else {
          assert false;
        }
      } else if k + 1 < n2 {
        assert l[k] == run[k - n1] && l[k + 1] == run[k + 1 - n1];
      } else if k + 1 == n2 {
        assert l[k] == run[|run| - 1] && l[k + 1] == right[0];
      } else {
        assert false;
      }
    }
  }

  /** Exactly one page button is active, and it is the current page's. */
  lemma LayoutOneActive(cp: int, total: int)
    requires 1 <= cp <= total
    ensures var l := Layout(cp, total);
      exists k :: 0 <= k < |l| && l[k] == Page(cp, true)
    ensures var l := Layout(cp, total);
      forall j, k :: 0 <= j < |l| && 0 <= k < |l| && l[j].Page? && l[j].active && l[k].Page? && l[k].active ==> j == k
  {
    var l := Layout(cp, total);
    LayoutPages(cp, total);
    LayoutIncreasing(cp, total);
    assert Page(cp, true) in l;
    forall j, k | 0 <= j < |l| && 0 <= k < |l| && l[j].Page? && l[j].active && l[k].Page? && l[k].active
      ensures j == k
    {
      assert l[j] in l && l[k] in l;
    }
  }

  /** Whether a click on the control does anything. */
  predicate Clickable(item: PageItem) {
    match item
    case Prev(_, disabled) => !disabled
    case Page(_, _) => true
    case Ellipsis => false
    case Next(_, disabled) => !disabled
  }

  /** The page a click on the control moves to. */
  function Target(item: PageItem): int
    requires Clickable(item)
  {
    match item
    case Prev(t, _) => t
    case Page(n, _) => n
    case Next(t, _) => t
  }

  /** Whatever control the user can click, the page it moves to lies in
      `[1, total]`. */
  lemma ClickTargetsInRange(cp: int, total: int)
    requires 1 <= cp <= total
    ensures forall item :: item in Controls(cp, total) && Clickable(item) ==> 1 <= Target(item) <= total
  {
    var l, c := Layout(cp, total), Controls(cp, total);
    ControlsShape(cp, total);
    LayoutInRange(cp, total);
    forall item | item in c && Clickable(item) ensures 1 <= Target(item) <= total {
      var i :| 0 <= i < |c| && c[i] == item;
      if 0 < i < |c| - 1 {
        assert item == l[i - 1];
      }
    }
  }

  /** Between "previous" and "next" there are only ellipses and buttons for
      pages of the list. */
  lemma LayoutInRange(cp: int, total: int)
    requires 1 <= cp <= total
    ensures var l := Layout(cp, total);
      forall k :: 0 <= k < |l| ==> l[k] == Ellipsis || (l[k].Page? && 1 <= l[k].number <= total)
  {
    var lo, hi := WindowLow(cp), WindowHigh(cp, total);
    var left, run, right := LeftEdge(cp), Run(lo, hi, cp), RightEdge(cp, total);
    var l := Layout(cp, total);
    var n1, n2 := |left|, |left| + |run|;
    forall k | 0 <= k < |l| ensures l[k] == Ellipsis || (l[k].Page? && 1 <= l[k].number <= total) {
      if k < n1 {
        assert l[k] == left[k];
      } else if k < n2 {
        assert l[k] == run[k - n1];
      } else {
        assert l[k] == right[k - n2];
      }
    }
  }

  /** Current page 10 of 20: 1, ..., 8 to 12, ..., 20. */
  lemma TenOfTwenty()
    ensures Controls(10, 20) == [Prev(9, false), Page(1, false), Ellipsis,
      Page(8, false), Page(9, false), Page(10, true), Page(11, false), Page(12, false),
      Ellipsis, Page(20, false), Next(11, false)]
  {
    ControlsShape(10, 20);
  }

  /** Current page 5 of 9: each ellipsis stands for a single hidden page (2
      and 8), which the loop renders as a marker rather than as its number. */
  lemma SingleHiddenPagesBecomeEllipses()
    ensures Controls(5, 9) == [Prev(4, false), Page(1, false), Ellipsis,
      Page(3, false), Page(4, false), Page(5, true), Page(6, false), Page(7, false),
      Ellipsis, Page(9, false), Next(6, false)]
  {
    ControlsShape(5, 9);
  }
}
