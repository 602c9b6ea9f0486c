/** Page sizing and page arithmetic of the product list: the responsive page-size policy,
    the page count, and the `slice` that cuts one page out of a list. */
module Paging {

  /** The three flags the media-query hook reports; nothing forces exactly one to be set. */
  datatype Viewport = Viewport(isMobile: bool, isTablet: bool, isDesktop: bool)

  const InitialPageSize: int := 10
  const MobilePageSize: int := 4
  const TabletPageSize: int := 6
  const DesktopPageSize: int := 10

  /** One of the page sizes the policy can produce. */
  predicate IsPageSize(n: int)
  {
    n == MobilePageSize || n == TabletPageSize || n == DesktopPageSize
  }

  /** At least one flag is set. */
  predicate Reports(v: Viewport)
  {
    v.isMobile || v.isTablet || v.isDesktop
  }

  /** The page-size effect: the flags are tried in priority order (mobile, tablet, desktop);
      with no flag set the current size is kept. */
  function NextPageSize(current: int, v: Viewport): (r: int)
    ensures Reports(v) ==> IsPageSize(r)
    ensures !Reports(v) ==> r == current
    ensures v.isMobile ==> r == MobilePageSize
    ensures !v.isMobile && v.isTablet ==> r == TabletPageSize
    ensures !v.isMobile && !v.isTablet && v.isDesktop ==> r == DesktopPageSize
  {
    if v.isMobile then MobilePageSize
    else if v.isTablet then TabletPageSize
    else if v.isDesktop then DesktopPageSize
    else current
  }

  /** The page size after the effect has run once for each viewport of `history`, oldest
      first, starting from the initial size. */
  function PageSizeAfter(history: seq<Viewport>): (r: int)
    ensures IsPageSize(r)
  {
    if history == [] then InitialPageSize
    else NextPageSize(PageSizeAfter(history[..|history| - 1]), history[|history| - 1])
  }

  /** No viewport of `history` has a flag set. */
  ghost predicate NeverReports(history: seq<Viewport>)
  {
    forall i :: 0 <= i < |history| ==> !Reports(history[i])
  }

  /** `history[i]` is the last viewport of `history` with a flag set. */
  ghost predicate LastReport(history: seq<Viewport>, i: int)
  {
    0 <= i < |history| && Reports(history[i]) && NeverReports(history[i + 1..])
  }

  /** Whatever the viewports seen, the page size is 4, 6 or 10: the size the last viewport
      with a flag set maps to, or the initial 10 when no viewport ever set a flag. */
  lemma {:induction false} PageSizeAfterHistory(history: seq<Viewport>)
    ensures IsPageSize(PageSizeAfter(history))
    ensures NeverReports(history) ==> PageSizeAfter(history) == InitialPageSize
    ensures forall i :: LastReport(history, i) ==>
              PageSizeAfter(history) == NextPageSize(InitialPageSize, history[i])
  {
    if history != [] {
      var n := |history| - 1;
      var earlier := history[..n];
      PageSizeAfterHistory(earlier);
      if Reports(history[n]) {
        forall i | LastReport(history, i)
          ensures i == n
        {
        }
      } else {
        if NeverReports(history) {
          assert NeverReports(earlier) by {
            forall i | 0 <= i < n ensures !Reports(earlier[i]) {
              assert earlier[i] == history[i];
            }
          }
        }
        forall i | LastReport(history, i)
          ensures LastReport(earlier, i)
        {
          assert i != n;
          assert earlier[i] == history[i];
          assert earlier[i + 1..] == history[i + 1..n];
        }
      }
    }
  }

  /** `Math.ceil(n / d)` for a positive divisor: the least number of pages of `d` items that
      holds `n` items. (Dafny's `/` rounds down when the divisor is positive.) */
  function CeilDiv(n: int, d: int): (q: int)
    requires d > 0
    ensures (q - 1) * d < n <= q * d
  {
    var f := (-n) / d;
    assert f * d <= -n < f * d + d;
    -f
  }

  /** For a non-negative count the page count is `(n + d - 1) / d`; it is 0 exactly when there
      is nothing to show and at least 1 exactly when there is something. */
  lemma TotalPagesOfCount(n: int, d: int)
    requires n >= 0 && d > 0
    ensures CeilDiv(n, d) == (n + d - 1) / d
    ensures CeilDiv(n, d) == 0 <==> n == 0
    ensures CeilDiv(n, d) >= 1 <==> n > 0
  {
    var q := CeilDiv(n, d);
    assert q * d - d < n <= q * d;
    assert q * d <= n + d - 1 < q * d + d;
    DivIsUnique(n + d - 1, d, q);
    if q == 0 {
      assert n <= 0;
    }
    if n == 0 {
      assert (q - 1) * d < 0;
      assert q < 1;
    }
  }

  /** The quotient of `m` by `d` is the `q` with `q * d <= m < q * d + d`. */
  lemma DivIsUnique(m: int, d: int, q: int)
    requires d > 0
    requires q * d <= m < q * d + d
    ensures m / d == q
  {
    var f := m / d;
    assert f * d <= m < f * d + d;
    var k := q - f;
    assert k * d == q * d - f * d;
    if k >= 1 {
      MulAtLeast(k, d);
    } else if k <= -1 {
      MulAtLeast(-k, d);
    }
  }

  /** A positive multiple of `d` is at least `d`. */
  lemma MulAtLeast(k: int, d: int)
    requires k >= 1 && d >= 0
    ensures k * d >= d
  {
    assert k * d == (k - 1) * d + d;
    assert (k - 1) * d >= 0;
  }

  /** How `slice` resolves one bound against a list of length `len`: a negative bound counts
      back from the end, and the result is clamped to `[0, len]`. */
  function SliceBound(k: int, len: nat): (r: nat)
    ensures r <= len
    ensures 0 <= k <= len ==> r == k
    ensures k >= len ==> r == len
    ensures k < 0 ==> r == Max(len + k, 0)
  {
    if k < 0 then (if len + k < 0 then 0 else len + k)
    else if k < len then k
    else len
  }

  /** `r` is the run of `s` that starts at position `from`. */
  ghost predicate IsRunAt<T>(r: seq<T>, s: seq<T>, from: int)
  {
    0 <= from <= |s| - |r| && r == s[from..from + |r|]
  }

  /** `slice(start, end)`: the elements from the resolved start up to the resolved end, or
      nothing when the resolved end is not past the resolved start. */
  function Slice<T>(s: seq<T>, start: int, end: int): (r: seq<T>)
    ensures |r| <= |s|
    ensures start <= end ==> |r| <= end - start
    ensures exists from :: IsRunAt(r, s, from)
  {
    var from, to := SliceBound(start, |s|), SliceBound(end, |s|);
    if from < to then
      assert IsRunAt(s[from..to], s, from);
      s[from..to]
    else
      assert IsRunAt([], s, 0);
      []
  }

  /** Index of the first item of page `page` (1-based) when each page holds `size` items;
      from page 1 on it is not negative. */
  function PageStart(page: int, size: int): (r: int)
    ensures page >= 1 && size >= 0 ==> r >= 0
    ensures page <= 0 && size >= 0 ==> r <= -size
  {
    if page > 1 && size >= 0 then MulAtLeast(page - 1, size); (page - 1) * size
    else if page <= 0 && size >= 0 then
      MulAtLeast(1 - page, size);
      assert (page - 1) * size == -((1 - page) * size);
      (page - 1) * size
    else (page - 1) * size
  }

  /** Index one past the last item of page `page`: a page is `size` items wide. */
  function PageEnd(page: int, size: int): (r: int)
    ensures r == PageStart(page, size) + size
  {
    NextMultiple(page - 1, size);
    page * size
  }

  /** The next multiple of `d` after `k * d`. */
  lemma NextMultiple(k: int, d: int)
    ensures k * d + d == (k + 1) * d
  {
  }

  /** The window of page `page`: the `slice` from `PageStart` to `PageEnd`. It is a run of the
      list, never longer than a page. */
  function PageWindow<T>(s: seq<T>, page: int, size: int): (r: seq<T>)
    ensures size >= 0 ==> |r| <= size
    ensures exists from :: IsRunAt(r, s, from)
  {
    Slice(s, PageStart(page, size), PageEnd(page, size))
  }

  /** The smaller of two numbers. */
  function Min(a: int, b: int): int
  {
    if a < b then a else b
  }

  /** The larger of two numbers. */
  function Max(a: int, b: int): int
  {
    if a < b then b else a
  }

  /** Whatever the page number, a window holds at most `size` items. From page 1 on it is the
      part of the list between the two bounds cut at the list's end, and it is empty once its
      start lies at or past the end. Page 0 shows nothing, because its end bound is 0. A page
      below 0 has two negative bounds, so it counts back from the end of the list: page -1 with
      10 items per page shows the items from `|s| - 20` up to `|s| - 10`, each bound floored
      at 0. */
  lemma PageWindowSpec<T>(s: seq<T>, page: int, size: int)
    requires size >= 0
    ensures |PageWindow(s, page, size)| <= size
    ensures page >= 1 ==>
              PageWindow(s, page, size) ==
              s[Min(PageStart(page, size), |s|)..Min(PageEnd(page, size), |s|)]
    ensures page >= 1 && PageStart(page, size) >= |s| ==> PageWindow(s, page, size) == []
    ensures page == 0 ==> PageWindow(s, page, size) == []
    ensures page < 0 ==>
              PageWindow(s, page, size) ==
              s[Max(|s| + PageStart(page, size), 0)..Max(|s| + PageEnd(page, size), 0)]
  {
    if page >= 1 {
      SliceOfRange(s, PageStart(page, size), PageEnd(page, size));
    } else if page == 0 || size == 0 {
      SliceToZero(s, PageStart(page, size));
    } else {
      SliceFromEnd(s, PageStart(page, size), PageEnd(page, size));
    }
  }

  /** For instance, with 25 items and 10 per page, page 0 shows nothing and page -1 shows the
      items from 5 up to 15, as `slice(-20, -10)` does. */
  lemma PagesBelowOneExample<T>(s: seq<T>)
    requires |s| == 25
    ensures PageWindow(s, 0, 10) == []
    ensures PageWindow(s, -1, 10) == s[5..15]
  {
    PageWindowSpec(s, 0, 10);
    PageWindowSpec(s, -1, 10);
  }

  /** For negative bounds `slice` counts both bounds back from the end of the list, flooring
      each at the list's start. */
  lemma SliceFromEnd<T>(s: seq<T>, start: int, end: int)
    requires start <= end < 0
    ensures Slice(s, start, end) == s[Max(|s| + start, 0)..Max(|s| + end, 0)]
  {
  }

  /** An end bound of 0 is not counted from the end: `slice` then gives nothing, whatever the
      start. */
  lemma SliceToZero<T>(s: seq<T>, start: int)
    ensures Slice(s, start, 0) == []
  {
  }

  /** For non-negative bounds `slice` is the plain sub-list between the bounds cut at the end. */
  lemma SliceOfRange<T>(s: seq<T>, start: int, end: int)
    requires 0 <= start <= end
    ensures Slice(s, start, end) == s[Min(start, |s|)..Min(end, |s|)]
  {
  }
}
