// The two mutually recursive passes of WaveSort and its entry point
// (wavesort.c: downwave, upwave, wave_sort). Ranges are inclusive [start,
// end] in the C code and [start, end + 1) in the predicates of Ranges.

module Wave {
  import opened Ranges
  import opened Partition
  import opened BlockSwap

  /** t's [lo, hi) is an ascending rearrangement of s's, and nothing else differs. */
  ghost predicate SortedInto(s: seq<int>, t: seq<int>, lo: int, hi: int)
  {
    PermutedWithin(s, t, lo, hi) && Ascending(t, lo, hi)
  }

  /** t[q] is a pivot of [lo, hi): at least everything before it, at most everything after it. */
  ghost predicate PivotAt(t: seq<int>, lo: int, q: int, hi: int)
  {
    0 <= lo <= q < hi <= |t| && AllAtMost(t, lo, q, t[q]) && AllAtLeast(t, q + 1, hi, t[q])
  }

  // ---------------------------------------------------------------------
  // Facts the cases of downwave combine.
  // ---------------------------------------------------------------------

  /** An ascending range that a change elsewhere does not touch stays ascending. */
  lemma AscendingOutside(s: seq<int>, t: seq<int>, lo: int, hi: int, x: int, y: int)
    requires SameOutside(s, t, lo, hi) && (y <= lo || hi <= x) && Ascending(s, x, y)
    ensures Ascending(t, x, y)
  {
    forall i, j | x <= i < j < y && 0 <= i && j < |t| ensures t[i] <= t[j] {
      assert s[i] <= s[j];
    }
  }

  /**
   * A pivot with both sides sorted: sorting [lo, q) and then (q, hi) of a
   * range with a pivot at q sorts the whole range.
   */
  lemma SortAroundPivot(t: seq<int>, u: seq<int>, w: seq<int>, lo: int, q: int, hi: int)
    requires PivotAt(t, lo, q, hi)
    requires SortedInto(t, u, lo, q) && SortedInto(u, w, q + 1, hi)
    ensures SortedInto(t, w, lo, hi)
  {
    PermutedKeepsBounds(t, u, lo, q, t[q]);
    PermutedKeepsBounds(u, w, q + 1, hi, t[q]);
    AscendingOutside(u, w, q + 1, hi, lo, q);
    AscendingAroundPivot(w, lo, q, hi);
  }

  /**
   * Partition found nothing above the pivot t[q] (the partition split is
   * sortedStart): [start, q) is all at most t[q], and the sorted suffix from
   * q + 1 on is at least t[q], so sorting [start, q) sorts everything.
   */
  lemma AllBelowPivot(s: seq<int>, t: seq<int>, u: seq<int>, start: int, sortedStart: int, q: int, end: int)
    requires 0 <= start < sortedStart <= q <= end < |s|
    requires Ascending(s, sortedStart, end + 1)
    requires PermutedWithin(s, t, start, sortedStart) && AllAtMost(t, start, sortedStart, s[q])
    requires SortedInto(t, u, start, q)
    ensures SortedInto(s, u, start, end + 1)
  {
    AscendingOutside(s, t, start, sortedStart, sortedStart, end + 1);
    assert PivotAt(t, start, q, end + 1);
    AscendingOutside(t, u, start, q, q + 1, end + 1);
    SortAroundPivot(t, u, u, start, q, end + 1);
  }

  /** After block_swap the cells behind the moved right block keep a lower bound of the old left block. */
  lemma SwappedTail(t: seq<int>, u: seq<int>, m: int, sortedStart: int, p: int, v: int, k: int)
    requires BlocksSwapped(t, u, m, sortedStart, p) && AllAtLeast(t, m, sortedStart, v)
    requires m + (p - sortedStart + 1) <= k <= p
    ensures u[k] >= v
  {
    var lr := p - sortedStart + 1;
    BlocksSwappedTail(t, u, m, sortedStart, p);
    assert u[m + lr..p + 1][k - (m + lr)] == u[k];
    assert u[k] in multiset(t[m..sortedStart]);
    var i :| 0 <= i < sortedStart - m && t[m..sortedStart][i] == u[k];
    assert t[m + i] == u[k];
  }

  /**
   * After the partition split m < sortedStart and block_swap of [m,
   * sortedStart) with [sortedStart, p]: the pivot has arrived at split =
   * m + p - sortedStart, with the elements at most the pivot before it and
   * those at least the pivot after it.
   */
  lemma AfterRotationPivot(s: seq<int>, t: seq<int>, u: seq<int>, start: int, m: int, sortedStart: int, p: int, end: int)
    requires 0 <= start <= m < sortedStart <= p <= end < |s|
    requires |t| == |s| && Ascending(t, sortedStart, end + 1) && t[p] == s[p]
    requires AllAtMost(t, start, m, s[p]) && AllAtLeast(t, m, sortedStart, s[p])
    requires BlocksSwapped(t, u, m, sortedStart, p)
    ensures u[m + (p - sortedStart)] == s[p] && PivotAt(u, start, m + (p - sortedStart), end + 1)
  {
    var split := m + (p - sortedStart);
    forall k | start <= k < split ensures u[k] <= s[p] {
      if k >= m {
        assert u[k] == t[k - m + sortedStart];
      } else {
        assert u[k] == t[k];
      }
    }
    forall k | split < k < end + 1 ensures u[k] >= s[p] {
      if k <= p {
        SwappedTail(t, u, m, sortedStart, p, s[p], k);
      } else {
        assert u[k] == t[k];
      }
    }
  }

  /** The part of the old sorted block moved in front of the pivot and the suffix after p stay ascending. */
  lemma AfterRotationAscending(t: seq<int>, u: seq<int>, m: int, sortedStart: int, p: int, end: int)
    requires 0 <= m < sortedStart <= p <= end < |t|
    requires Ascending(t, sortedStart, end + 1)
    requires BlocksSwapped(t, u, m, sortedStart, p)
    ensures Ascending(u, m, m + (p - sortedStart)) && Ascending(u, p + 1, end + 1)
  {
    AscendingOutside(t, u, m, p + 1, p + 1, end + 1);
    forall i, j | m <= i < j < m + (p - sortedStart) ensures u[i] <= u[j] {
      assert u[i] == t[i - m + sortedStart] && u[j] == t[j - m + sortedStart];
    }
  }

  // ---------------------------------------------------------------------
  // The passes.
  // ---------------------------------------------------------------------

  /**
   * downwave: merges the unsorted [start, sortedStart) into the ascending
   * [sortedStart, end]. It partitions the unsorted part around the middle
   * element p of the sorted part, moves [sortedStart, p] down in front of
   * the elements above the pivot, and recurses on the two sides of the
   * pivot, each of which again ends in a non-empty sorted run. The guards
   * `sorted_start > 0`, `p > 0`, `m > 0` and `split_point > 0` of the C code
   * only protect unsigned subtraction and always hold; they are asserted.
   */
  method Downwave(a: array<int>, start: int, sortedStart: int, end: int)
    requires 0 <= start <= sortedStart <= end < a.Length
    requires Ascending(a[..], sortedStart, end + 1)
    modifies a
    ensures SortedInto(old(a[..]), a[..], start, end + 1)
    decreases end - start, 2
  {
    ghost var s := a[..];
    if sortedStart == start {
      PermutedRefl(s, start, end + 1);
      return;
    }
    var p := sortedStart + (end - sortedStart) / 2;
    var m := Partition.Partition(a, start, sortedStart, p);
    ghost var t := a[..];
    AscendingOutside(s, t, start, sortedStart, sortedStart, end + 1);
    if m == sortedStart {
      if p == sortedStart {
        assert sortedStart > 0;
        Upwave(a, start, sortedStart - 1);
      } else {
        assert p > 0;
        Downwave(a, start, sortedStart, p - 1);
      }
      AllBelowPivot(s, t, a[..], start, sortedStart, p, end);
    } else {
      BlockSwap.BlockSwap(a, m, sortedStart, p);
      ghost var u := a[..];
      AfterRotationPivot(s, t, u, start, m, sortedStart, p, end);
      AfterRotationAscending(t, u, m, sortedStart, p, end);
      DownwaveSides(a, start, m, sortedStart, p, end);
    }
  }

  /**
   * The rest of downwave once block_swap has put the pivot at split = m + p
   * - sortedStart: the range left of the pivot ends in the ascending run
   * [m, split), the range right of it ends in the ascending run (p, end],
   * and the two sides are sorted one after the other.
   */
  method DownwaveSides(a: array<int>, start: int, m: int, sortedStart: int, p: int, end: int)
    requires 0 <= start <= m < sortedStart <= p <= end < a.Length
    requires p == sortedStart + (end - sortedStart) / 2
    requires PivotAt(a[..], start, m + (p - sortedStart), end + 1)
    requires Ascending(a[..], m, m + (p - sortedStart)) && Ascending(a[..], p + 1, end + 1)
    modifies a
    ensures SortedInto(old(a[..]), a[..], start, end + 1)
    decreases end - start, 1
  {
    ghost var u := a[..];
    SortLeftOfPivot(a, start, m, sortedStart, p);
    ghost var w := a[..];
    AscendingOutside(u, w, start, m + (p - sortedStart), p + 1, end + 1);
    SortRightOfPivot(a, m, sortedStart, p, end);
    SortAroundPivot(u, w, a[..], start, m + (p - sortedStart), end + 1);
  }

  /**
   * Sorts the left side [start, split) of the pivot: nothing to do when m ==
   * start (it is the ascending run alone), upwave when the run is empty (p
   * == sortedStart, so split == m), and downwave into the run otherwise.
   */
  method SortLeftOfPivot(a: array<int>, start: int, m: int, sortedStart: int, p: int)
    requires 0 <= start <= m < sortedStart <= p < a.Length
    requires Ascending(a[..], m, m + (p - sortedStart))
    modifies a
    ensures SortedInto(old(a[..]), a[..], start, m + (p - sortedStart))
    decreases m + (p - sortedStart) - start, 0
  {
    ghost var u := a[..];
    if m == start {
      PermutedRefl(u, start, m + (p - sortedStart));
    } else if p == sortedStart {
      assert m > 0;
      Upwave(a, start, m - 1);
    } else {
      var rightPartLen := p - sortedStart;
      var splitPoint := m + rightPartLen;
      assert splitPoint > 0;
      Downwave(a, start, m, splitPoint - 1);
    }
  }

  /**
   * Sorts the right side (split, end] of the pivot: upwave when the run
   * after p is all there is to merge into (p == sortedStart) and downwave
   * into the run (p, end] otherwise. The C code writes the start of that
   * downwave as m + p_next - sorted_start when m == start; it is split + 1
   * either way.
   */
  method SortRightOfPivot(a: array<int>, m: int, sortedStart: int, p: int, end: int)
    requires 0 <= m < sortedStart <= p <= end < a.Length
    requires p == sortedStart + (end - sortedStart) / 2
    requires Ascending(a[..], p + 1, end + 1)
    modifies a
    ensures SortedInto(old(a[..]), a[..], m + (p - sortedStart) + 1, end + 1)
    decreases end - (m + (p - sortedStart)), 0
  {
    if p == sortedStart {
      Upwave(a, m + 1, end);
    } else {
      var splitPoint := m + (p - sortedStart);
      Downwave(a, splitPoint + 1, p + 1, end);
    }
  }

  /**
   * upwave: sorts [start, end] by growing a sorted suffix leftwards. Each
   * round merges the window [leftBound, sortedStart) into the suffix with
   * downwave; the next window reaches 2 * sortedLen + 1 cells left of end,
   * clamped to start. The rounds stop once the suffix is more than a
   * quarter of the range or reaches start, and a last downwave merges what
   * is left. The C code's `end == 0` return and its `left_bound < start`
   * clamp cannot fire for start < end; they are asserted.
   */
  method Upwave(a: array<int>, start: int, end: int)
    requires 0 <= start <= end < a.Length
    modifies a
    ensures SortedInto(old(a[..]), a[..], start, end + 1)
    decreases end - start, 3
  {
    if start == end {
      return;
    }
    ghost var s := a[..];
    var sortedStart := end;
    var sortedLen := 1;
    assert end != 0;
    var leftBound := end - 1;
    var totalLen := end - start + 1;
    while true
      invariant start <= leftBound < sortedStart <= end
      invariant Ascending(a[..], sortedStart, end + 1)
      invariant PermutedWithin(s, a[..], start, end + 1)
      decreases sortedStart - start
    {
      Downwave(a, leftBound, sortedStart, end);
      sortedStart := leftBound;
      sortedLen := end - sortedStart + 1;
      if totalLen < sortedLen * 4 {
        break;
      }
      var nextExpansion := sortedLen * 2 + 1;
      if end < nextExpansion || end - nextExpansion < start {
        leftBound := start;
      } else {
        leftBound := end - nextExpansion;
      }
      assert leftBound >= start;
      if sortedStart == start {
        break;
      }
    }
    Downwave(a, start, sortedStart, end);
  }

  /**
   * wave_sort: sorts the first n cells of the array in place. Fewer than two
   * cells are left alone.
   */
  method WaveSort(a: array<int>, n: int)
    requires 0 <= n <= a.Length
    modifies a
    ensures SortedInto(old(a[..]), a[..], 0, n)
    ensures n < 2 ==> a[..] == old(a[..])
  {
    if n < 2 {
      return;
    }
    Upwave(a, 0, n - 1);
  }

  /**
   * The sorted result is determined by the input: two ascending
   * rearrangements of the same range agree. In particular WaveSort leaves
   * an already ascending prefix unchanged.
   */
  lemma SortedIntoUnique(s: seq<int>, t: seq<int>, u: seq<int>, lo: int, hi: int)
    requires SortedInto(s, t, lo, hi) && SortedInto(s, u, lo, hi)
    ensures t == u
  {
    AscendingSlice(t, lo, hi);
    AscendingSlice(u, lo, hi);
    PermutedSlices(s, t, lo, hi);
    PermutedSlices(s, u, lo, hi);
    AscendingUnique(t[lo..hi], u[lo..hi]);
    assert t == t[..lo] + t[lo..hi] + t[hi..];
    assert u == u[..lo] + u[lo..hi] + u[hi..];
    assert t[..lo] == s[..lo] == u[..lo];
    assert t[hi..] == s[hi..] == u[hi..];
  }

  /** An ascending range is an ascending sequence once cut out. */
  lemma AscendingSlice(t: seq<int>, lo: int, hi: int)
    requires 0 <= lo <= hi <= |t| && Ascending(t, lo, hi)
    ensures Ascending(t[lo..hi], 0, hi - lo)
  {
    forall i, j | 0 <= i < j < hi - lo ensures t[lo..hi][i] <= t[lo..hi][j] {
      assert t[lo + i] <= t[lo + j];
    }
  }

  /** An already ascending range is its own sorted rearrangement. */
  lemma SortedInputStays(s: seq<int>, t: seq<int>, lo: int, hi: int)
    requires Ascending(s, lo, hi) && SortedInto(s, t, lo, hi)
    ensures t == s
  {
    PermutedRefl(s, lo, hi);
    SortedIntoUnique(s, t, s, lo, hi);
  }
}
