// Hoare partition of the half-open range [l, r) around the value held at a
// pivot index (wavesort.c: partition).

module Partition {
  import opened Ranges

  /** [l, lo) holds values at most the pivot and [hi, r) values at least the pivot. */
  ghost predicate Split(t: seq<int>, l: int, lo: int, hi: int, r: int, pivot: int)
  {
    AllAtMost(t, l, lo, pivot) && AllAtLeast(t, hi, r, pivot)
  }

  /** Exchanging the two cells where the scans stopped extends both sides by one. */
  lemma SwapExtendsSplit(s: seq<int>, t: seq<int>, l: int, i: int, j: int, r: int, pivot: int)
    requires PermutedWithin(s, t, l, r) && l <= i < j < r
    requires Split(t, l, i, j + 1, r, pivot) && t[i] >= pivot && t[j] <= pivot
    ensures PermutedWithin(s, t[i := t[j]][j := t[i]], l, r)
    ensures Split(t[i := t[j]][j := t[i]], l, i + 1, j, r, pivot)
  {
    SwapPermutes(t, i, j, l, r);
  }

  /**
   * Partitions [l, r) around pivot = a[pIdx] and returns the split m:
   * every cell of [l, m) is at most the pivot and every cell of [m, r) at
   * least the pivot. Two cursors move towards each other: i stops at the
   * first cell that is at least the pivot, j at the first one from the
   * right that is at most the pivot, then the two are exchanged; the run
   * stops as soon as the cursors meet. The pivot value is read once, so
   * pIdx may lie anywhere in the array. The C code starts i at l - 1 in
   * unsigned arithmetic, which wraps for l == 0 and is undone by the first
   * increment; here i is an unbounded integer.
   */
  method Partition(a: array<int>, l: int, r: int, pIdx: int) returns (m: int)
    requires 0 <= l <= r <= a.Length && 0 <= pIdx < a.Length
    modifies a
    ensures l <= m <= r
    ensures Split(a[..], l, m, m, r, old(a[pIdx]))
    ensures PermutedWithin(old(a[..]), a[..], l, r)
    ensures !(l <= pIdx < r) ==> a[pIdx] == old(a[pIdx])
  {
    ghost var s := a[..];
    var pivot := a[pIdx];
    var i := l - 1;
    var j := r;
    while true
      invariant l - 1 <= i < j <= r
      invariant Split(a[..], l, i + 1, j, r, pivot)
      invariant PermutedWithin(s, a[..], l, r)
      decreases j - i
    {
      ghost var t := a[..];
      while true
        invariant l - 1 <= i < j && Split(t, l, i + 1, j, r, pivot)
        decreases j - i
      {
        i := i + 1;
        if i == j {
          return i;
        }
        assert l <= i < r;
        if a[i] >= pivot {
          break;
        }
      }
      while true
        invariant i < j && Split(t, l, i, j, r, pivot) && t[i] >= pivot
        decreases j - i
      {
        j := j - 1;
        if j == i {
          return i;
        }
        assert l <= j < r;
        if a[j] <= pivot {
          break;
        }
      }
      SwapExtendsSplit(s, t, l, i, j, r, pivot);
      Swap(a, i, j);
    }
  }
}
