// Facts about index ranges of the one integer array that WaveSort rearranges
// in place: ascending ranges, value bounds on a range, and "permuted within a
// range" (the multiset of the range is kept and nothing outside it moves).
// Ranges are half-open, [lo, hi); the C code's inclusive [start, end] is
// [start, end + 1) here.

module Ranges {

  /** s[lo..hi] is ascending. */
  ghost predicate Ascending(s: seq<int>, lo: int, hi: int)
  {
    forall i, j :: lo <= i < j < hi && 0 <= i && j < |s| ==> s[i] <= s[j]
  }

  /** Every element of s[lo..hi] is at most v. */
  ghost predicate AllAtMost(s: seq<int>, lo: int, hi: int, v: int)
  {
    forall k :: lo <= k < hi && 0 <= k < |s| ==> s[k] <= v
  }

  /** Every element of s[lo..hi] is at least v. */
  ghost predicate AllAtLeast(s: seq<int>, lo: int, hi: int, v: int)
  {
    forall k :: lo <= k < hi && 0 <= k < |s| ==> s[k] >= v
  }

  /** t agrees with s outside [lo, hi). */
  ghost predicate SameOutside(s: seq<int>, t: seq<int>, lo: int, hi: int)
  {
    |s| == |t| && forall k :: 0 <= k < |s| && !(lo <= k < hi) ==> s[k] == t[k]
  }

  /**
   * t is s with the cells of [lo, hi) permuted among themselves: nothing
   * outside the range differs, and the two hold the same multiset of values
   * (PermutedSlices: so do the two ranges).
   */
  ghost predicate PermutedWithin(s: seq<int>, t: seq<int>, lo: int, hi: int)
  {
    0 <= lo <= hi <= |s| && SameOutside(s, t, lo, hi) && multiset(s) == multiset(t)
  }

  /** Two sequences agreeing outside [lo, hi) hold the same multiset exactly when their ranges do. */
  lemma PermutedSlices(s: seq<int>, t: seq<int>, lo: int, hi: int)
    requires 0 <= lo <= hi <= |s| && SameOutside(s, t, lo, hi)
    ensures multiset(s) == multiset(t) <==> multiset(s[lo..hi]) == multiset(t[lo..hi])
  {
    assert s[..lo] == t[..lo];
    assert s[hi..] == t[hi..];
    assert s == s[..lo] + s[lo..hi] + s[hi..];
    assert t == t[..lo] + t[lo..hi] + t[hi..];
    var outer := multiset(s[..lo]) + multiset(s[hi..]);
    assert multiset(s) == multiset(s[lo..hi]) + outer;
    assert multiset(t) == multiset(t[lo..hi]) + outer;
    assert multiset(s[lo..hi]) == multiset(s) - outer;
    assert multiset(t[lo..hi]) == multiset(t) - outer;
  }

  /** Exchanges two cells of the array (wavesort.c's swap). */
  method Swap(a: array<int>, i: int, j: int)
    requires 0 <= i < a.Length && 0 <= j < a.Length
    modifies a
    ensures a[..] == old(a[..])[i := old(a[j])][j := old(a[i])]
  {
    var temp := a[i];
    a[i] := a[j];
    a[j] := temp;
  }

  /** Exchanging two cells of a range permutes that range. */
  lemma SwapPermutes(s: seq<int>, i: int, j: int, lo: int, hi: int)
    requires 0 <= lo <= i < hi <= |s| && lo <= j < hi
    ensures PermutedWithin(s, s[i := s[j]][j := s[i]], lo, hi)
  {
  }

  lemma PermutedRefl(s: seq<int>, lo: int, hi: int)
    requires 0 <= lo <= hi <= |s|
    ensures PermutedWithin(s, s, lo, hi)
  {
  }

  /** Two permutations within the same range compose. */
  lemma PermutedTrans(s: seq<int>, t: seq<int>, u: seq<int>, lo: int, hi: int)
    requires PermutedWithin(s, t, lo, hi) && PermutedWithin(t, u, lo, hi)
    ensures PermutedWithin(s, u, lo, hi)
  {
  }

  /** A cell of t's range holds a value that s's range holds. */
  lemma PermutedValueFrom(s: seq<int>, t: seq<int>, lo: int, hi: int, k: int)
    requires PermutedWithin(s, t, lo, hi) && lo <= k < hi
    ensures exists i :: lo <= i < hi && s[i] == t[k]
  {
    PermutedSlices(s, t, lo, hi);
    assert t[lo..hi][k - lo] == t[k];
    assert t[k] in multiset(s[lo..hi]);
    var i :| 0 <= i < hi - lo && s[lo..hi][i] == t[k];
    assert s[lo + i] == t[k];
  }

  /** Bounds on the values of a range survive a permutation of that range. */
  lemma PermutedKeepsBounds(s: seq<int>, t: seq<int>, lo: int, hi: int, v: int)
    requires PermutedWithin(s, t, lo, hi)
    ensures AllAtMost(s, lo, hi, v) ==> AllAtMost(t, lo, hi, v)
    ensures AllAtLeast(s, lo, hi, v) ==> AllAtLeast(t, lo, hi, v)
  {
    forall k | lo <= k < hi
      ensures exists i :: lo <= i < hi && s[i] == t[k]
    {
      PermutedValueFrom(s, t, lo, hi, k);
    }
  }

  /**
   * A range is ascending when it is an ascending run of values at most
   * s[mid], then s[mid], then an ascending run of values at least s[mid].
   */
  lemma AscendingAroundPivot(s: seq<int>, lo: int, mid: int, hi: int)
    requires 0 <= lo <= mid < hi <= |s|
    requires Ascending(s, lo, mid) && AllAtMost(s, lo, mid, s[mid])
    requires Ascending(s, mid + 1, hi) && AllAtLeast(s, mid + 1, hi, s[mid])
    ensures Ascending(s, lo, hi)
  {
  }

  /** Dropping the first element keeps a sequence ascending. */
  lemma AscendingTail(s: seq<int>)
    requires s != [] && Ascending(s, 0, |s|)
    ensures Ascending(s[1..], 0, |s| - 1)
  {
    forall i, j | 0 <= i < j < |s| - 1 ensures s[1..][i] <= s[1..][j] {
      assert s[1..][i] == s[i + 1] && s[1..][j] == s[j + 1];
    }
  }

  /** Two ascending sequences holding the same multiset start with the same element. */
  lemma AscendingSameHead(s: seq<int>, t: seq<int>)
    requires s != [] && t != []
    requires Ascending(s, 0, |s|) && Ascending(t, 0, |t|)
    requires multiset(s) == multiset(t)
    ensures s[0] == t[0]
  {
    assert s[0] in multiset(t);
    assert t[0] in multiset(s);
    var i :| 0 <= i < |t| && t[i] == s[0];
    var j :| 0 <= j < |s| && s[j] == t[0];
  }

  /** Equal multisets with equal first elements have equal multisets of the rest. */
  lemma MultisetTail(s: seq<int>, t: seq<int>)
    requires s != [] && t != [] && s[0] == t[0]
    requires multiset(s) == multiset(t)
    ensures multiset(s[1..]) == multiset(t[1..])
  {
    assert s == [s[0]] + s[1..];
    assert t == [t[0]] + t[1..];
    assert multiset(s) == multiset{s[0]} + multiset(s[1..]);
    assert multiset(t) == multiset{s[0]} + multiset(t[1..]);
    assert multiset(s[1..]) == multiset(s) - multiset{s[0]};
    assert multiset(t[1..]) == multiset(t) - multiset{s[0]};
  }

  /** There is one ascending arrangement of a multiset: two agree everywhere. */
  lemma {:induction false} AscendingUnique(s: seq<int>, t: seq<int>)
    requires Ascending(s, 0, |s|) && Ascending(t, 0, |t|)
    requires multiset(s) == multiset(t)
    ensures s == t
  {
    if s != [] {
      assert |t| == |multiset(t)| == |multiset(s)| == |s|;
      AscendingSameHead(s, t);
      MultisetTail(s, t);
      AscendingTail(s);
      AscendingTail(t);
      AscendingUnique(s[1..], t[1..]);
      assert s == [s[0]] + s[1..];
      assert t == [t[0]] + t[1..];
    }
  }
}
