// Exchanging the adjacent blocks [m, r) and [r, p] of the array in place
// (wavesort.c: block_swap and its two helpers).

module BlockSwap {
  import opened Ranges
  import opened Cycles

  // ---------------------------------------------------------------------
  // block_swap_sl's loop as a function of the number of passes: the state
  // (array contents, init, j, tmp) that count passes of the loop body leave
  // on the block [m, m + n) rotated left by ll.
  // ---------------------------------------------------------------------

  datatype Juggle = Juggle(cur: seq<int>, init: int, j: int, tmp: int)

  /** Every index one pass of the loop body reads or writes is inside the block. */
  predicate StepSafe(st: Juggle, m: int, n: int, ll: int)
  {
    0 <= m && 0 < ll < n && m + n <= |st.cur| &&
    m <= st.j < m + n && m <= st.init && st.init + 1 < m + n
  }

  /** One pass of block_swap_sl's loop body. */
  function JuggleStep(st: Juggle, m: int, n: int, ll: int): (st': Juggle)
    requires StepSafe(st, m, n, ll)
    ensures |st'.cur| == |st.cur|
  {
    var nm := m + n - ll;
    if st.j >= nm then
      var k := st.j - nm + m;
      if k == st.init then
        var cur := st.cur[st.j := st.tmp];
        Juggle(cur, st.init + 1, st.init + 1, cur[st.init + 1])
      else
        Juggle(st.cur[st.j := st.cur[k]], st.init, k, st.tmp)
    else
      var k := st.j + ll;
      Juggle(st.cur[st.j := st.cur[k]], st.init, k, st.tmp)
  }

  /** The state after count passes of the loop, starting from s. */
  function JuggleAfter(s: seq<int>, m: int, n: int, ll: int, count: nat): (st: Juggle)
    requires 0 < ll < n && 0 <= m && m + n <= |s| && count <= n
    ensures |st.cur| == |s|
    decreases count, 0
  {
    if count == 0 then Juggle(s, m, m, s[m])
    else
      JuggleSafe(s, m, n, ll, count - 1);
      JuggleStep(JuggleAfter(s, m, n, ll, count - 1), m, n, ll)
  }

  // ---------------------------------------------------------------------
  // Why the loop rotates: the walk of the hole j through the orbits of the
  // leaders 0, 1, ... (see Cycles). c is the current leader's offset, t the
  // number of steps walked from it, done the offsets already final.
  // ---------------------------------------------------------------------

  /** The value the cell at index i holds once the cells at the offsets in done are written. */
  function RotatedCell(s: seq<int>, m: int, n: int, ll: int, done: set<int>, i: int): int
    requires 0 <= i < |s| && 0 <= m && m + n <= |s| && 0 <= ll <= n
  {
    if m <= i < m + n && i - m in done then s[m + Step(n, ll, i - m)] else s[i]
  }

  /** Done cells hold their rotated value, all other cells their original one. */
  ghost predicate RotatedWhereDone(s: seq<int>, cur: seq<int>, m: int, n: int, ll: int, done: set<int>)
  {
    |cur| == |s| && 0 <= m && m + n <= |s| && 0 <= ll <= n &&
    forall i {:trigger cur[i]} :: 0 <= i < |s| ==> cur[i] == RotatedCell(s, m, n, ll, done, i)
  }

  /** Giving one more cell its rotated value. */
  lemma WriteRotated(s: seq<int>, cur: seq<int>, m: int, n: int, ll: int, done: set<int>, x: int)
    requires RotatedWhereDone(s, cur, m, n, ll, done) && 0 <= x < n && x !in done
    ensures RotatedWhereDone(s, cur[m + x := s[m + Step(n, ll, x)]], m, n, ll, done + {x})
  {
    var cur' := cur[m + x := s[m + Step(n, ll, x)]];
    forall i | 0 <= i < |s| ensures cur'[i] == RotatedCell(s, m, n, ll, done + {x}, i) {
      if i != m + x {
        assert cur'[i] == cur[i];
      }
    }
  }

  /**
   * The walk after count writes: c whole orbits are done and t steps of the
   * orbit of leader c, and done holds exactly the offsets written so far.
   */
  ghost predicate Walk(n: int, ll: int, c: int, t: int, count: int, done: set<int>)
  {
    0 < ll < n && 0 <= c && 0 <= t < Period(n, ll) && count == WholeOrbits(c, Period(n, ll)) + t &&
    done == Covered(n, ll, Period(n, ll), c, t) && |done| == count
  }

  /** The walk moves on along the orbit of c: the hole is new, and so is the next one. */
  lemma WalkAdvance(n: int, ll: int, c: int, t: int, count: int, done: set<int>)
    requires Walk(n, ll, c, t, count, done) && count < n
    requires Orbit(n, ll, c, t) < n - ll || Orbit(n, ll, c, t + 1) != c
    ensures 0 <= Orbit(n, ll, c, t) < n && 0 <= Orbit(n, ll, c, t + 1) < n
    ensures Orbit(n, ll, c, t + 1) != c
    ensures Orbit(n, ll, c, t) !in done
    ensures Orbit(n, ll, c, t + 1) !in done + {Orbit(n, ll, c, t)}
    ensures Walk(n, ll, c, t + 1, count + 1, done + {Orbit(n, ll, c, t)})
  {
    LeaderBound(n, ll, c, t);
    HoleCloses(n, ll, c, t);
    NotCovered(n, ll, c, t);
    NotCovered(n, ll, c, t + 1);
  }

  /** The walk is back at leader c: the hole is new, and the next leader is untouched. */
  lemma WalkClose(n: int, ll: int, c: int, t: int, count: int, done: set<int>)
    requires Walk(n, ll, c, t, count, done) && count < n
    requires Orbit(n, ll, c, t + 1) == c
    ensures 0 <= Orbit(n, ll, c, t) < n
    ensures Orbit(n, ll, c, t) !in done
    ensures Walk(n, ll, c + 1, 0, count + 1, done + {Orbit(n, ll, c, t)})
    ensures c + 1 < n
    ensures count + 1 < n ==> c + 1 !in done + {Orbit(n, ll, c, t)}
  {
    var period := Period(n, ll);
    PeriodShape(n, ll);
    LeaderBound(n, ll, c, t);
    HoleCloses(n, ll, c, t);
    NotCovered(n, ll, c, t);
    CoveredNext(n, ll, period, c);
    assert count + 1 == WholeOrbits(c + 1, period) + 0;
    if count + 1 < n {
      LeaderBound(n, ll, c + 1, 0);
      NotCovered(n, ll, c + 1, 0);
    }
  }

  /** The loop state after count passes, described by the walk. */
  ghost predicate JuggleState(s: seq<int>, st: Juggle, m: int, n: int, ll: int,
                              c: int, t: int, done: set<int>, count: int)
  {
    Walk(n, ll, c, t, count, done) && RotatedWhereDone(s, st.cur, m, n, ll, done) &&
    st.init == m + c && 0 <= t && st.j == m + Orbit(n, ll, c, t) && 0 <= st.j - m < n &&
    (count < n ==> 0 <= st.init < |s| && st.tmp == s[st.init])
  }

  /** Nothing is done before the first pass. */
  lemma JuggleStart(s: seq<int>, m: int, n: int, ll: int)
    requires 0 < ll < n && 0 <= m && m + n <= |s|
    ensures JuggleState(s, Juggle(s, m, m, s[m]), m, n, ll, 0, 0, {}, 0)
  {
    PeriodShape(n, ll);
  }

  /** Before the last pass ends, the leader is below ll, so init + 1 stays inside the block. */
  lemma JuggleStaysInside(s: seq<int>, st: Juggle, m: int, n: int, ll: int,
                          c: int, t: int, done: set<int>, count: int)
    requires JuggleState(s, st, m, n, ll, c, t, done, count) && count < n
    ensures StepSafe(st, m, n, ll)
  {
    PeriodShape(n, ll);
    LeaderBound(n, ll, c, t);
  }

  /** The hole's source is another cell of the orbit: its value moves into the hole. */
  lemma JuggleAdvance(s: seq<int>, st: Juggle, m: int, n: int, ll: int,
                      c: int, t: int, done: set<int>, count: int)
    requires JuggleState(s, st, m, n, ll, c, t, done, count) && count < n
    requires !(st.j - m >= n - ll && st.j - (n - ll) == st.init)
    ensures StepSafe(st, m, n, ll)
    ensures JuggleState(s, JuggleStep(st, m, n, ll), m, n, ll, c, t + 1, done + {st.j - m}, count + 1)
  {
    JuggleStaysInside(s, st, m, n, ll, c, t, done, count);
    var x := st.j - m;
    WalkAdvance(n, ll, c, t, count, done);
    WriteRotated(s, st.cur, m, n, ll, done, x);
    var k := m + Step(n, ll, x);
    assert JuggleStep(st, m, n, ll) == Juggle(st.cur[m + x := s[m + Step(n, ll, x)]], st.init, k, st.tmp);
  }

  /** The hole's source is the leader: the saved value closes the cycle and the next leader starts. */
  lemma JuggleClose(s: seq<int>, st: Juggle, m: int, n: int, ll: int,
                    c: int, t: int, done: set<int>, count: int)
    requires JuggleState(s, st, m, n, ll, c, t, done, count) && count < n
    requires st.j - m >= n - ll && st.j - (n - ll) == st.init
    ensures StepSafe(st, m, n, ll)
    ensures JuggleState(s, JuggleStep(st, m, n, ll), m, n, ll, c + 1, 0, done + {st.j - m}, count + 1)
  {
    JuggleStaysInside(s, st, m, n, ll, c, t, done, count);
    var x := st.j - m;
    WalkClose(n, ll, c, t, count, done);
    WriteRotated(s, st.cur, m, n, ll, done, x);
    var cur := st.cur[m + x := s[m + Step(n, ll, x)]];
    assert JuggleStep(st, m, n, ll) == Juggle(cur, st.init + 1, st.init + 1, cur[st.init + 1]);
  }

  /** After n passes the block is rotated and nothing else has changed. */
  lemma JuggleEnd(s: seq<int>, st: Juggle, m: int, n: int, ll: int, c: int, t: int, done: set<int>)
    requires JuggleState(s, st, m, n, ll, c, t, done, n)
    ensures st.cur[m..m + n] == s[m + ll..m + n] + s[m..m + ll]
    ensures SameOutside(s, st.cur, m, m + n)
  {
    var cur := st.cur;
    LeaderAtEnd(n, ll, c, t);
    CoveredInRange(n, ll, Period(n, ll), c, t);
    FullSubset(done, n);
    var r := s[m + ll..m + n] + s[m..m + ll];
    forall x | 0 <= x < n ensures cur[m..m + n][x] == r[x] {
      assert x in done;
      assert cur[m + x] == RotatedCell(s, m, n, ll, done, m + x);
      if x < n - ll {
        assert r[x] == s[m + ll..m + n][x];
      } else {
        assert r[x] == s[m..m + ll][x - (n - ll)];
      }
    }
    assert cur[m..m + n] == r;
    forall k | 0 <= k < |s| && !(m <= k < m + n) ensures s[k] == cur[k] {
      assert cur[k] == RotatedCell(s, m, n, ll, done, k);
    }
  }

  /** Whether the hole at step t of leader c closes its cycle. */
  lemma HoleCloses(n: int, ll: int, c: int, t: int)
    requires 0 < ll < n && 0 <= c < CycleCount(n, ll) && 0 <= t < Period(n, ll)
    ensures 0 <= Orbit(n, ll, c, t) < n && 0 <= Orbit(n, ll, c, t + 1) < n
    ensures Orbit(n, ll, c, t + 1) == c <==> t + 1 == Period(n, ll)
    ensures Orbit(n, ll, c, t) < n - ll ==> t + 1 < Period(n, ll)
  {
    PeriodShape(n, ll);
    OrbitInRange(n, ll, c, t);
    OrbitInRange(n, ll, c, t + 1);
    OrbitReturns(n, ll, c);
    if t + 1 < Period(n, ll) {
      OrbitDistinct(n, ll, c, 0, t + 1);
    }
  }

  // ---------------------------------------------------------------------
  // The walk describes every pass of the loop.
  // ---------------------------------------------------------------------

  /** The state after count passes is the walk's state for some c, t and done. */
  lemma JuggleTrace(s: seq<int>, m: int, n: int, ll: int, count: nat) returns (c: int, t: int, done: set<int>)
    requires 0 < ll < n && 0 <= m && m + n <= |s| && count <= n
    ensures JuggleState(s, JuggleAfter(s, m, n, ll, count), m, n, ll, c, t, done, count)
    decreases count, 1
  {
    if count == 0 {
      JuggleStart(s, m, n, ll);
      c, t, done := 0, 0, {};
    } else {
      var c0, t0, done0 := JuggleTrace(s, m, n, ll, count - 1);
      var st := JuggleAfter(s, m, n, ll, count - 1);
      JuggleStaysInside(s, st, m, n, ll, c0, t0, done0, count - 1);
      assert JuggleAfter(s, m, n, ll, count) == JuggleStep(st, m, n, ll);
      c, t, done := JuggleNext(s, st, m, n, ll, c0, t0, done0, count - 1);
    }
  }

  /** One more pass keeps the walk describing the state. */
  lemma JuggleNext(s: seq<int>, st: Juggle, m: int, n: int, ll: int,
                   c0: int, t0: int, done0: set<int>, count: int)
    returns (c: int, t: int, done: set<int>)
    requires JuggleState(s, st, m, n, ll, c0, t0, done0, count) && count < n
    ensures StepSafe(st, m, n, ll)
    ensures JuggleState(s, JuggleStep(st, m, n, ll), m, n, ll, c, t, done, count + 1)
  {
    JuggleStaysInside(s, st, m, n, ll, c0, t0, done0, count);
    if st.j - m >= n - ll && st.j - (n - ll) == st.init {
      JuggleClose(s, st, m, n, ll, c0, t0, done0, count);
      c, t, done := c0 + 1, 0, done0 + {st.j - m};
    } else {
      JuggleAdvance(s, st, m, n, ll, c0, t0, done0, count);
      c, t, done := c0, t0 + 1, done0 + {st.j - m};
    }
  }

  /** Fewer than n passes never leave the block. */
  lemma JuggleSafe(s: seq<int>, m: int, n: int, ll: int, count: nat)
    requires 0 < ll < n && 0 <= m && m + n <= |s| && count < n
    ensures StepSafe(JuggleAfter(s, m, n, ll, count), m, n, ll)
    decreases count, 2
  {
    var c, t, done := JuggleTrace(s, m, n, ll, count);
    JuggleStaysInside(s, JuggleAfter(s, m, n, ll, count), m, n, ll, c, t, done, count);
  }

  /** One more pass is one more step. */
  lemma JuggleAfterStep(s: seq<int>, m: int, n: int, ll: int, count: nat)
    requires 0 < ll < n && 0 <= m && m + n <= |s| && count < n
    ensures StepSafe(JuggleAfter(s, m, n, ll, count), m, n, ll)
    ensures JuggleAfter(s, m, n, ll, count + 1) == JuggleStep(JuggleAfter(s, m, n, ll, count), m, n, ll)
  {
    JuggleSafe(s, m, n, ll, count);
  }

  /** After p - m + 1 passes [m, p] is rotated left by ll and nothing else has changed. */
  lemma JuggleRotates(s: seq<int>, m: int, n: int, ll: int)
    requires 0 < ll < n && 0 <= m && m + n <= |s|
    ensures JuggleAfter(s, m, n, ll, n).cur[m..m + n] == s[m + ll..m + n] + s[m..m + ll]
    ensures SameOutside(s, JuggleAfter(s, m, n, ll, n).cur, m, m + n)
  {
    var c, t, done := JuggleTrace(s, m, n, ll, n);
    JuggleEnd(s, JuggleAfter(s, m, n, ll, n), m, n, ll, c, t, done);
  }

  /** One pass of block_swap_sl's loop body on the array, as JuggleStep says. */
  method JugglePass(a: array<int>, m: int, n: int, ll: int, init: int, j: int, tmp: int)
    returns (init': int, j': int, tmp': int)
    requires StepSafe(Juggle(a[..], init, j, tmp), m, n, ll)
    modifies a
    ensures Juggle(a[..], init', j', tmp') == JuggleStep(Juggle(old(a[..]), init, j, tmp), m, n, ll)
  {
    init', j', tmp' := init, j, tmp;
    var nm := m + n - ll;
    if j' >= nm {
      var k := j' - nm + m;
      if k == init' {
        init' := init' + 1;
        a[j'] := tmp';
        j' := init';
        tmp' := a[j'];
      } else {
        a[j'] := a[k];
        j' := k;
      }
    } else {
      var k := j' + ll;
      a[j'] := a[k];
      j' := k;
    }
  }

  /**
   * Cycle-leader rotation of [m, p] left by ll (block_swap_sl): afterwards
   * the old [m + ll, p] is at the front and the old [m, m + ll) at the back.
   * The hole j walks the orbit of the leader init; when the walk is back at
   * its leader the saved value closes the cycle and the next leader starts.
   */
  method BlockSwapSl(a: array<int>, m: int, p: int, ll: int)
    requires 0 <= m && p < a.Length && 0 < ll <= p - m
    modifies a
    ensures a[m..p + 1] == old(a[m + ll..p + 1]) + old(a[m..m + ll])
    ensures SameOutside(old(a[..]), a[..], m, p + 1)
  {
    ghost var s := a[..];
    var tmp := a[m];
    var init := m;
    var j := m;
    var totalLen := p - m + 1;
    for count := 0 to totalLen
      invariant Juggle(a[..], init, j, tmp) == JuggleAfter(s, m, totalLen, ll, count)
    {
      JuggleAfterStep(s, m, totalLen, ll, count);
      init, j, tmp := JugglePass(a, m, totalLen, ll, init, j, tmp);
    }
    JuggleRotates(s, m, totalLen, ll);
  }

  // ---------------------------------------------------------------------
  // block_swap_sr and the dispatcher block_swap.
  // ---------------------------------------------------------------------

  /**
   * Cell k of the block after t passes of block_swap_sr's loop: the first t
   * cells from m hold the first t cells of the right block, the first t
   * cells from r hold the left block's cells m + 1 .. m + t, and every other
   * cell is as it was.
   */
  function WalkCell(s: seq<int>, m: int, r: int, t: int, k: int): int
    requires 0 <= m <= r && 0 <= t && r + t <= |s| && 0 <= k < |s|
  {
    if m <= k < m + t then s[k - m + r]
    else if r <= k < r + t then s[k - r + m + 1]
    else s[k]
  }

  /**
   * The layout block_swap_sr leaves, lr being the right block's length: the
   * right block at m, the left block's cells m + lr .. r - 1 where they were,
   * then its cells m + 1 .. m + lr - 1, then its first cell at p.
   */
  function WalkResult(s: seq<int>, m: int, r: int, p: int): (t: seq<int>)
    requires 0 <= m < r <= p < |s| && p - r + 1 <= r - m
    ensures |t| == |s|
  {
    var lr := p - r + 1;
    s[..m] + s[r..p + 1] + s[m + lr..r] + s[m + 1..m + lr] + [s[m]] + s[p + 1..]
  }

  /** WalkResult cell by cell: the state after lr passes, except that p holds the saved first cell. */
  lemma WalkResultCell(s: seq<int>, m: int, r: int, p: int, k: int)
    requires 0 <= m < r <= p < |s| && p - r + 1 <= r - m && 0 <= k < |s|
    ensures WalkResult(s, m, r, p)[k] == if k == p then s[m] else WalkCell(s, m, r, p - r + 1, k)
  {
    var lr := p - r + 1;
    var t := WalkResult(s, m, r, p);
    if k < m {
      assert t[k] == s[..m][k];
    } else if k < m + lr {
      assert t[k] == s[r..p + 1][k - m];
    } else if k < r {
      assert t[k] == s[m + lr..r][k - m - lr];
    } else if k < p {
      assert t[k] == s[m + 1..m + lr][k - r];
    } else if k > p {
      assert t[k] == s[p + 1..][k - p - 1];
    }
  }

  /** The two writes after the loop turn the state after p - r passes into WalkResult. */
  lemma WalkFinish(s: seq<int>, w: seq<int>, m: int, r: int, p: int)
    requires 0 <= m < r <= p < |s| && p - r + 1 <= r - m && |w| == |s|
    requires forall k {:trigger w[k]} :: 0 <= k < |w| ==> w[k] == WalkCell(s, m, r, p - r, k)
    ensures w[m + (p - r) := w[p]][p := s[m]] == WalkResult(s, m, r, p)
  {
    var t := w[m + (p - r) := w[p]][p := s[m]];
    forall k | 0 <= k < |s| ensures t[k] == WalkResult(s, m, r, p)[k] {
      WalkResultCell(s, m, r, p, k);
      assert w[k] == WalkCell(s, m, r, p - r, k);
    }
  }

  /** One pass of block_swap_sr's loop body. */
  method WalkPass(a: array<int>, ghost s: seq<int>, m: int, r: int, i: int, j: int)
    returns (i': int, j': int)
    requires 0 <= m && r <= j && i == m + (j - r) && i + 1 < r && j < |s| == a.Length
    requires forall k {:trigger a[k]} :: 0 <= k < a.Length ==> a[k] == WalkCell(s, m, r, j - r, k)
    modifies a
    ensures i' == i + 1 && j' == j + 1
    ensures forall k {:trigger a[k]} :: 0 <= k < a.Length ==> a[k] == WalkCell(s, m, r, j' - r, k)
  {
    ghost var before := a[..];
    i', j' := i, j;
    a[i'] := a[j'];
    i' := i' + 1;
    a[j'] := a[i'];
    j' := j' + 1;
    assert a[..] == before[i := s[j]][j := s[i + 1]];
  }

  /**
   * Exchange by walking the right block [r, p] down to m (block_swap_sr),
   * for a right block no longer than the left one. Each pass moves one cell
   * of the right block to the front and the next cell of the left block into
   * the vacated place; the first cell of the left block, saved in tmp, ends
   * at p.
   */
  method BlockSwapSr(a: array<int>, m: int, r: int, p: int)
    requires 0 <= m < r <= p < a.Length && p - r + 1 <= r - m
    modifies a
    ensures a[..] == WalkResult(old(a[..]), m, r, p)
  {
    ghost var s := a[..];
    var i := m;
    var tmp := a[i];
    var j := r;
    while j < p
      invariant r <= j <= p && i == m + (j - r)
      invariant forall k {:trigger a[k]} :: 0 <= k < a.Length ==> a[k] == WalkCell(s, m, r, j - r, k)
    {
      i, j := WalkPass(a, s, m, r, i, j);
    }
    WalkFinish(s, a[..], m, r, p);
    a[i] := a[j];
    a[j] := tmp;
  }

  /**
   * What block_swap promises of the blocks [m, r) and [r, p]: the range
   * [m, p] is permuted within itself, and the right block now starts at m,
   * in its order (the cells of the left block follow it in some order, see
   * BlocksSwappedTail).
   */
  ghost predicate BlocksSwapped(s: seq<int>, t: seq<int>, m: int, r: int, p: int)
  {
    0 <= m <= r <= p < |s| && PermutedWithin(s, t, m, p + 1) &&
    forall k :: m <= k < m + (p - r + 1) ==> t[k] == s[k - m + r]
  }

  /** After the exchange, the cells behind the moved right block are those of the old left block. */
  lemma BlocksSwappedTail(s: seq<int>, t: seq<int>, m: int, r: int, p: int)
    requires BlocksSwapped(s, t, m, r, p)
    ensures multiset(t[m + (p - r + 1)..p + 1]) == multiset(s[m..r])
  {
    var lr := p - r + 1;
    PermutedSlices(s, t, m, p + 1);
    assert t[m..m + lr] == s[r..p + 1];
    assert s[m..p + 1] == s[m..r] + s[r..p + 1];
    assert t[m..p + 1] == t[m..m + lr] + t[m + lr..p + 1];
    var moved := multiset(s[r..p + 1]);
    assert multiset(t[m + lr..p + 1]) == multiset(t[m..p + 1]) - moved;
    assert multiset(s[m..r]) == multiset(s[m..p + 1]) - moved;
  }

  /** An empty left block: block_swap leaves the array alone. */
  lemma NothingToSwap(s: seq<int>, m: int, p: int)
    requires 0 <= m <= p < |s|
    ensures BlocksSwapped(s, s, m, m, p)
  {
  }

  /** A one-cell right block: exchanging cells m and p swaps the blocks. */
  lemma SwapSwapsBlocks(s: seq<int>, m: int, p: int)
    requires 0 <= m < p < |s|
    ensures BlocksSwapped(s, s[m := s[p]][p := s[m]], m, p, p)
  {
    SwapPermutes(s, m, p, m, p + 1);
  }

  /** The rotation left by ll that block_swap_sl performs swaps the blocks. */
  lemma RotationSwapsBlocks(s: seq<int>, t: seq<int>, m: int, r: int, p: int)
    requires 0 <= m < r <= p < |s| && |t| == |s|
    requires t[m..p + 1] == s[r..p + 1] + s[m..r] && SameOutside(s, t, m, p + 1)
    ensures BlocksSwapped(s, t, m, r, p)
  {
    var lr := p - r + 1;
    forall k | m <= k < m + lr ensures t[k] == s[k - m + r] {
      assert t[k] == t[m..p + 1][k - m];
    }
    assert s[m..p + 1] == s[m..r] + s[r..p + 1];
    PermutedSlices(s, t, m, p + 1);
  }

  /** The layout block_swap_sr leaves swaps the blocks. */
  lemma WalkSwapsBlocks(s: seq<int>, m: int, r: int, p: int)
    requires 0 <= m < r <= p < |s| && p - r + 1 <= r - m
    ensures BlocksSwapped(s, WalkResult(s, m, r, p), m, r, p)
    ensures WalkResult(s, m, r, p)[p] == s[m]
  {
    var lr := p - r + 1;
    var t := WalkResult(s, m, r, p);
    forall k | 0 <= k < |s| ensures t[k] == if k == p then s[m] else WalkCell(s, m, r, lr, k) {
      WalkResultCell(s, m, r, p, k);
    }
    WalkKeepsValues(s, m, r, p);
  }

  /** The walk only moves values around: the whole sequence keeps its multiset. */
  lemma WalkKeepsValues(s: seq<int>, m: int, r: int, p: int)
    requires 0 <= m < r <= p < |s| && p - r + 1 <= r - m
    ensures multiset(WalkResult(s, m, r, p)) == multiset(s)
  {
    var lr := p - r + 1;
    var head, first, rest, tail, right, after := s[..m], [s[m]], s[m + 1..m + lr], s[m + lr..r], s[r..p + 1], s[p + 1..];
    assert s[..m + 1] == head + first;
    assert s[..m + lr] == s[..m + 1] + rest;
    assert s[..r] == s[..m + lr] + tail;
    assert s[..p + 1] == s[..r] + right;
    assert s == s[..p + 1] + after;
    assert WalkResult(s, m, r, p) == head + right + tail + rest + first + after;
    assert multiset(s) == multiset(head) + multiset(first) + multiset(rest) + multiset(tail) + multiset(right) + multiset(after);
  }

  /**
   * Exchanges the adjacent blocks [m, r) and [r, p] (block_swap): nothing
   * to do for an empty left block, one swap for a one-cell right block, the
   * walk when the right block is no longer than the left one, and the
   * cycle-leader rotation otherwise.
   */
  method BlockSwap(a: array<int>, m: int, r: int, p: int)
    requires 0 <= m <= r <= p < a.Length
    modifies a
    ensures BlocksSwapped(old(a[..]), a[..], m, r, p)
    ensures r == m ==> a[..] == old(a[..])
    ensures m < r == p ==> a[..] == old(a[..])[m := old(a[p])][p := old(a[m])]
  {
    ghost var s := a[..];
    var ll := r - m;
    if ll == 0 {
      NothingToSwap(s, m, p);
      return;
    }
    var lr := p - r + 1;
    if lr == 1 {
      Swap(a, m, p);
      SwapSwapsBlocks(s, m, p);
    } else if lr <= ll {
      BlockSwapSr(a, m, r, p);
      WalkSwapsBlocks(s, m, r, p);
    } else {
      BlockSwapSl(a, m, p, ll);
      RotationSwapsBlocks(s, a[..], m, r, p);
    }
    ghost var t := a[..];
    assert BlocksSwapped(s, t, m, r, p);
  }
}
