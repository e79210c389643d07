// The arithmetic behind the cycle-leader ("juggling") rotation of
// block_swap_sl. A block of n cells is rotated left by ll (0 < ll < n): the
// cell at offset x receives the value from offset Step(x) = (x + ll) mod n.
// Following the hole from a leader c gives the orbit c, Step(c), Step(Step(c)),
// ..., which is (c + t * ll) mod n after t steps. Every orbit returns to its
// leader after Period steps (the least t >= 1 with n | t * ll), there are
// CycleCount = n / Period orbits, and the orbits of the leaders 0, 1, ...,
// CycleCount - 1 are the residue classes modulo CycleCount, hence disjoint.

module Cycles {

  /** The offset whose value the cell at offset x receives. */
  function Step(n: int, ll: int, x: int): int
  {
    if x < n - ll then x + ll else x - (n - ll)
  }

  /** The offset reached after t steps from leader c. */
  function Orbit(n: int, ll: int, c: int, t: nat): int
  {
    if t == 0 then c else Step(n, ll, Orbit(n, ll, c, t - 1))
  }

  /** t steps bring the orbit of 0, and so every orbit, back to where it started. */
  predicate Closes(n: int, ll: int, t: nat)
  {
    Orbit(n, ll, 0, t) == 0
  }

  lemma DivModUnique(q: int, n: int, b: int)
    requires n > 0 && 0 <= b < n
    ensures (q * n + b) % n == b && (q * n + b) / n == q
  {
    var x := q * n + b;
    var d := x / n - q;
    assert x == (x / n) * n + x % n;
    assert d * n == b - x % n;
    if d > 0 {
      assert false;
    } else if d < 0 {
      assert false;
    }
  }

  /** One step adds ll modulo n. */
  lemma StepMod(n: int, ll: int, a: int)
    requires 0 < ll < n && 0 <= a
    ensures Step(n, ll, a % n) == (a + ll) % n
  {
    var x := a % n;
    assert a == (a / n) * n + x;
    if x < n - ll {
      DivModUnique(a / n, n, x + ll);
    } else {
      assert a + ll == (a / n + 1) * n + (x + ll - n);
      DivModUnique(a / n + 1, n, x + ll - n);
    }
  }

  /** The closed form of an orbit: t steps from c land at (c + t * ll) mod n. */
  lemma {:induction false} OrbitMod(n: int, ll: int, c: int, t: nat)
    requires 0 < ll < n && 0 <= c < n
    ensures Orbit(n, ll, c, t) == (c + t * ll) % n
  {
    if t == 0 {
      DivModUnique(0, n, c);
    } else {
      OrbitMod(n, ll, c, t - 1);
      StepMod(n, ll, c + (t - 1) * ll);
      assert c + (t - 1) * ll + ll == c + t * ll;
    }
  }

  /** t steps close when t * ll is a multiple of n. */
  lemma ClosesByMultiple(n: int, ll: int, b: nat, j: int)
    requires 0 < ll < n && b * ll == j * n
    ensures Closes(n, ll, b)
  {
    OrbitMod(n, ll, 0, b);
    DivModUnique(j, n, 0);
  }

  /** The least t' >= t that closes; n itself always closes. */
  function PeriodFrom(n: int, ll: int, t: nat): (p: nat)
    requires 0 < ll < n && 1 <= t <= n
    ensures t <= p <= n && Closes(n, ll, p)
    ensures forall s: nat :: t <= s < p ==> !Closes(n, ll, s)
    decreases n - t
  {
    if Closes(n, ll, t) then t
    else ClosesByMultiple(n, ll, n, ll); PeriodFrom(n, ll, t + 1)
  }

  /** The length of every orbit. */
  function Period(n: int, ll: int): nat
    requires 0 < ll < n
  {
    PeriodFrom(n, ll, 1)
  }

  /** The number of distinct orbits. */
  function CycleCount(n: int, ll: int): int
    requires 0 < ll < n
  {
    n / Period(n, ll)
  }

  /** Period steps advance by a whole number of turns: Period * ll == k * n. */
  lemma PeriodTurns(n: int, ll: int) returns (k: int)
    requires 0 < ll < n
    ensures Period(n, ll) * ll == k * n
  {
    var L := Period(n, ll);
    OrbitMod(n, ll, 0, L);
    k := (L * ll) / n;
    assert L * ll == k * n + (L * ll) % n;
  }

  /** With n == q * L + b and L * ll == k * n: b * ll == (ll - q * k) * n. */
  lemma RemainderTurns(n: int, ll: int, L: int, q: int, b: int, k: int)
    requires n == q * L + b && L * ll == k * n
    ensures b * ll == (ll - q * k) * n
  {
    calc {
      b * ll;
      (n - q * L) * ll;
      n * ll - q * (L * ll);
      n * ll - q * (k * n);
      (ll - q * k) * n;
    }
  }

  /** Period divides n. */
  lemma {:induction false} PeriodDivides(n: int, ll: int)
    requires 0 < ll < n
    ensures n % Period(n, ll) == 0
  {
    var L := Period(n, ll);
    var q, b := n / L, n % L;
    assert n == q * L + b;
    var k := PeriodTurns(n, ll);
    if b != 0 {
      // b steps would already close every orbit, contradicting minimality
      RemainderTurns(n, ll, L, q, b, k);
      ClosesByMultiple(n, ll, b, ll - q * k);
      assert false;
    }
  }

  /** From L * ll == k * (q * L) with L > 0: ll == k * q. */
  lemma Cancel(L: int, ll: int, k: int, q: int)
    requires L > 0 && L * ll == k * (q * L)
    ensures ll == k * q
  {
    assert L * (ll - k * q) == 0;
  }

  /** A divisor q of a positive ll with ll == k * q lies in [1, ll] when q >= 1. */
  lemma DivisorBound(ll: int, k: int, q: int)
    requires 0 < ll && 1 <= q && ll == k * q
    ensures q <= ll && ll % q == 0
  {
    DivModUnique(k, q, 0);
    if k < 1 {
      NonPositiveProduct(k, q);
      assert false;
    }
    assert k * q == (k - 1) * q + q;
    assert (k - 1) * q >= 0;
  }

  lemma NonPositiveProduct(k: int, q: int)
    requires k <= 0 <= q
    ensures k * q <= 0
  {
  }

  /** When L divides n and L * ll == k * n, n / L divides ll. */
  lemma ShapeArith(n: int, ll: int, L: int, k: int)
    requires 0 < ll < n && 1 <= L && n % L == 0 && L * ll == k * n
    ensures (n / L) * L == n && 1 <= n / L <= ll && ll % (n / L) == 0
  {
    var q := n / L;
    assert n == q * L + n % L;
    assert q >= 1;
    Cancel(L, ll, k, q);
    DivisorBound(ll, k, q);
  }

  /**
   * The orbits have equal length Period, there are CycleCount of them, and
   * CycleCount divides the shift, so it is at most ll.
   */
  lemma PeriodShape(n: int, ll: int)
    requires 0 < ll < n
    ensures 1 <= Period(n, ll) && CycleCount(n, ll) * Period(n, ll) == n
    ensures 1 <= CycleCount(n, ll) <= ll
    ensures ll % CycleCount(n, ll) == 0
  {
    PeriodDivides(n, ll);
    var k := PeriodTurns(n, ll);
    ShapeArith(n, ll, Period(n, ll), k);
  }

  /** Orbit offsets stay in [0, n). */
  lemma {:induction false} OrbitInRange(n: int, ll: int, c: int, t: nat)
    requires 0 < ll < n && 0 <= c < n
    ensures 0 <= Orbit(n, ll, c, t) < n
  {
    if t > 0 {
      OrbitInRange(n, ll, c, t - 1);
    }
  }

  /** After Period steps an orbit is back at its leader. */
  lemma OrbitReturns(n: int, ll: int, c: int)
    requires 0 < ll < n && 0 <= c < n
    ensures Orbit(n, ll, c, Period(n, ll)) == c
  {
    var L := Period(n, ll);
    var k := PeriodTurns(n, ll);
    OrbitMod(n, ll, c, L);
    assert c + L * ll == k * n + c;
    DivModUnique(k, n, c);
  }

  /** Numbers with equal remainders differ by a multiple of n. */
  lemma SameModDiff(n: int, a1: int, a2: int) returns (j: int)
    requires n > 0 && a1 % n == a2 % n
    ensures a2 - a1 == j * n
  {
    assert a1 == (a1 / n) * n + a1 % n;
    assert a2 == (a2 / n) * n + a2 % n;
    j := a2 / n - a1 / n;
  }

  /** An orbit visits Period distinct offsets before it returns. */
  lemma OrbitDistinct(n: int, ll: int, c: int, t1: nat, t2: nat)
    requires 0 < ll < n && 0 <= c < n && t1 < t2 < Period(n, ll)
    ensures Orbit(n, ll, c, t1) != Orbit(n, ll, c, t2)
  {
    OrbitMod(n, ll, c, t1);
    OrbitMod(n, ll, c, t2);
    var a1, a2 := c + t1 * ll, c + t2 * ll;
    if a1 % n == a2 % n {
      var j := SameModDiff(n, a1, a2);
      assert (t2 - t1) * ll == a2 - a1;
      ClosesByMultiple(n, ll, t2 - t1, j);
      assert false;
    }
  }

  /** When g divides both n and ll, (c + t * ll) mod n is c modulo g. */
  lemma ResidueArith(n: int, ll: int, g: int, L: int, c: int, t: int)
    requires 0 < g && 0 < n && g * L == n && ll % g == 0 && 0 <= c < g && 0 <= t
    ensures ((c + t * ll) % n) % g == c
  {
    var k := ll / g;
    assert ll == k * g + ll % g;
    var a := c + t * ll;
    var q := a / n;
    assert a == q * n + a % n;
    calc {
      a % n;
      a - q * n;
      c + t * (k * g) - q * (g * L);
      (t * k - q * L) * g + c;
    }
    DivModUnique(t * k - q * L, g, c);
  }

  /** Every offset of the orbit of leader c < CycleCount is c modulo CycleCount. */
  lemma OrbitResidue(n: int, ll: int, c: int, t: nat)
    requires 0 < ll < n && 0 <= c < CycleCount(n, ll)
    ensures Orbit(n, ll, c, t) % CycleCount(n, ll) == c
  {
    PeriodShape(n, ll);
    OrbitMod(n, ll, c, t);
    ResidueArith(n, ll, CycleCount(n, ll), Period(n, ll), c, t);
  }

  /** The cells written by c whole orbits of the given period: c * period. */
  function WholeOrbits(c: nat, period: nat): nat
  {
    if c == 0 then 0 else WholeOrbits(c - 1, period) + period
  }

  lemma {:induction false} WholeOrbitsProduct(c: nat, period: nat)
    ensures WholeOrbits(c, period) == c * period
  {
    if c > 0 {
      WholeOrbitsProduct(c - 1, period);
      assert c * period == (c - 1) * period + period;
    }
  }

  /** Leaders are below CycleCount as long as fewer than n cells are done. */
  lemma LeaderBound(n: int, ll: int, c: int, t: int)
    requires 0 < ll < n && 0 <= c && 0 <= t
    requires WholeOrbits(c, Period(n, ll)) + t < n
    ensures c < CycleCount(n, ll)
  {
    PeriodShape(n, ll);
    WholeOrbitsProduct(c, Period(n, ll));
    var g, L := CycleCount(n, ll), Period(n, ll);
    if c >= g {
      assert false;
    }
  }

  /** When all n cells are done, no leader beyond CycleCount has been started. */
  lemma LeaderAtEnd(n: int, ll: int, c: int, t: int)
    requires 0 < ll < n && 0 <= c && 0 <= t
    requires WholeOrbits(c, Period(n, ll)) + t == n
    ensures c <= CycleCount(n, ll) < n
  {
    PeriodShape(n, ll);
    WholeOrbitsProduct(c, Period(n, ll));
    ProductBound(c, CycleCount(n, ll), Period(n, ll), t);
  }

  /** From c * L + t == g * L with L >= 1 and t >= 0: c <= g. */
  lemma ProductBound(c: int, g: int, L: int, t: int)
    requires 1 <= L && 0 <= t && c * L + t == g * L
    ensures c <= g
  {
    if c > g {
      ProductGap(c, g, L);
      assert false;
    }
  }

  lemma ProductGap(c: int, g: int, L: int)
    requires c > g && 1 <= L
    ensures c * L >= g * L + L
  {
    var d := c - g;
    assert c * L == g * L + d * L;
    assert d * L == (d - 1) * L + L;
    NonNegativeProduct(d - 1, L);
  }

  lemma NonNegativeProduct(k: int, q: int)
    requires 0 <= k && 0 <= q
    ensures k * q >= 0
  {
  }

  /**
   * The offsets of the whole orbits (of length period) of the leaders below c,
   * then the first t offsets of c's orbit: the cells a walk has finished.
   */
  ghost function Covered(n: int, ll: int, period: nat, c: nat, t: nat): set<int>
    decreases c, t
  {
    if t > 0 then Covered(n, ll, period, c, t - 1) + {Orbit(n, ll, c, t - 1)}
    else if c > 0 && period > 0 then Covered(n, ll, period, c - 1, period)
    else {}
  }

  /** Finishing the orbit of leader c is starting leader c + 1. */
  lemma CoveredNext(n: int, ll: int, period: nat, c: nat)
    requires 1 <= period
    ensures Covered(n, ll, period, c + 1, 0) ==
            Covered(n, ll, period, c, period - 1) + {Orbit(n, ll, c, period - 1)}
  {
  }

  /** What is covered: an offset of a finished orbit or of the walked prefix of c's. */
  lemma {:induction false} CoveredMember(n: int, ll: int, period: nat, c: nat, t: nat, y: int)
    requires y in Covered(n, ll, period, c, t)
    ensures exists c': nat, i: nat :: ((c' < c && i < period) || (c' == c && i < t)) &&
                                      y == Orbit(n, ll, c', i)
    decreases c, t
  {
    if t > 0 {
      if y != Orbit(n, ll, c, t - 1) {
        CoveredMember(n, ll, period, c, t - 1, y);
      }
    } else if c > 0 && period > 0 {
      CoveredMember(n, ll, period, c - 1, period, y);
    }
  }

  /** Covered offsets lie in [0, n). */
  lemma CoveredInRange(n: int, ll: int, period: nat, c: nat, t: nat)
    requires 0 < ll < n && c < n
    ensures forall y :: y in Covered(n, ll, period, c, t) ==> 0 <= y < n
  {
    forall y | y in Covered(n, ll, period, c, t) ensures 0 <= y < n {
      CoveredMember(n, ll, period, c, t, y);
      var c': nat, i: nat :| ((c' < c && i < period) || (c' == c && i < t)) && y == Orbit(n, ll, c', i);
      OrbitInRange(n, ll, c', i);
    }
  }

  /** The t-th offset of leader c < CycleCount is not covered yet. */
  lemma NotCovered(n: int, ll: int, c: nat, t: nat)
    requires 0 < ll < n && c < CycleCount(n, ll) && t < Period(n, ll)
    ensures Orbit(n, ll, c, t) !in Covered(n, ll, Period(n, ll), c, t)
  {
    PeriodShape(n, ll);
    var x := Orbit(n, ll, c, t);
    if x in Covered(n, ll, Period(n, ll), c, t) {
      CoveredMember(n, ll, Period(n, ll), c, t, x);
      var c': nat, i: nat :| ((c' < c && i < Period(n, ll)) || (c' == c && i < t)) && x == Orbit(n, ll, c', i);
      if c' < c {
        OrbitResidue(n, ll, c, t);
        OrbitResidue(n, ll, c', i);
      } else {
        OrbitDistinct(n, ll, c, i, t);
      }
      assert false;
    }
  }

  /** A set of offsets below n with n members holds every offset below n. */
  lemma {:induction false} FullSubset(d: set<int>, n: int)
    requires 0 <= n && |d| == n
    requires forall x :: x in d ==> 0 <= x < n
    ensures forall x :: 0 <= x < n ==> x in d
  {
    if n > 0 {
      if n - 1 in d {
        FullSubset(d - {n - 1}, n - 1);
      } else {
        SubsetBound(d, n - 1);
        assert false;
      }
    }
  }

  /** A set of offsets below n has at most n members. */
  lemma {:induction false} SubsetBound(d: set<int>, n: int)
    requires 0 <= n
    requires forall x :: x in d ==> 0 <= x < n
    ensures |d| <= n
  {
    if n > 0 {
      SubsetBound(d - {n - 1}, n - 1);
    } else {
      assert d == {} by {
        forall x ensures x !in d { }
      }
    }
  }
}
