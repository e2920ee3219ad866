/** The generator has full period: from any seed it visits all 2^64 seeds before
    it repeats one. So every value of a range is drawn sooner or later. */
module FullPeriod {
  import opened Arithmetic
  import opened Random

  function Pow2(n: nat): (p: nat)
    ensures p > 0
  {
    if n == 0 then 1 else 2 * Pow2(n - 1)
  }

  // ---------------------------------------------------------------------
  // 2^e steps move a seed by an odd multiple of 2^e
  // ---------------------------------------------------------------------

  /** Multiplier and increment of 2^e steps, without reduction. */
  function Multiplier(e: nat): nat {
    if e == 0 then A_MULTIPLIER else Multiplier(e - 1) * Multiplier(e - 1)
  }

  function Increment(e: nat): nat {
    if e == 0 then 1 else Increment(e - 1) * (Multiplier(e - 1) + 1)
  }

  lemma {:induction false} PowersJump(e: nat)
    ensures Jumps(Multiplier(e), Increment(e), Pow2(e))
  {
    if e == 0 {
      OneStep();
    } else {
      PowersJump(e - 1);
      JumpTwice(Multiplier(e - 1), Increment(e - 1), Pow2(e - 1));
    }
  }

  /** The multiplier is 1 + 2^(e+2) * u for some u. */
  lemma {:induction false} MultiplierIsNearOne(e: nat) returns (u: nat)
    ensures Multiplier(e) == 1 + 4 * Pow2(e) * u
  {
    if e == 0 {
      u := A_MULTIPLIER / 4;
    } else {
      var v := MultiplierIsNearOne(e - 1);
      var p := Pow2(e - 1);
      u := v + 2 * p * v * v;
      SquareNearOne(p, v);
    }
  }

  lemma SquareNearOne(p: nat, v: nat)
    ensures (1 + 4 * p * v) * (1 + 4 * p * v) == 1 + 4 * (2 * p) * (v + 2 * p * v * v)
  {
    var t := p * v;
    assert 4 * p * v == 4 * t && 2 * p * v * v == 2 * t * v;
    assert (1 + 4 * t) * (1 + 4 * t) == 1 + 8 * t + 16 * t * t;
    assert 4 * (2 * p) * (v + 2 * t * v) == 8 * (p * v) + 16 * t * (p * v);
  }

  /** The increment is 2^e times an odd number. */
  lemma {:induction false} IncrementIsOdd(e: nat) returns (v: nat)
    ensures Increment(e) == Pow2(e) * (1 + 2 * v)
  {
    if e == 0 {
      v := 0;
    } else {
      var w := IncrementIsOdd(e - 1);
      var u := MultiplierIsNearOne(e - 1);
      var p := Pow2(e - 1);
      v := w + p * u + 2 * w * (p * u);
      OddTimesOdd(p, w, u);
    }
  }

  lemma OddTimesOdd(p: nat, w: nat, u: nat)
    ensures p * (1 + 2 * w) * (1 + 4 * p * u + 1) == 2 * p * (1 + 2 * (w + p * u + 2 * w * (p * u)))
  {
    var t := p * u;
    assert 4 * p * u == 4 * t;
    assert p * (1 + 2 * w) * (2 + 4 * t) == p * ((1 + 2 * w) * (2 + 4 * t));
    assert (1 + 2 * w) * (2 + 4 * t) == 2 * (1 + 2 * (w + t + 2 * w * t));
    assert p * (2 * (1 + 2 * (w + t + 2 * w * t))) == 2 * p * (1 + 2 * (w + t + 2 * w * t));
  }

  lemma {:induction false} Pow2Divides(e: nat, f: nat)
    requires e <= f
    ensures exists k: nat :: Pow2(f) == k * Pow2(e)
    decreases f
  {
    if e == f {
      assert Pow2(f) == 1 * Pow2(e);
    } else {
      Pow2Divides(e, f - 1);
      var k: nat :| Pow2(f - 1) == k * Pow2(e);
      assert Pow2(f) == (2 * k) * Pow2(e);
    }
  }

  lemma Pow2Of64()
    ensures Pow2(64) == TWO64
  {
    assert Pow2(4) == 16;
    hide Pow2;
    DoubleExponent(4, 4);
    assert Pow2(8) == 0x100;
    DoubleExponent(8, 8);
    assert Pow2(16) == 0x1_0000;
    DoubleExponent(16, 16);
    assert Pow2(32) == 0x1_0000_0000;
    DoubleExponent(32, 32);
  }

  lemma {:induction false} DoubleExponent(a: nat, b: nat)
    ensures Pow2(a + b) == Pow2(a) * Pow2(b)
  {
    if b > 0 {
      DoubleExponent(a, b - 1);
    }
  }

  lemma {:induction false} Pow2Grows(e: nat, f: nat)
    requires e <= f
    ensures Pow2(e) <= Pow2(f)
  {
    if e < f {
      Pow2Grows(e, f - 1);
    }
  }

  /** 2^e steps move a seed by an odd multiple of 2^e. */
  lemma PowerStep(e: nat, x: uint64) returns (k: int)
    requires e < 64
    ensures Iterate(x, Pow2(e)) - x == Pow2(e) * (2 * k + 1)
  {
    hide Multiplier, Increment, Iterate;
    var q, a, d := Pow2(e), Multiplier(e), Increment(e);
    PowersJump(e);
    var u := MultiplierIsNearOne(e);
    var v := IncrementIsOdd(e);
    Pow2Of64();
    Pow2Divides(e + 1, 64);
    var r: nat :| Pow2(64) == r * Pow2(e + 1);
    var y := Iterate(x, q);
    assert y == (x * a + d) % TWO64;
    var j := QuotientOf(x * a + d, y);
    k := 2 * (x * u) + v - j * r;
    OddDifference(q, x, u, v, j, r, a, d, y);
  }

  lemma QuotientOf(t: int, y: uint64) returns (j: int)
    requires y == t % TWO64
    ensures t == j * TWO64 + y
  {
    j := t / TWO64;
  }

  lemma OddDifference(q: int, x: int, u: int, v: int, j: int, r: int, a: int, d: int, y: int)
    requires a == 1 + 4 * q * u && d == q * (1 + 2 * v)
    requires x * a + d == j * (r * (2 * q)) + y
    ensures y - x == q * (2 * (2 * (x * u) + v - j * r) + 1)
  {
    assert 4 * q * u == 4 * (q * u);
    assert x * (1 + 4 * (q * u)) == x + 4 * (x * (q * u));
    assert x * (q * u) == q * (x * u);
    assert j * (r * (2 * q)) == 2 * (q * (j * r));
    assert q * (2 * (2 * (x * u) + v - j * r) + 1) == 4 * (q * (x * u)) + 2 * (q * v) - 2 * (q * (j * r)) + q;
  }

  /** m times 2^e steps move it by 2^e times a number of the parity of m. */
  lemma {:induction false} ManyPowerSteps(e: nat, x: uint64, m: nat) returns (k: int)
    requires e < 64
    ensures Iterate(x, Pow2(e) * m) - x == Pow2(e) * (2 * k + m)
  {
    hide Iterate, Pow2;
    var q := Pow2(e);
    if m == 0 {
      assert q * m == 0;
      NoStep(x);
      k := 0;
    } else {
      var l := ManyPowerSteps(e, x, m - 1);
      assert q * m == q * (m - 1) + q;
      IterateAdd(x, q * (m - 1), q);
      var i := PowerStep(e, Iterate(x, q * (m - 1)));
      k := i + l;
      assert q * (2 * l + (m - 1)) + q * (2 * i + 1) == q * (2 * (i + l) + m);
    }
  }

  lemma NoStep(x: uint64)
    ensures Iterate(x, 0) == x
  {
  }

  lemma {:induction false} OddPart(n: nat) returns (e: nat, m: nat)
    requires n > 0
    ensures n == Pow2(e) * m && m % 2 == 1
  {
    if n % 2 == 1 {
      e, m := 0, n;
    } else {
      e, m := OddPart(n / 2);
      assert n == 2 * (Pow2(e) * m) == (2 * Pow2(e)) * m;
      e := e + 1;
    }
  }

  /** No seed comes back in fewer than 2^64 steps. */
  lemma NoEarlyReturn(x: uint64, n: nat)
    requires 0 < n < TWO64
    ensures Iterate(x, n) != x
  {
    hide Iterate, Pow2;
    var e, m := OddPart(n);
    assert e < 64 by {
      ProductIsMonotone(1, m, Pow2(e));
      Pow2Of64();
      if e >= 64 {
        Pow2Grows(64, e);
      }
    }
    var k := ManyPowerSteps(e, x, m);
    var odd := 2 * k + m;
    assert odd % 2 == 1;
    NonZeroProduct(Pow2(e), odd);
  }

  lemma NonZeroProduct(a: int, b: int)
    requires a != 0 && b != 0
    ensures a * b != 0
  {
  }

  // ---------------------------------------------------------------------
  // Every seed is visited
  // ---------------------------------------------------------------------

  ghost function Visited(x: uint64, n: nat): set<int> {
    set i: nat | i < n :: Iterate(x, i)
  }

  ghost function Below(n: nat): (s: set<int>)
    ensures forall i :: i in s <==> 0 <= i < n
    ensures |s| == n
  {
    if n == 0 then {} else Below(n - 1) + {n - 1}
  }

  lemma {:induction false} VisitedSize(x: uint64, n: nat)
    requires n <= TWO64
    ensures |Visited(x, n)| == n
  {
    if n > 0 {
      VisitedSize(x, n - 1);
      assert Visited(x, n) == Visited(x, n - 1) + {Iterate(x, n - 1)};
      forall i: nat | i < n - 1
        ensures Iterate(x, i) != Iterate(x, n - 1)
      {
        IterateAdd(x, i, n - 1 - i);
        NoEarlyReturn(Iterate(x, i), n - 1 - i);
      }
    }
  }

  lemma SubsetOfSameSize(a: set<int>, b: set<int>)
    requires a <= b && |a| == |b|
    ensures a == b
  {
    assert |b - a| == |b| - |b * a| && b * a == a;
  }

  lemma EverySeedIsVisited(x: uint64, y: uint64) returns (n: nat)
    ensures n < TWO64 && Iterate(x, n) == y
  {
    var all, seen := Below(TWO64), Visited(x, TWO64);
    VisitedSize(x, TWO64);
    SubsetOfSameSize(seen, all);
    assert y in seen;
    n :| n < TWO64 && Iterate(x, n) == y;
  }

  lemma FullTurn(x: uint64)
    ensures Iterate(x, TWO64) == x
  {
    hide Iterate;
    var m := EverySeedIsVisited(NextSeed(x), x);
    StepFirst(x, m);
    if m + 1 < TWO64 {
      NoEarlyReturn(x, m + 1);
    }
  }

  /** The generator returns to a seed exactly after multiples of 2^64 steps. */
  lemma {:induction false} PeriodIs2To64(x: uint64, n: nat)
    ensures Iterate(x, n) == x <==> n % TWO64 == 0
  {
    hide Iterate;
    if n < TWO64 {
      if n > 0 {
        NoEarlyReturn(x, n);
      } else {
        NoStepAtAll(x);
      }
    } else {
      var w: nat :| w == TWO64;
      FullTurn(x);
      IterateAdd(x, w, n - w);
      PeriodIs2To64(x, n - w);
    }
  }

  lemma NoStepAtAll(x: uint64)
    ensures Iterate(x, 0) == x
  {
  }

  /** Positions of a stream matter modulo 2^64 only. */
  lemma PositionsWrap(x: uint64, n: nat)
    ensures Iterate(x, n % TWO64) == Iterate(x, n)
  {
    hide Iterate;
    var r := n % TWO64;
    DivisionParts(TWO64, n);
    CongruentBy(TWO64, n - r, 0, n / TWO64);
    PeriodIs2To64(x, n - r);
    IterateAdd(x, n - r, r);
  }

  /** Streams placed at multiples of a skip follow each other. */
  lemma NextPlace(x: uint64, i: nat, skip: nat)
    ensures Iterate(x, (i + 1) * skip % TWO64) == Iterate(Iterate(x, i * skip % TWO64), skip)
  {
    hide Iterate;
    PositionsWrap(x, (i + 1) * skip);
    PositionsWrap(x, i * skip);
    assert (i + 1) * skip == i * skip + skip;
    IterateAdd(x, i * skip, skip);
  }

  /** How many values of a range, from its bottom, are sure to be drawn: all of a
      safe one, half of any other, which then has more than 2^33. */
  function Reach(range: uint64): (r: nat)
    ensures r <= range && (r == range || r >= TWO32)
  {
    if IsSafeRange(range) then range else range / 2
  }

  /** Those values are drawn within 2^64 draws. */
  lemma EveryValueIsDrawn(start: uint64, range: uint64, v: nat) returns (n: nat)
    requires range < TWO63 && v < Reach(range)
    ensures n < TWO64 && Mul6464(Iterate(start, n), range) == v
  {
    hide Iterate, Mul6464, IsSafeRange;
    var y := (v * TWO64 + range - 1) / range;
    ScaledBack(range, v);
    n := EverySeedIsVisited(start, y);
    if IsSafeRange(range) {
      SafeRangesAreExact(y, range);
    } else {
      LowerHalf(range, v, y);
      LowerSeedsAreExact(y, range);
    }
  }

  lemma LowerHalf(range: nat, v: nat, y: nat)
    requires 0 < range < TWO64 && v < range / 2 && y == (v * TWO64 + range - 1) / range
    ensures y < TWO63
  {
    var t := v * TWO64 + range - 1;
    DivisionParts(range, t);
    assert TWO63 * range >= TWO63 * (2 * v + 2);
    if y >= TWO63 {
      ProductIsMonotone(TWO63, y, range);
    }
  }

  ghost predicate IsDrawn(start: uint64, range: uint64, v: nat) {
    exists n: nat :: Mul6464(Iterate(start, n), range) == v
  }

  /** All values of a range are drawn if and only if it is safe: the top of any
      other is never drawn, whatever the start. */
  lemma SafeRangesAreCovered(start: uint64, range: uint64)
    requires 0 < range < TWO63
    ensures (forall v: nat :: v < range ==> IsDrawn(start, range, v)) <==> IsSafeRange(range)
  {
    hide Iterate, Mul6464, IsSafeRange;
    if IsSafeRange(range) {
      forall v: nat | v < range
        ensures IsDrawn(start, range, v)
      {
        var n := EveryValueIsDrawn(start, range, v);
      }
    } else {
      assert !IsDrawn(start, range, range - 1) by {
        forall n: nat
          ensures Mul6464(Iterate(start, n), range) != range - 1
        {
          TopIsNeverDrawn(Iterate(start, n), range);
        }
      }
    }
  }

  /** The least seed that is scaled to `v`. */
  lemma ScaledBack(range: uint64, v: nat)
    requires v < range
    ensures var y := (v * TWO64 + range - 1) / range;
            0 <= y < TWO64 && y * range / TWO64 == v
  {
    var t := v * TWO64 + range - 1;
    var y := t / range;
    assert t == y * range + t % range;
    assert v * TWO64 <= y * range < v * TWO64 + range;
    ProductIsMonotone(v + 1, range, TWO64);
    DivisionIsUnique(TWO64, y * range, v, y * range - v * TWO64);
    assert y < TWO64 by {
      if y >= TWO64 {
        ProductIsMonotone(TWO64, y, range);
      }
    }
    assert y >= 0;
  }
}
