/** The linear congruential generator: one step, the jump over any number of
    steps, and the scaling of a seed to an integer range. */
module Random {
  import opened Arithmetic

  const TWO32 := 0x1_0000_0000
  const TWO63 := 0x8000_0000_0000_0000
  const TWO64 := 0x1_0000_0000_0000_0000

  type uint64 = x: int | 0 <= x < TWO64

  const A_MULTIPLIER: uint64 := 6364136223846793005
  const C_INCREMENT: uint64 := 1

  const SEED_TABLE_DEFAULT: uint64 := 37039940
  const SEED_BASE_BROKER_ID: uint64 := 75607774
  const SEED_BASE_ACCOUNT_TAX_STATUS: uint64 := 34376701
  const SEED_BASE_STARTING_SECURITY_ID: uint64 := 12020070

  function NextSeed(seed: uint64): uint64 {
    (seed * A_MULTIPLIER + C_INCREMENT) % TWO64
  }

  /** The seed after `n` steps. */
  function Iterate(seed: uint64, n: nat): uint64 {
    if n == 0 then seed else NextSeed(Iterate(seed, n - 1))
  }

  lemma {:induction false} IterateAdd(seed: uint64, m: nat, n: nat)
    ensures Iterate(seed, m + n) == Iterate(Iterate(seed, m), n)
  {
    if n > 0 {
      IterateAdd(seed, m, n - 1);
    }
  }

  // ---------------------------------------------------------------------
  // Arithmetic modulo 2^64
  // ---------------------------------------------------------------------

  lemma ModPlusMultiple(r: int, k: int)
    ensures (r + k * TWO64) % TWO64 == r % TWO64
  {
  }

  lemma ModFactor(a: int, b: int, r: int)
    ensures (a * (b % TWO64) + r) % TWO64 == (a * b + r) % TWO64
  {
    var k := b / TWO64;
    assert b == b % TWO64 + k * TWO64;
    assert a * b == a * (b % TWO64) + a * (k * TWO64);
    assert a * (k * TWO64) == (a * k) * TWO64;
    ModPlusMultiple(a * (b % TWO64) + r, a * k);
  }

  lemma ModTerm(a: int, r: int)
    ensures (a + r % TWO64) % TWO64 == (a + r) % TWO64
  {
    ModPlusMultiple(a + r % TWO64, r / TWO64);
  }

  // ---------------------------------------------------------------------
  // Jumping ahead
  // ---------------------------------------------------------------------

  /** Multiplying by `a` and adding `d` is the same as `n` steps. */
  ghost predicate Jumps(a: int, d: int, n: nat) {
    forall x: uint64 :: Iterate(x, n) == (x * a + d) % TWO64
  }

  lemma JumpsModulo(a: int, d: int, n: nat)
    ensures Jumps(a % TWO64, d % TWO64, n) <==> Jumps(a, d, n)
  {
    forall x: uint64
      ensures (x * (a % TWO64) + d % TWO64) % TWO64 == (x * a + d) % TWO64
    {
      ModTerm(x * (a % TWO64), d);
      ModFactor(x, a, d);
    }
  }

  /** Composing two affine maps modulo 2^64. */
  lemma Compose(x: int, a: int, d: int, b: int, e: int)
    ensures ((x * a + d) % TWO64 * b + e) % TWO64 == (x * (a * b) + (d * b + e)) % TWO64
  {
    ModFactor(b, x * a + d, e);
    assert (x * a + d) * b == x * (a * b) + d * b;
  }

  lemma JumpTwice(a: int, d: int, n: nat)
    requires Jumps(a, d, n)
    ensures Jumps(a * a, d * (a + 1), 2 * n)
  {
    forall x: uint64
      ensures Iterate(x, 2 * n) == (x * (a * a) + d * (a + 1)) % TWO64
    {
      IterateAdd(x, n, n);
      Compose(x, a, d, a, d);
    }
  }

  lemma JumpOneMore(a: int, d: int, n: nat)
    requires Jumps(a, d, n)
    ensures Jumps(a * A_MULTIPLIER, d + a, n + 1)
  {
    forall x: uint64
      ensures Iterate(x, n + 1) == (x * (a * A_MULTIPLIER) + (d + a)) % TWO64
    {
      StepFirst(x, n);
      Compose(x, A_MULTIPLIER, 1, a, d);
    }
  }

  lemma StepFirst(x: uint64, n: nat)
    ensures Iterate(x, n + 1) == Iterate(NextSeed(x), n)
  {
    assert Iterate(x, 0) == x;
    IterateAdd(x, 1, n);
  }

  lemma OneStep()
    ensures Jumps(A_MULTIPLIER, 1, 1)
  {
    forall x: uint64
      ensures Iterate(x, 1) == (x * A_MULTIPLIER + 1) % TWO64
    {
      assert Iterate(x, 0) == x;
    }
  }

  /** One turn of the loop for a zero bit ... */
  lemma DoubleStep(apow: uint64, dsum: uint64, n: nat)
    requires Jumps(apow, dsum, n)
    ensures Jumps(apow * apow % TWO64, dsum * ((apow + 1) % TWO64) % TWO64, 2 * n)
  {
    hide Jumps;
    var a: int, d: int := apow, dsum;
    JumpTwice(a, d, n);
    ModFactor(d, a + 1, 0);
    JumpsModulo(a * a, d * (a + 1), 2 * n);
  }

  /** ... and what a one bit adds. */
  lemma OddStep(apow: uint64, dsum: uint64, n: nat)
    requires Jumps(apow, dsum, n)
    ensures Jumps(apow * A_MULTIPLIER % TWO64, (dsum + apow) % TWO64, n + 1)
  {
    hide Jumps;
    JumpOneMore(apow, dsum, n);
    JumpsModulo(apow * A_MULTIPLIER, dsum + apow, n + 1);
  }

  lemma JumpFrom(a: int, d: int, count: nat, x: uint64)
    requires Jumps(a, d, ShiftRight(count, 0))
    ensures Iterate(x, count) == (x * a + d) % TWO64
  {
  }

  function ShiftRight(v: nat, bits: nat): nat {
    if bits == 0 then v else ShiftRight(v, bits - 1) / 2
  }

  // ---------------------------------------------------------------------
  // Scaling a seed to a range
  // ---------------------------------------------------------------------

  /** The partial products of a 64-bit by 64-bit multiplication, before the last sum. */
  function Low(v: uint64): nat {
    v % TWO32
  }

  function High(v: uint64): nat {
    v / TWO32
  }

  /** p0 shifted down, plus p1. */
  function PartialSum(seed: uint64, range: uint64): nat {
    Low(seed) * Low(range) / TWO32 + High(seed) * Low(range)
  }

  function CrossProduct(seed: uint64, range: uint64): nat {
    Low(seed) * High(range)
  }

  /** Mul6464WithShiftRight64: the upper 64 bits of the product, with the carry of
      the middle sum guessed from two top bits. */
  function Mul6464(seed: uint64, range: uint64): uint64 {
    SumOfParts(Low(seed) * Low(range) % TWO64, High(seed) * Low(range) % TWO64,
               Low(seed) * High(range) % TWO64, High(seed) * High(range) % TWO64)
  }

  function SumOfParts(p0: uint64, p1: uint64, p2: uint64, p3: uint64): uint64 {
    var s := (p0 / TWO32 + p1) % TWO64;
    var carry := if (p1 >= TWO63 || s >= TWO63) && p2 >= TWO63 then TWO32 else 0;
    var middle := (s + p2) % TWO64;
    (middle / TWO32 + carry + p3) % TWO64
  }

  /** The guess misses a carry when the sum overflows without both top bits set. */
  predicate CarryIsMissed(seed: uint64, range: uint64) {
    var s, p2 := PartialSum(seed, range), CrossProduct(seed, range);
    s + p2 >= TWO64 && (s < TWO63 || p2 < TWO63)
  }

  lemma HalfProductBound(a: nat, b: nat)
    requires a < TWO32 && b < TWO32
    ensures 0 <= a * b <= (TWO32 - 1) * (TWO32 - 1)
  {
    ProductIsMonotone(a, TWO32 - 1, b);
  }

  lemma ProductParts(seed: uint64, range: uint64)
    ensures seed * range ==
            High(seed) * High(range) * TWO64 + (High(seed) * Low(range) + Low(seed) * High(range)) * TWO32
            + Low(seed) * Low(range)
  {
    var su, sl, ru, rl := High(seed), Low(seed), High(range), Low(range);
    assert seed == su * TWO32 + sl && range == ru * TWO32 + rl;
    assert (su * TWO32 + sl) * (ru * TWO32 + rl)
        == (su * TWO32 + sl) * (ru * TWO32) + (su * TWO32 + sl) * rl;
    assert (su * TWO32 + sl) * (ru * TWO32) == su * ru * TWO64 + sl * ru * TWO32;
    assert (su * TWO32 + sl) * rl == su * rl * TWO32 + sl * rl;
  }

  /** The upper half of the true product. */
  lemma TrueUpperHalf(seed: uint64, range: uint64)
    ensures seed * range / TWO64 ==
            High(seed) * High(range) + (PartialSum(seed, range) + CrossProduct(seed, range)) / TWO32
  {
    ProductParts(seed, range);
    var p3 := High(seed) * High(range);
    var low := Low(seed) * Low(range);
    var mid := High(seed) * Low(range) + Low(seed) * High(range) + low / TWO32;
    assert seed * range == p3 * TWO64 + mid * TWO32 + low % TWO32;
    assert mid == mid / TWO32 * TWO32 + mid % TWO32;
    DivisionIsUnique(TWO64, seed * range, p3 + mid / TWO32, mid % TWO32 * TWO32 + low % TWO32);
  }

  lemma CarryIsGuessed(p0: uint64, p1: uint64, p2: uint64, p3: uint64)
    requires p0 / TWO32 + p1 < TWO64
    requires p3 + (p0 / TWO32 + p1 + p2) / TWO32 < TWO64
    ensures var s := p0 / TWO32 + p1;
            var missed := s + p2 >= TWO64 && (s < TWO63 || p2 < TWO63);
            SumOfParts(p0, p1, p2, p3) == p3 + (s + p2) / TWO32 - (if missed then TWO32 else 0)
  {
    var s := p0 / TWO32 + p1;
    assert (s + p2) / TWO32 == (s + p2) % TWO64 / TWO32 + (if s + p2 >= TWO64 then TWO32 else 0);
  }

  lemma SmallModulo(p: nat)
    requires p < TWO64
    ensures p % TWO64 == p
  {
  }

  lemma PartsFit(seed: uint64, range: uint64)
    ensures Low(seed) * Low(range) < TWO64 && High(seed) * Low(range) < TWO64
    ensures CrossProduct(seed, range) < TWO64 && High(seed) * High(range) < TWO64
    ensures PartialSum(seed, range) < TWO64
  {
    hide Low, High;
    HalvesAreSmall(seed);
    HalvesAreSmall(range);
    HalfProductBound(Low(seed), Low(range));
    HalfProductBound(High(seed), Low(range));
    HalfProductBound(Low(seed), High(range));
    HalfProductBound(High(seed), High(range));
  }

  /** The scaled seed is the upper half of the product, exactly when no carry is
      missed; a missed carry lowers it by 2^32. */
  lemma Mul6464Exact(seed: uint64, range: uint64)
    ensures Mul6464(seed, range) == seed * range / TWO64 - (if CarryIsMissed(seed, range) then TWO32 else 0)
    ensures Mul6464(seed, range) == seed * range / TWO64 <==> !CarryIsMissed(seed, range)
  {
    hide Low, High, SumOfParts;
    PartsFit(seed, range);
    TrueUpperHalf(seed, range);
    UpperHalfBound(seed, range);
    var p0, p1 := Low(seed) * Low(range), High(seed) * Low(range);
    var p2, p3 := CrossProduct(seed, range), High(seed) * High(range);
    assert p3 + (p0 / TWO32 + p1 + p2) / TWO32 < TWO64;
    CarryIsGuessed(p0, p1, p2, p3);
    SmallModulo(p0);
    SmallModulo(p1);
    SmallModulo(p2);
    SmallModulo(p3);
  }

  lemma HalvesAreSmall(v: uint64)
    ensures Low(v) < TWO32 && High(v) < TWO32
  {
  }

  lemma UpperHalfBound(seed: uint64, range: uint64)
    ensures 0 <= seed * range / TWO64 <= (if range == 0 then 0 else range - 1)
  {
    ProductIsMonotone(seed, TWO64 - 1, range);
  }

  /** Ranges for which no seed makes the guess miss a carry. */
  predicate IsSafeRange(range: uint64) {
    Low(range) + High(range) <= TWO32
  }

  lemma NoCarry(su: nat, sl: nat, ru: nat, rl: nat)
    requires su < TWO32 && sl < TWO32 && rl < TWO32 && ru + rl <= TWO32
    ensures sl * rl / TWO32 + su * rl + sl * ru < TWO64
  {
    var m := TWO32 - 1;
    ProductIsMonotone(su, m, rl);
    ProductIsMonotone(sl, m, ru);
    ProductIsMonotone(sl, m, rl);
    assert sl * rl <= m * rl;
    assert m * rl / TWO32 <= rl;
    assert m * rl + m * ru == m * (rl + ru);
    ProductIsMonotone(rl + ru, TWO32, m);
    if rl == 0 {
      assert sl * rl == 0;
    } else {
      assert m * rl == (rl - 1) * TWO32 + (TWO32 - rl);
      DivisionIsUnique(TWO32, m * rl, rl - 1, TWO32 - rl);
    }
  }

  lemma SafeRangesAreExact(seed: uint64, range: uint64)
    requires IsSafeRange(range)
    ensures Mul6464(seed, range) == seed * range / TWO64
  {
    hide Mul6464;
    HalvesAreSmall(seed);
    HalvesAreSmall(range);
    NoCarry(High(seed), Low(seed), High(range), Low(range));
    Mul6464Exact(seed, range);
  }

  /** With the top seed every other range of 63 bits misses it. */
  lemma UnsafeRangesMiss(range: uint64)
    requires range < TWO63 && !IsSafeRange(range)
    ensures Mul6464(TWO64 - 1, range) == (TWO64 - 1) * range / TWO64 - TWO32
  {
    hide Mul6464;
    HalvesAreSmall(range);
    var top: uint64 := TWO64 - 1;
    var m, ru, rl := TWO32 - 1, High(range), Low(range);
    assert High(top) == m && Low(top) == m;
    assert ru < TWO32 / 2;
    assert m * rl == (rl - 1) * TWO32 + (TWO32 - rl);
    DivisionIsUnique(TWO32, m * rl, rl - 1, TWO32 - rl);
    assert PartialSum(top, range) == rl - 1 + m * rl && CrossProduct(top, range) == m * ru;
    ProductIsMonotone(TWO32 + 1, rl + ru, m);
    assert CarryIsMissed(top, range);
    Mul6464Exact(top, range);
  }

  /** A caller knows the range, not the seed: all seeds are scaled exactly if and
      only if the two halves of the range add up to no more than 2^32. */
  lemma RangesThatAreExact(range: uint64)
    requires range < TWO63
    ensures (forall seed: uint64 :: Mul6464(seed, range) == seed * range / TWO64) <==> IsSafeRange(range)
  {
    hide Mul6464;
    if IsSafeRange(range) {
      forall seed: uint64
        ensures Mul6464(seed, range) == seed * range / TWO64
      {
        SafeRangesAreExact(seed, range);
      }
    } else {
      UnsafeRangesMiss(range);
      var top: uint64 := TWO64 - 1;
      assert Mul6464(top, range) != top * range / TWO64;
    }
  }

  /** Lower seeds never miss a carry. */
  lemma LowerSeedsAreExact(seed: uint64, range: uint64)
    requires range < TWO63 && seed < TWO63
    ensures Mul6464(seed, range) == seed * range / TWO64
  {
    hide Mul6464;
    HalvesAreSmall(seed);
    HalvesAreSmall(range);
    assert High(range) < TWO32 / 2 && High(seed) < TWO32 / 2;
    ProductIsMonotone(High(range), TWO32 / 2 - 1, Low(seed));
    ProductIsMonotone(High(seed), TWO32 / 2 - 1, Low(range));
    HalfProductBound(Low(seed), Low(range));
    ProductIsMonotone(Low(seed), TWO32 - 1, Low(range));
    assert Low(seed) * Low(range) / TWO32 <= TWO32;
    Mul6464Exact(seed, range);
  }

  /** No seed gives the top of an unsafe range. */
  lemma TopIsNeverDrawn(seed: uint64, range: uint64)
    requires range < TWO63 && !IsSafeRange(range)
    ensures Mul6464(seed, range) < range - 1
  {
    hide Mul6464;
    HalvesAreSmall(seed);
    HalvesAreSmall(range);
    var m, ru, rl := TWO32 - 1, High(range), Low(range);
    assert ru < TWO32 / 2;
    HalfProductBound(Low(seed), ru);
    ProductIsMonotone(ru, TWO32 / 2 - 1, Low(seed));
    assert CrossProduct(seed, range) < TWO63;
    var sum := PartialSum(seed, range) + CrossProduct(seed, range);
    assert CarryIsMissed(seed, range) <==> sum >= TWO64;
    Mul6464Exact(seed, range);
    TrueUpperHalf(seed, range);
    UpperHalfBound(seed, range);
    if sum < TWO64 {
      assert sum / TWO32 <= m;
      ProductIsMonotone(High(seed), m, ru);
    }
  }

  /** The least range that is not: the top seed should give the top of the range,
      and gives 2^32 less. */
  lemma SomeRangeIsNotExact()
    ensures Mul6464(TWO64 - 1, 3 * TWO32 - 1) == 3 * TWO32 - 2 - TWO32
    ensures (TWO64 - 1) * (3 * TWO32 - 1) / TWO64 == 3 * TWO32 - 2
    ensures forall range: uint64 :: range < 3 * TWO32 - 1 ==> IsSafeRange(range)
  {
    Mul6464Exact(TWO64 - 1, 3 * TWO32 - 1);
  }

  /** Whatever the carry does, the scaled seed stays below the range. */
  lemma ScaledIsInRange(seed: uint64, range: uint64)
    requires range > 0
    ensures 0 <= Mul6464(seed, range) < range
  {
    Mul6464Exact(seed, range);
    UpperHalfBound(seed, range);
  }

  /** Mul6432WithShiftRight64, for ranges of 32 bits. */
  function Mul6432(seed: uint64, range: nat): nat
    requires range < TWO32
  {
    (Low(seed) * range / TWO32 + High(seed) * range) / TWO32
  }

  lemma Mul6432Exact(seed: uint64, range: nat)
    requires range < TWO32
    ensures Mul6432(seed, range) == seed * range / TWO64
  {
    TrueUpperHalf(seed, range);
    assert Low(range) == range && High(range) == 0;
  }

  /** A value in [min..max] and the seed that drawing it leaves; a range of one
      value leaves the seed alone. The width must fit its integer type. */
  function Draw(seed: uint64, min: int, max: int): (int, uint64)
    requires max - min + 1 < TWO63
  {
    if max <= min then (min, seed)
    else (min + Mul6464(NextSeed(seed), max - min + 1), NextSeed(seed))
  }

  function DrawInt(seed: uint64, min: int, max: int): (int, uint64)
    requires max - min + 1 < TWO32
  {
    if max <= min then (min, seed)
    else (min + Mul6432(NextSeed(seed), max - min + 1), NextSeed(seed))
  }

  /** The value drawn at the n-th seed of a stream. */
  function NthInRange(start: uint64, n: uint64, min: int, max: int): int
    requires max - min + 1 < TWO63
  {
    if max <= min then min else min + Mul6464(Iterate(start, n), max - min + 1)
  }

  lemma DrawIsInRange(seed: uint64, min: int, max: int)
    requires min <= max && max - min + 1 < TWO63
    ensures min <= Draw(seed, min, max).0 <= max
  {
    if min < max {
      ScaledIsInRange(NextSeed(seed), max - min + 1);
    }
  }

  /** A draw takes one step and scales the new seed, as a fraction of 2^64, to the
      range; a range of one value takes none. */
  lemma DrawIsScaled(seed: uint64, min: int, max: int)
    requires max - min + 1 < TWO63
    ensures max <= min ==> Draw(seed, min, max) == (min, seed)
    ensures min < max && IsSafeRange(max - min + 1) ==>
              Draw(seed, min, max) == (min + NextSeed(seed) * (max - min + 1) / TWO64, NextSeed(seed))
  {
    hide Mul6464, NextSeed;
    if min < max && IsSafeRange(max - min + 1) {
      SafeRangesAreExact(NextSeed(seed), max - min + 1);
    }
  }

  lemma DrawIntIsScaled(seed: uint64, min: int, max: int)
    requires max - min + 1 < TWO32
    ensures max <= min ==> DrawInt(seed, min, max) == (min, seed)
    ensures min < max ==> DrawInt(seed, min, max) == (min + NextSeed(seed) * (max - min + 1) / TWO64, NextSeed(seed))
  {
    hide Mul6432, NextSeed;
    if min < max {
      Mul6432Exact(NextSeed(seed), max - min + 1);
    }
  }

  /** The value at a position of a stream is the one that the draw there would give. */
  lemma NthIsTheDraw(start: uint64, n: uint64, min: int, max: int)
    requires n > 0 && max - min + 1 < TWO63
    ensures NthInRange(start, n, min, max) == Draw(Iterate(start, n - 1), min, max).0
  {
    hide Mul6464, NextSeed;
  }

  /** The first seeds from 0 on: 0, 1, and the multiplier plus 1. */
  lemma FirstSeeds()
    ensures NextSeed(0) == 1 && NextSeed(1) == 6364136223846793006
  {
  }

  lemma DrawIntIsInRange(seed: uint64, min: int, max: int)
    requires min <= max && max - min + 1 < TWO32
    ensures min <= DrawInt(seed, min, max).0 <= max
  {
    if min < max {
      Mul6432Exact(NextSeed(seed), max - min + 1);
      UpperHalfBound(NextSeed(seed), max - min + 1);
    }
  }

  lemma NthIsInRange(start: uint64, n: uint64, min: int, max: int)
    requires min <= max && max - min + 1 < TWO63
    ensures min <= NthInRange(start, n, min, max) <= max
  {
    if min < max {
      ScaledIsInRange(Iterate(start, n), max - min + 1);
    }
  }

  // ---------------------------------------------------------------------
  // The generator object
  // ---------------------------------------------------------------------

  class CRandom {
    var seed: uint64

    constructor (seed: uint64)
      ensures this.seed == seed
    {
      this.seed := seed;
    }

    method SetSeed(seed: uint64)
      modifies this
      ensures this.seed == seed
    {
      this.seed := seed;
    }

    method UInt64Rand() returns (r: uint64)
      modifies this
      ensures r == seed == NextSeed(old(seed))
    {
      seed := (seed * A_MULTIPLIER + C_INCREMENT) % TWO64;
      return seed;
    }

    /** The seed `count` steps after `start`, one bit of `count` at a time. */
    method RndNthElement(start: uint64, count: uint64) returns (r: uint64)
      ensures r == Iterate(start, count)
    {
      if count == 0 {
        return start;
      }
      hide Jumps;
      var bit := HighestBit(count);
      var apow: uint64, dsum: uint64 := A_MULTIPLIER, 1;
      OneStep();
      while bit > 0
        invariant Jumps(apow, dsum, ShiftRight(count, bit))
      {
        ghost var n := ShiftRight(count, bit);
        bit := bit - 1;
        DoubleStep(apow, dsum, n);
        dsum := dsum * ((apow + 1) % TWO64) % TWO64;
        apow := apow * apow % TWO64;
        if ShiftRight(count, bit) % 2 == 1 {
          OddStep(apow, dsum, 2 * n);
          dsum := (dsum + apow) % TWO64;
          apow := apow * A_MULTIPLIER % TWO64;
        }
      }
      JumpFrom(apow, dsum, count, start);
      return (start * apow + dsum * C_INCREMENT) % TWO64;
    }

    method RndInt64Range(min: int, max: int) returns (v: int)
      requires max - min + 1 < TWO63
      modifies this
      ensures (v, seed) == Draw(old(seed), min, max)
    {
      if max <= min {
        return min;
      }
      var range := max - min + 1;
      var _ := UInt64Rand();
      return min + Mul6464(seed, range);
    }

    method RndIntRange(min: int, max: int) returns (v: int)
      requires max - min + 1 < TWO32
      modifies this
      ensures (v, seed) == DrawInt(old(seed), min, max)
    {
      if max <= min {
        return min;
      }
      var range := max - min + 1;
      var _ := UInt64Rand();
      return min + Mul6432(seed, range);
    }

    method RndNthInt64Range(start: uint64, n: uint64, min: int, max: int) returns (v: int)
      requires max - min + 1 < TWO63
      ensures v == NthInRange(start, n, min, max)
    {
      if max <= min {
        return min;
      }
      var nseed := RndNthElement(start, n);
      return min + Mul6464(nseed, max - min + 1);
    }

    static method HighestBit(count: uint64) returns (bit: nat)
      requires count > 0
      ensures ShiftRight(count, bit) == 1
    {
      bit := 0;
      while ShiftRight(count, bit) != 1
        invariant ShiftRight(count, bit) >= 1
        decreases ShiftRight(count, bit)
      {
        bit := bit + 1;
      }
    }
  }
}
