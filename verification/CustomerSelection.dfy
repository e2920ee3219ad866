/** Customer ids within a load unit of 1000: the scrambling permutation, the tiers
    it induces and the scrambled ordinal that decides how many accounts a customer has. */
module CustomerSelection {
  import opened Arithmetic
  import opened Random

  const LOAD_UNIT_SIZE := 1000

  datatype Tier = One | Two | Three

  /** The remainder of C++: it takes the sign of the dividend. */
  function Rem(a: int, b: nat): int
    requires b > 0
  {
    if a >= 0 then a % b else -((-a) % b)
  }

  function Permute(low: int, high: int): int {
    Rem(677 * low + 33 * (high + 1), 1000)
  }

  function InversePermute(low: int, high: int): int {
    Rem(Rem(613 * (low - 33 * (high + 1)), 1000) + 1000, 1000)
  }

  /** Lower three digits and higher digits of an id, which counts from 1. */
  function CLow(cid: int): int
    requires cid >= 1
  {
    (cid - 1) % 1000
  }

  function CHigh(cid: int): int
    requires cid >= 1
  {
    (cid - 1) / 1000
  }

  lemma RemIsMadePositive(a: int, m: nat)
    requires m > 0
    ensures Rem(Rem(a, m) + m, m) == a % m
  {
    if a >= 0 {
      CongruentBy(m, Rem(a, m) + m, a % m, 1);
      SmallRemainder(m, a % m);
    } else {
      DivisionParts(m, -a);
      var q, r := -a / m, -a % m;
      CongruentBy(m, a, m - r, -q - 1);
    }
  }

  lemma InversePermuteIsEuclidean(low: int, high: int)
    ensures InversePermute(low, high) == 613 * (low - 33 * (high + 1)) % 1000
    ensures 0 <= InversePermute(low, high) < 1000
  {
    hide Rem;
    RemIsMadePositive(613 * (low - 33 * (high + 1)), 1000);
  }

  /** 613 is the inverse of 677 modulo 1000, so the two permutations undo each other. */
  lemma PermutationsInvert(low: int, high: int)
    requires 0 <= low < 1000 && high >= 0
    ensures InversePermute(Permute(low, high), high) == low
    ensures Permute(InversePermute(low, high), high) == low
  {
    hide InversePermute, Permute;
    InversePermuteIsEuclidean(Permute(low, high), high);
    InversePermuteIsEuclidean(low, high);
    PermuteIsEuclidean(low, high);
    PermuteIsEuclidean(InversePermute(low, high), high);
    AffineInverse(1000, 677, 613, 33 * (high + 1), low);
  }

  lemma PermuteIsEuclidean(low: int, high: int)
    requires low >= 0 && high >= 0
    ensures Permute(low, high) == (677 * low + 33 * (high + 1)) % 1000
  {
  }

  /** From customer to customer the permuted digits step by 677, from load unit to
      load unit by 33, starting with 33. */
  lemma PermutedSteps(low: nat, high: nat)
    ensures (Permute(low + 1, high) - Permute(low, high)) % LOAD_UNIT_SIZE == 677
    ensures (Permute(low, high + 1) - Permute(low, high)) % LOAD_UNIT_SIZE == 33
    ensures Permute(0, 0) == 33
  {
    hide Permute;
    PermuteIsEuclidean(low, high);
    PermuteIsEuclidean(low + 1, high);
    PermuteIsEuclidean(low, high + 1);
    PermuteIsEuclidean(0, 0);
    var x := 677 * low + 33 * (high + 1);
    RemaindersDiffer(LOAD_UNIT_SIZE, x, x + 677);
    RemaindersDiffer(LOAD_UNIT_SIZE, x, x + 33);
  }

  /** Ids for which the 32-bit arithmetic of the scrambling does not wrap around. */
  predicate FitsUint(cid: int) {
    cid >= 1 && 59 * 999 + 47 * (CHigh(cid) + 1) < TWO32
  }

  function GetTier(cid: int): Tier
    requires cid >= 1
  {
    var rev := InversePermute(CLow(cid), CHigh(cid));
    if rev < 200 then One else if rev < 800 then Two else Three
  }

  function Scramble(inverse: int, high: int): int {
    if inverse < 200 then (3 * inverse + (high + 1)) % TWO32 % 200
    else if inverse < 800 then (59 * inverse + 47 * (high + 1)) % TWO32 % 600 + 200
    else (23 * inverse + 17 * (high + 1)) % TWO32 % 200 + 800
  }

  /** The scrambled inverse customer id, from 0 to 999. */
  function GetInverseCID(cid: int): int
    requires cid >= 1
  {
    var high := CHigh(cid) % TWO32;
    Scramble(InversePermute(CLow(cid), high), high)
  }

  /** The scrambled ordinal stays in the range of the customer's tier. */
  lemma InverseKeepsTier(cid: int)
    requires FitsUint(cid)
    ensures 0 <= GetInverseCID(cid) < 1000
    ensures GetTier(cid) == (if GetInverseCID(cid) < 200 then One else if GetInverseCID(cid) < 800 then Two else Three)
  {
    hide InversePermute, Scramble;
    var high := CHigh(cid);
    assert high % TWO32 == high;
    InversePermuteIsEuclidean(CLow(cid), high);
    ScrambleRange(InversePermute(CLow(cid), high), high);
  }

  /** Within a load unit no two customers share a scrambled ordinal. */
  lemma InverseIsInjective(high: int, low: int, other: int)
    requires 0 <= low < 1000 && 0 <= other < 1000 && high >= 0
    requires FitsUint(high * 1000 + 1)
    requires GetInverseCID(high * 1000 + low + 1) == GetInverseCID(high * 1000 + other + 1)
    ensures low == other
  {
    InverseOf(high, low);
    InverseOf(high, other);
    hide InversePermute, Permute, Scramble, GetInverseCID;
    ScrambleIsInjective(InversePermute(low, high), InversePermute(other, high), high);
    PermutationsInvert(low, high);
    PermutationsInvert(other, high);
  }

  lemma InverseOf(high: int, low: int)
    requires 0 <= low < 1000 && high >= 0
    requires FitsUint(high * 1000 + 1)
    ensures GetInverseCID(high * 1000 + low + 1) == Scramble(InversePermute(low, high), high)
    ensures 0 <= InversePermute(low, high) < 1000
    ensures 59 * 999 + 47 * (high + 1) < TWO32
  {
    hide InversePermute, Scramble;
    InversePermuteIsEuclidean(low, high);
    assert CHigh(high * 1000 + 1) == high;
    assert CLow(high * 1000 + low + 1) == low && CHigh(high * 1000 + low + 1) == high;
  }

  lemma ScrambleIsInjective(a: int, b: int, high: int)
    requires 0 <= a < 1000 && 0 <= b < 1000
    requires 0 <= high && 59 * 999 + 47 * (high + 1) < TWO32
    requires Scramble(a, high) == Scramble(b, high)
    ensures a == b
  {
    hide Scramble;
    ScrambleRange(a, high);
    ScrambleRange(b, high);
    if a < 200 {
      TierOneIsInjective(a, b, high);
    } else if a < 800 {
      TierTwoIsInjective(a, b, high);
    } else {
      TierThreeIsInjective(a, b, high);
    }
  }

  lemma TierOneIsInjective(a: int, b: int, high: int)
    requires 0 <= a < 200 && 0 <= b < 200
    requires 0 <= high && 59 * 999 + 47 * (high + 1) < TWO32
    requires Scramble(a, high) == Scramble(b, high)
    ensures a == b
  {
    hide Scramble;
    ScrambleOne(a, high);
    ScrambleOne(b, high);
    FactorIsInjective(200, 3, 67, a, b, high + 1);
  }

  lemma TierTwoIsInjective(a: int, b: int, high: int)
    requires 200 <= a < 800 && 200 <= b < 800
    requires 0 <= high && 59 * 999 + 47 * (high + 1) < TWO32
    requires Scramble(a, high) == Scramble(b, high)
    ensures a == b
  {
    hide Scramble;
    ScrambleTwo(a, high);
    ScrambleTwo(b, high);
    FactorIsInjective(600, 59, 539, a, b, 47 * (high + 1));
  }

  lemma TierThreeIsInjective(a: int, b: int, high: int)
    requires 800 <= a < 1000 && 800 <= b < 1000
    requires 0 <= high && 59 * 999 + 47 * (high + 1) < TWO32
    requires Scramble(a, high) == Scramble(b, high)
    ensures a == b
  {
    hide Scramble;
    ScrambleThree(a, high);
    ScrambleThree(b, high);
    FactorIsInjective(200, 23, 87, a, b, 17 * (high + 1));
  }

  lemma ScrambleRange(a: int, high: int)
    requires 0 <= a < 1000
    ensures 0 <= Scramble(a, high) < 1000
    ensures a < 200 <==> Scramble(a, high) < 200
    ensures a < 800 <==> Scramble(a, high) < 800
  {
  }

  /** How the scrambled ordinals step, tier by tier, from one permuted customer to the
      next and from load unit to load unit; `StartingOrdinals` says where they start. */
  lemma TierOneSteps(a: int, high: nat)
    requires 0 <= a < 200 && 59 * 999 + 47 * (high + 2) < TWO32
    ensures a < 199 ==> (Scramble(a + 1, high) - Scramble(a, high)) % 200 == 3
    ensures (Scramble(a, high + 1) - Scramble(a, high)) % 200 == 1
  {
    hide Scramble;
    ScrambleOne(a, high);
    ScrambleOne(a, high + 1);
    StepsApart(200, 3 * a + (high + 1), 1);
    if a < 199 {
      ScrambleOne(a + 1, high);
      StepsApart(200, 3 * a + (high + 1), 3);
    }
  }

  lemma TierTwoSteps(a: int, high: nat)
    requires 200 <= a < 800 && 59 * 999 + 47 * (high + 2) < TWO32
    ensures a < 799 ==> (Scramble(a + 1, high) - Scramble(a, high)) % 600 == 59
    ensures (Scramble(a, high + 1) - Scramble(a, high)) % 600 == 47
  {
    hide Scramble;
    ScrambleTwo(a, high);
    ScrambleTwo(a, high + 1);
    StepsApart(600, 59 * a + 47 * (high + 1), 47);
    if a < 799 {
      ScrambleTwo(a + 1, high);
      StepsApart(600, 59 * a + 47 * (high + 1), 59);
    }
  }

  lemma TierThreeSteps(a: int, high: nat)
    requires 800 <= a < 1000 && 59 * 999 + 47 * (high + 2) < TWO32
    ensures a < 999 ==> (Scramble(a + 1, high) - Scramble(a, high)) % 200 == 23
    ensures (Scramble(a, high + 1) - Scramble(a, high)) % 200 == 17
  {
    hide Scramble;
    ScrambleThree(a, high);
    ScrambleThree(a, high + 1);
    StepsApart(200, 23 * a + 17 * (high + 1), 17);
    if a < 999 {
      ScrambleThree(a + 1, high);
      StepsApart(200, 23 * a + 17 * (high + 1), 23);
    }
  }

  lemma StartingOrdinals()
    ensures Scramble(0, 0) == 1 && Scramble(200, 0) == 647 && Scramble(800, 0) == 817
  {
  }

  lemma ScrambleOne(a: int, high: int)
    requires 0 <= a < 200 && 0 <= high && 59 * 999 + 47 * (high + 1) < TWO32
    ensures Scramble(a, high) == (3 * a + (high + 1)) % 200
  {
    assert 0 <= 3 * a + (high + 1) < TWO32;
  }

  lemma ScrambleTwo(a: int, high: int)
    requires 200 <= a < 800 && 0 <= high && 59 * 999 + 47 * (high + 1) < TWO32
    ensures Scramble(a, high) == (59 * a + 47 * (high + 1)) % 600 + 200
  {
    assert 0 <= 59 * a + 47 * (high + 1) < TWO32;
  }

  lemma ScrambleThree(a: int, high: int)
    requires 800 <= a < 1000 && 0 <= high && 59 * 999 + 47 * (high + 1) < TWO32
    ensures Scramble(a, high) == (23 * a + 17 * (high + 1)) % 200 + 800
  {
    assert 0 <= 23 * a + 17 * (high + 1) < TWO32;
  }
}
