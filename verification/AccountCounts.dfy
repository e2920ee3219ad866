/** How many accounts each customer has, and how many a load unit has in total. */
module AccountCounts {
  import opened Arithmetic
  import opened Random
  import opened FullPeriod
  import opened CustomerSelection

  function MinAccounts(tier: Tier): nat {
    match tier
    case One => 1
    case Two => 2
    case Three => 5
  }

  function MaxAccounts(tier: Tier): nat {
    match tier
    case One => 4
    case Two => 8
    case Three => 10
  }

  /** The number of accounts of a customer, for the tier the caller names. */
  function NumberOfAccounts(cid: int, tier: Tier): int
    requires cid >= 1
  {
    var min := MinAccounts(tier);
    var mod := MaxAccounts(tier) - min + 1;
    var inverse := GetInverseCID(cid);
    if inverse < 200 then inverse % mod + min
    else if inverse < 800 then (inverse - 200 + 1) % mod + min
    else (inverse - 800 + 2) % mod + min
  }

  function OwnAccounts(cid: int): int
    requires cid >= 1
  {
    NumberOfAccounts(cid, GetTier(cid))
  }

  /** A customer has a number of accounts that the tier allows. */
  lemma OwnAccountsFitTier(cid: int)
    requires cid >= 1
    ensures MinAccounts(GetTier(cid)) <= OwnAccounts(cid) <= MaxAccounts(GetTier(cid))
    ensures 1 <= OwnAccounts(cid) <= 10
  {
    hide GetTier, GetInverseCID;
  }

  /** Within a tier of ordinals the count goes round the tier's range as the ordinal
      goes up, starting with 1, 3 and 7 accounts. */
  lemma CountsFollowOrdinals(c: int, d: int, tier: Tier)
    requires FitsUint(c) && FitsUint(d) && GetTier(c) == GetTier(d)
    ensures var range := MaxAccounts(tier) - MinAccounts(tier) + 1;
            && MinAccounts(tier) <= NumberOfAccounts(c, tier) <= MaxAccounts(tier)
            && (NumberOfAccounts(d, tier) - NumberOfAccounts(c, tier)) % range
                 == (GetInverseCID(d) - GetInverseCID(c)) % range
    ensures GetInverseCID(c) == 0 ==> NumberOfAccounts(c, One) == 1
    ensures GetInverseCID(c) == 200 ==> NumberOfAccounts(c, Two) == 3
    ensures GetInverseCID(c) == 800 ==> NumberOfAccounts(c, Three) == 7
  {
    hide GetInverseCID, GetTier, NumberOfAccounts;
    InverseKeepsTier(c);
    InverseKeepsTier(d);
    CountOfTier(c, tier);
    CountOfTier(d, tier);
    CountOfTier(c, GetTier(c));
    var range: nat := MaxAccounts(tier) - MinAccounts(tier) + 1;
    var shift := TierShift(GetTier(c));
    RemaindersDiffer(range, GetInverseCID(c) - shift, GetInverseCID(d) - shift);
  }

  function TierShift(tier: Tier): int {
    match tier
    case One => 0
    case Two => 199
    case Three => 798
  }

  lemma CountOfTier(cid: int, tier: Tier)
    requires FitsUint(cid)
    ensures var min := MinAccounts(tier);
            NumberOfAccounts(cid, tier) == (GetInverseCID(cid) - TierShift(GetTier(cid))) % (MaxAccounts(tier) - min + 1) + min
  {
    hide GetInverseCID, GetTier;
    InverseKeepsTier(cid);
  }

  /** The same as a function of the scrambled ordinal alone. */
  function AccountsOf(ordinal: int): int {
    if ordinal < 200 then ordinal % 4 + 1
    else if ordinal < 800 then (ordinal - 199) % 7 + 2
    else (ordinal - 798) % 6 + 5
  }

  lemma CountOfOrdinal(cid: int)
    requires FitsUint(cid)
    ensures OwnAccounts(cid) == AccountsOf(GetInverseCID(cid))
  {
    hide GetInverseCID, GetTier;
    InverseKeepsTier(cid);
  }

  // ---------------------------------------------------------------------
  // Sums over ordinals
  // ---------------------------------------------------------------------

  /** The accounts of those ordinals below `n` that are in a set. */
  function SumOf(ordinals: set<int>, n: nat): int {
    if n == 0 then 0
    else SumOf(ordinals, n - 1) + if n - 1 in ordinals then AccountsOf(n - 1) else 0
  }

  lemma {:induction false} SumWith(ordinals: set<int>, x: int, n: nat)
    requires x !in ordinals && x >= 0
    ensures SumOf(ordinals + {x}, n) == SumOf(ordinals, n) + if x < n then AccountsOf(x) else 0
  {
    hide AccountsOf;
    if n > 0 {
      SumWith(ordinals, x, n - 1);
    }
  }

  lemma {:induction false} SumOfNone(n: nat)
    ensures SumOf({}, n) == 0
  {
    if n > 0 {
      SumOfNone(n - 1);
    }
  }

  function OrdinalSum(n: nat): int {
    if n == 0 then 0 else OrdinalSum(n - 1) + AccountsOf(n - 1)
  }

  lemma {:induction false} SumOfAll(ordinals: set<int>, n: nat)
    requires forall i :: 0 <= i < n ==> i in ordinals
    ensures SumOf(ordinals, n) == OrdinalSum(n)
  {
    hide AccountsOf;
    if n > 0 {
      SumOfAll(ordinals, n - 1);
    }
  }

  lemma FourMore(n: nat)
    ensures OrdinalSum(n + 4) ==
            OrdinalSum(n) + AccountsOf(n) + AccountsOf(n + 1) + AccountsOf(n + 2) + AccountsOf(n + 3)
  {
    hide AccountsOf;
    assert OrdinalSum(n + 1) == OrdinalSum(n) + AccountsOf(n);
    assert OrdinalSum(n + 2) == OrdinalSum(n + 1) + AccountsOf(n + 1);
    assert OrdinalSum(n + 3) == OrdinalSum(n + 2) + AccountsOf(n + 2);
  }

  lemma {:induction false} TierOneSum(q: nat)
    requires 4 * q <= 200
    ensures OrdinalSum(4 * q) == 10 * q
  {
    hide AccountsOf;
    if q > 0 {
      TierOneSum(q - 1);
      FourMore(4 * (q - 1));
      TierOneCycle(q - 1);
    }
  }

  lemma TierOneCycle(q: nat)
    requires 4 * q + 4 <= 200
    ensures AccountsOf(4 * q) == 1 && AccountsOf(4 * q + 1) == 2
    ensures AccountsOf(4 * q + 2) == 3 && AccountsOf(4 * q + 3) == 4
  {
  }

  lemma {:induction false} TierTwoSum(q: nat)
    requires 7 * q <= 595
    ensures OrdinalSum(200 + 7 * q) == 500 + 35 * q
  {
    hide AccountsOf;
    if q == 0 {
      TierOneSum(50);
    } else {
      TierTwoSum(q - 1);
      var n := 200 + 7 * (q - 1);
      FourMore(n);
      FourMore(n + 3);
      TierTwoCycle(q - 1);
      assert OrdinalSum(n + 4) == OrdinalSum(n + 3) + AccountsOf(n + 3);
    }
  }

  lemma TierTwoCycle(q: nat)
    requires 7 * q + 5 <= 600
    ensures var n := 200 + 7 * q;
            AccountsOf(n) == 3 && AccountsOf(n + 1) == 4 && AccountsOf(n + 2) == 5 &&
            AccountsOf(n + 3) == 6 && AccountsOf(n + 4) == 7
    ensures 7 * q + 7 <= 600 ==> AccountsOf(200 + 7 * q + 5) == 8 && AccountsOf(200 + 7 * q + 6) == 2
  {
    assert (7 * q + 1) % 7 == 1 && (7 * q + 2) % 7 == 2 && (7 * q + 3) % 7 == 3;
    assert (7 * q + 4) % 7 == 4 && (7 * q + 5) % 7 == 5 && (7 * q + 6) % 7 == 6 && (7 * q + 7) % 7 == 0;
  }

  lemma {:induction false} TierThreeSum(q: nat)
    requires 6 * q <= 198
    ensures OrdinalSum(800 + 6 * q) == 3500 + 45 * q
  {
    hide AccountsOf;
    if q == 0 {
      TierTwoSum(85);
      TierTwoCycle(85);
      FourMore(795);
      assert OrdinalSum(800) == OrdinalSum(799) + AccountsOf(799);
    } else {
      TierThreeSum(q - 1);
      var n := 800 + 6 * (q - 1);
      FourMore(n);
      TierThreeCycle(q - 1);
      assert OrdinalSum(n + 5) == OrdinalSum(n + 4) + AccountsOf(n + 4);
      assert OrdinalSum(n + 6) == OrdinalSum(n + 5) + AccountsOf(n + 5);
    }
  }

  lemma TierThreeCycle(q: nat)
    ensures var n := 800 + 6 * q;
            AccountsOf(n) == 7 && AccountsOf(n + 1) == 8 && AccountsOf(n + 2) == 9 &&
            AccountsOf(n + 3) == 10 && AccountsOf(n + 4) == 5 && AccountsOf(n + 5) == 6
  {
    DivisionIsUnique(6, 6 * q + 2, q, 2);
    DivisionIsUnique(6, 6 * q + 3, q, 3);
    DivisionIsUnique(6, 6 * q + 4, q, 4);
    DivisionIsUnique(6, 6 * q + 5, q, 5);
    DivisionIsUnique(6, 6 * q + 6, q + 1, 0);
    DivisionIsUnique(6, 6 * q + 7, q + 1, 1);
  }

  lemma UnitOrdinalSum()
    ensures OrdinalSum(1000) == 5000
  {
    hide AccountsOf;
    TierThreeSum(33);
    TierThreeCycle(33);
    assert OrdinalSum(999) == OrdinalSum(998) + AccountsOf(998);
    assert OrdinalSum(1000) == OrdinalSum(999) + AccountsOf(999);
  }

  // ---------------------------------------------------------------------
  // Sums over customers
  // ---------------------------------------------------------------------

  /** The accounts of `n` consecutive customers from id `first` on. */
  function TotalAccounts(first: int, n: nat): int
    requires first >= 1
  {
    if n == 0 then 0 else TotalAccounts(first, n - 1) + OwnAccounts(first + n - 1)
  }

  /** The accounts of customers with the given scrambled ordinals. */
  function AccountsOver(ordinals: seq<int>): int {
    if ordinals == [] then 0 else AccountsOver(ordinals[..|ordinals| - 1]) + AccountsOf(ordinals[|ordinals| - 1])
  }

  /** Each ordinal of a load unit once, in any order. */
  ghost predicate IsPermutation(ordinals: seq<int>, n: nat) {
    && |ordinals| == n
    && (forall i :: 0 <= i < n ==> 0 <= ordinals[i] < n)
    && (forall i, j :: 0 <= i < j < n ==> ordinals[i] != ordinals[j])
  }

  ghost function Members(ordinals: seq<int>): (members: set<int>)
    ensures forall x :: x in members <==> x in ordinals
  {
    if ordinals == [] then {}
    else
      assert ordinals == ordinals[..|ordinals| - 1] + [ordinals[|ordinals| - 1]];
      Members(ordinals[..|ordinals| - 1]) + {ordinals[|ordinals| - 1]}
  }

  lemma {:induction false} OverIsSetSum(ordinals: seq<int>, unit: nat)
    requires forall i :: 0 <= i < |ordinals| ==> 0 <= ordinals[i] < unit
    requires forall i, j :: 0 <= i < j < |ordinals| ==> ordinals[i] != ordinals[j]
    ensures AccountsOver(ordinals) == SumOf(Members(ordinals), unit)
    ensures |Members(ordinals)| == |ordinals|
  {
    hide AccountsOf, SumOf;
    if ordinals == [] {
      SumOfNone(unit);
    } else {
      var init, last := ordinals[..|ordinals| - 1], ordinals[|ordinals| - 1];
      OverIsSetSum(init, unit);
      assert last !in init;
      SumWith(Members(init), last, unit);
    }
  }

  /** However the customers of a load unit are permuted, the sum is the same. */
  lemma AnyPermutationHas5000Accounts(ordinals: seq<int>)
    requires IsPermutation(ordinals, LOAD_UNIT_SIZE)
    ensures AccountsOver(ordinals) == 5000
  {
    hide AccountsOf, SumOf, OrdinalSum, Below;
    var unit: nat :| unit == LOAD_UNIT_SIZE;
    var members := Members(ordinals);
    OverIsSetSum(ordinals, unit);
    SubsetOfSameSize(members, Below(unit));
    SumOfAll(members, unit);
    UnitOrdinalSum();
  }

  /** The scrambled ordinals of the first `n` customers of a load unit. */
  function OrdinalsOf(high: nat, n: nat): (ordinals: seq<int>)
    ensures |ordinals| == n && forall i :: 0 <= i < n ==> ordinals[i] == GetInverseCID(high * 1000 + i + 1)
  {
    seq(n, i requires 0 <= i < n => GetInverseCID(high * 1000 + i + 1))
  }

  lemma FitsThroughoutUnit(high: nat, low: nat)
    requires FitsUint(high * 1000 + 1) && low < 1000
    ensures FitsUint(high * 1000 + low + 1)
  {
    assert CHigh(high * 1000 + low + 1) == high && CHigh(high * 1000 + 1) == high;
  }

  lemma {:induction false} TotalIsOver(high: nat, n: nat)
    requires FitsUint(high * 1000 + 1) && n <= LOAD_UNIT_SIZE
    ensures TotalAccounts(high * 1000 + 1, n) == AccountsOver(OrdinalsOf(high, n))
  {
    hide GetInverseCID, FitsUint, AccountsOf, OwnAccounts;
    if n > 0 {
      TotalIsOver(high, n - 1);
      FitsThroughoutUnit(high, n - 1);
      CountOfOrdinal(high * 1000 + n);
      assert OrdinalsOf(high, n)[..n - 1] == OrdinalsOf(high, n - 1);
    }
  }

  /** The scrambling permutes each load unit of customers ... */
  lemma OrdinalsArePermuted(high: nat)
    requires FitsUint(high * 1000 + 1)
    ensures IsPermutation(OrdinalsOf(high, LOAD_UNIT_SIZE), LOAD_UNIT_SIZE)
  {
    hide GetInverseCID, FitsUint;
    var ordinals := OrdinalsOf(high, LOAD_UNIT_SIZE);
    forall i | 0 <= i < LOAD_UNIT_SIZE
      ensures 0 <= ordinals[i] < LOAD_UNIT_SIZE
    {
      FitsThroughoutUnit(high, i);
      InverseKeepsTier(high * 1000 + i + 1);
    }
    forall i, j | 0 <= i < j < LOAD_UNIT_SIZE
      ensures ordinals[i] != ordinals[j]
    {
      if ordinals[i] == ordinals[j] {
        InverseIsInjective(high, i, j);
      }
    }
  }

  /** ... so every load unit of 1000 customers has exactly 5000 accounts. */
  lemma UnitHas5000Accounts(high: nat)
    requires FitsUint(high * 1000 + 1)
    ensures TotalAccounts(high * 1000 + 1, LOAD_UNIT_SIZE) == 5000
  {
    hide FitsUint, AccountsOver, TotalAccounts, OrdinalsOf, IsPermutation;
    var unit: nat :| unit == LOAD_UNIT_SIZE;
    OrdinalsArePermuted(high);
    TotalIsOver(high, unit);
    AnyPermutationHas5000Accounts(OrdinalsOf(high, unit));
  }

  lemma {:induction false} TotalSplits(first: int, m: nat, n: nat)
    requires first >= 1
    ensures TotalAccounts(first, m + n) == TotalAccounts(first, m) + TotalAccounts(first + m, n)
  {
    hide OwnAccounts;
    if n > 0 {
      TotalSplits(first, m, n - 1);
      assert first + m + n - 1 == first + (m + n) - 1;
    }
  }

  /** And so n load units have 5000 * n accounts. */
  lemma {:induction false} UnitsHave5000AccountsEach(high: nat, n: nat)
    requires n > 0 ==> FitsUint((high + n - 1) * 1000 + 1)
    ensures TotalAccounts(high * 1000 + 1, 1000 * n) == 5000 * n
  {
    hide FitsUint, OwnAccounts;
    if n > 0 {
      if n > 1 {
        EarlierUnitFits(high + n - 1);
      }
      UnitsHave5000AccountsEach(high, n - 1);
      TotalSplits(high * 1000 + 1, 1000 * (n - 1), 1000);
      UnitHas5000Accounts(high + n - 1);
    }
  }

  lemma EarlierUnitFits(high: nat)
    requires high > 0 && FitsUint(high * 1000 + 1)
    ensures FitsUint((high - 1) * 1000 + 1)
  {
    assert CHigh(high * 1000 + 1) == high && CHigh((high - 1) * 1000 + 1) == high - 1;
  }
}
