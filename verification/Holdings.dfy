/** The securities of a customer account: the k-th distinct value of a stream of
    draws that the account seeds, behind a flattened cache. */
module Holdings {
  import opened Arithmetic
  import opened Random
  import opened FullPeriod

  const MAX_SECURITIES_PER_ACCOUNT := 18
  const MAX_ACCOUNTS_PER_CUST := 10
  const LOAD_UNIT_SIZE := 1000
  const IDENT_SHIFT := 4_300_000_000
  const EMPTY_CELL := -1

  // ---------------------------------------------------------------------
  // The stream of draws and its distinct values
  // ---------------------------------------------------------------------

  /** Security counts whose range fits the source's signed arithmetic. */
  predicate CountIsSound(count: nat) {
    0 < count < TWO63
  }

  /** The seed after `n` draws of a security index. */
  function SeedAfter(start: uint64, count: nat, n: nat): uint64
    requires CountIsSound(count)
  {
    if n == 0 then start else Draw(SeedAfter(start, count, n - 1), 0, count - 1).1
  }

  /** The value that draw number `n` (from 0) gives. */
  function Drawn(start: uint64, count: nat, n: nat): int
    requires CountIsSound(count)
  {
    Draw(SeedAfter(start, count, n), 0, count - 1).0
  }

  /** The distinct values among the first `n` draws, in order of first appearance. */
  function Distinct(start: uint64, count: nat, n: nat): seq<int>
    requires CountIsSound(count)
  {
    if n == 0 then []
    else
      var before, v := Distinct(start, count, n - 1), Drawn(start, count, n - 1);
      if v in before then before else before + [v]
  }

  ghost predicate NoDuplicates(s: seq<int>) {
    forall i, j :: 0 <= i < j < |s| ==> s[i] != s[j]
  }

  lemma {:induction false} DistinctValues(start: uint64, count: nat, n: nat)
    requires CountIsSound(count)
    ensures NoDuplicates(Distinct(start, count, n))
    ensures forall v :: v in Distinct(start, count, n) ==> 0 <= v < count
    ensures forall i: nat :: i < n ==> Drawn(start, count, i) in Distinct(start, count, n)
  {
    if n > 0 {
      DistinctValues(start, count, n - 1);
      DrawIsInRange(SeedAfter(start, count, n - 1), 0, count - 1);
    }
  }

  /** The values of the first `n` draws. */
  ghost function ValuesDrawn(start: uint64, count: nat, n: nat): set<int>
    requires CountIsSound(count)
  {
    set i: nat | i < n :: Drawn(start, count, i)
  }

  lemma {:induction false} DistinctAreDrawn(start: uint64, count: nat, n: nat)
    requires CountIsSound(count)
    ensures |ValuesDrawn(start, count, n)| == |Distinct(start, count, n)|
    ensures forall v :: v in Distinct(start, count, n) <==> v in ValuesDrawn(start, count, n)
  {
    hide Drawn;
    if n > 0 {
      DistinctAreDrawn(start, count, n - 1);
      assert ValuesDrawn(start, count, n) == ValuesDrawn(start, count, n - 1) + {Drawn(start, count, n - 1)};
    } else {
      assert ValuesDrawn(start, count, n) == {};
    }
  }

  /** The draw that adds the k-th distinct value. */
  lemma {:induction false} DrawThatAdds(start: uint64, count: nat, n: nat, k: nat) returns (i: nat)
    requires CountIsSound(count) && 1 <= k <= |Distinct(start, count, n)|
    ensures i < n && |Distinct(start, count, i)| == k - 1 && Drawn(start, count, i) !in Distinct(start, count, i)
    ensures Distinct(start, count, n)[k - 1] == Drawn(start, count, i)
    decreases n
  {
    hide Drawn;
    if k <= |Distinct(start, count, n - 1)| {
      i := DrawThatAdds(start, count, n - 1, k);
    } else {
      i := n - 1;
    }
  }

  lemma {:induction false} DistinctGrows(start: uint64, count: nat, m: nat, n: nat)
    requires CountIsSound(count) && m <= n
    ensures Distinct(start, count, m) <= Distinct(start, count, n)
    decreases n
  {
    if m < n {
      DistinctGrows(start, count, m, n - 1);
    }
  }

  lemma {:induction false} SeedsAreIterates(start: uint64, count: nat, n: nat)
    requires CountIsSound(count) && count > 1
    ensures SeedAfter(start, count, n) == Iterate(start, n)
  {
    if n > 0 {
      SeedsAreIterates(start, count, n - 1);
    }
  }

  /** As the generator has full period, every security within reach is drawn in
      the end. */
  lemma EverySecurityIsDrawn(start: uint64, count: nat, v: nat) returns (n: nat)
    requires CountIsSound(count) && v < Reach(count)
    ensures n < TWO64 && Drawn(start, count, n) == v
  {
    if count == 1 {
      n := 0;
    } else {
      n := EveryValueIsDrawn(NextSeed(start), count, v);
      SeedsAreIterates(start, count, n);
      StepFirst(start, n);
    }
  }

  lemma {:induction false} SetOfSequence(s: seq<int>)
    ensures |set v | v in s| <= |s|
  {
    if s != [] {
      var n := |s| - 1;
      SetOfSequence(s[..n]);
      assert (set v | v in s) == (set v | v in s[..n]) + {s[n]};
    }
  }

  /** Within 2^64 draws all values within reach have appeared. */
  lemma AllAppear(start: uint64, count: nat, n: nat)
    requires CountIsSound(count) && n >= TWO64
    ensures |Distinct(start, count, n)| >= Reach(count)
  {
    var s := Distinct(start, count, n);
    DistinctValues(start, count, n);
    var values := set v | v in s;
    forall v | v in Below(Reach(count))
      ensures v in values
    {
      var i := EverySecurityIsDrawn(start, count, v);
      assert Drawn(start, count, i) in s;
    }
    SetOfSequence(s);
    var reached := Below(Reach(count));
    assert reached <= values;
    assert |values - reached| == |values| - |values * reached| && values * reached == reached;
  }

  lemma EnoughAppear(start: uint64, count: nat, k: nat)
    requires CountIsSound(count) && k <= Reach(count)
    ensures exists n :: |Distinct(start, count, n)| >= k
  {
    var n: nat :| n >= TWO64;
    AllAppear(start, count, n);
  }

  /** The k-th distinct security of a stream, counted from 1: the same however far
      the stream is followed. */
  ghost function KthDistinct(start: uint64, count: nat, k: nat): int
    requires CountIsSound(count) && 1 <= k <= Reach(count)
  {
    EnoughAppear(start, count, k);
    var n :| |Distinct(start, count, n)| >= k;
    Distinct(start, count, n)[k - 1]
  }

  /** Drawing may stop as soon as `k` distinct values are known, and does before 2^64 draws. */
  lemma EnoughDraws(start: uint64, count: nat, n: nat, k: nat)
    requires CountIsSound(count) && 1 <= k <= Reach(count)
    ensures |Distinct(start, count, n)| >= k ==> Distinct(start, count, n)[k - 1] == KthDistinct(start, count, k)
    ensures |Distinct(start, count, n)| < k ==> n < TWO64
  {
    EnoughAppear(start, count, k);
    var m :| |Distinct(start, count, m)| >= k && KthDistinct(start, count, k) == Distinct(start, count, m)[k - 1];
    if n <= m {
      DistinctGrows(start, count, n, m);
    } else {
      DistinctGrows(start, count, m, n);
    }
    if n >= TWO64 {
      AllAppear(start, count, n);
    }
  }

  /** The k-th distinct value is drawn first right after k - 1 other values were. */
  lemma KthIsFirstNew(start: uint64, count: nat, k: nat) returns (i: nat)
    requires CountIsSound(count) && 1 <= k <= Reach(count)
    ensures Drawn(start, count, i) == KthDistinct(start, count, k)
    ensures Drawn(start, count, i) !in ValuesDrawn(start, count, i)
    ensures |ValuesDrawn(start, count, i)| == k - 1
  {
    hide Drawn, ValuesDrawn, Distinct, KthDistinct;
    EnoughAppear(start, count, k);
    var n: nat :| |Distinct(start, count, n)| >= k;
    EnoughDraws(start, count, n, k);
    i := DrawThatAdds(start, count, n, k);
    DistinctAreDrawn(start, count, i);
  }

  /** Draw number `n` is the next seed but `n`, scaled as a fraction of 2^64. */
  lemma DrawnIsScaled(start: uint64, count: nat, n: nat)
    requires CountIsSound(count) && IsSafeRange(count)
    ensures Drawn(start, count, n) == if count == 1 then 0 else Iterate(start, n + 1) * count / TWO64
  {
    hide IsSafeRange;
    if count > 1 {
      SeedsAreIterates(start, count, n);
      DrawIsScaled(Iterate(start, n), 0, count - 1);
    }
  }

  /** The securities of an account are pairwise different and exist. */
  lemma SecuritiesAreDistinct(start: uint64, count: nat, j: nat, k: nat)
    requires CountIsSound(count) && 1 <= j <= Reach(count) && 1 <= k <= Reach(count)
    ensures 0 <= KthDistinct(start, count, k) < count
    ensures KthDistinct(start, count, j) == KthDistinct(start, count, k) <==> j == k
  {
    var n: nat :| n >= TWO64;
    EnoughDraws(start, count, n, j);
    EnoughDraws(start, count, n, k);
    DistinctValues(start, count, n);
    assert Distinct(start, count, n)[k - 1] in Distinct(start, count, n);
  }

  // ---------------------------------------------------------------------
  // The table
  // ---------------------------------------------------------------------

  /** The seed of an account's stream. */
  function StartingSeed(account: int): uint64 {
    Iterate(SEED_BASE_STARTING_SECURITY_ID, account % TWO64 * MAX_SECURITIES_PER_ACCOUNT % TWO64)
  }

  /** The streams of accounts follow each other, 18 draws apart. */
  lemma AccountsAre18DrawsApart(account: nat)
    ensures StartingSeed(account + 1) == Iterate(StartingSeed(account), MAX_SECURITIES_PER_ACCOUNT)
    ensures StartingSeed(0) == SEED_BASE_STARTING_SECURITY_ID
  {
    hide Iterate;
    ModFactor(MAX_SECURITIES_PER_ACCOUNT, account, 0);
    ModFactor(MAX_SECURITIES_PER_ACCOUNT, account + 1, 0);
    NextPlace(SEED_BASE_STARTING_SECURITY_ID, account, MAX_SECURITIES_PER_ACCOUNT);
    NoStepAtAll(SEED_BASE_STARTING_SECURITY_ID);
  }

  function GetStartingCA_ID(customer: int): int {
    (customer - 1) * MAX_ACCOUNTS_PER_CUST + 1
  }

  ghost function Security(account: int, count: nat, k: nat): int
    requires CountIsSound(count) && 1 <= k <= Reach(count)
  {
    KthDistinct(StartingSeed(account), count, k)
  }

  function CellOf(account: int, offset: int, k: int): int {
    (account - offset) * MAX_SECURITIES_PER_ACCOUNT + k - 1
  }

  /** Cells of different accounts or positions never coincide. */
  lemma CellsDoNotAlias(a: int, b: int, offset: int, j: int, k: int)
    requires 1 <= j <= MAX_SECURITIES_PER_ACCOUNT && 1 <= k <= MAX_SECURITIES_PER_ACCOUNT
    ensures CellOf(a, offset, j) == CellOf(b, offset, k) <==> a == b && j == k
  {
  }

  ghost predicate HasCell(account: int, k: int, offset: int, count: nat, size: nat) {
    1 <= k <= MAX_SECURITIES_PER_ACCOUNT && k <= count && 0 <= CellOf(account, offset, k) < size
  }

  /** Every filled cell holds the security of its account and position. */
  ghost predicate CacheIsTrue(cells: seq<int>, offset: int, count: nat)
    requires CountIsSound(count)
  {
    forall account, k | HasCell(account, k, offset, count, |cells|) ::
      cells[CellOf(account, offset, k)] == EMPTY_CELL ||
      cells[CellOf(account, offset, k)] == Security(account, count, k)
  }

  lemma FillingKeepsTruth(cells: seq<int>, offset: int, count: nat, account: int, k: int)
    requires CountIsSound(count) && CacheIsTrue(cells, offset, count)
    requires HasCell(account, k, offset, count, |cells|)
    ensures CacheIsTrue(cells[CellOf(account, offset, k) := Security(account, count, k)], offset, count)
  {
    hide Security, CellOf;
    var filled := cells[CellOf(account, offset, k) := Security(account, count, k)];
    forall a, j | HasCell(a, j, offset, count, |filled|)
      ensures filled[CellOf(a, offset, j)] == EMPTY_CELL || filled[CellOf(a, offset, j)] == Security(a, count, j)
    {
      CellsDoNotAlias(account, a, offset, k, j);
    }
  }

  class HoldingsTable {
    const rnd: CRandom
    const securityCount: nat
    const cacheEnabled: bool
    const securityIds: array<int>
    const cache: array<int>
    var cacheOffset: int

    ghost predicate Valid()
      reads this, cache
    {
      && CountIsSound(securityCount)
      && securityIds.Length == MAX_SECURITIES_PER_ACCOUNT && securityIds != cache
      && CacheIsTrue(cache[..], cacheOffset, securityCount)
    }

    constructor (securityCount: nat, startFromCustomer: int, cacheEnabled: bool)
      requires CountIsSound(securityCount)
      ensures Valid() && fresh(rnd) && fresh(securityIds) && fresh(cache)
      ensures this.securityCount == securityCount && this.cacheEnabled == cacheEnabled
    {
      rnd := new CRandom(SEED_TABLE_DEFAULT);
      this.securityCount, this.cacheEnabled := securityCount, cacheEnabled;
      securityIds := new int[MAX_SECURITIES_PER_ACCOUNT];
      var size := if cacheEnabled then LOAD_UNIT_SIZE * MAX_ACCOUNTS_PER_CUST * MAX_SECURITIES_PER_ACCOUNT else 0;
      cache := new int[size](_ => EMPTY_CELL);
      cacheOffset := GetStartingCA_ID(startFromCustomer) + IDENT_SHIFT * MAX_ACCOUNTS_PER_CUST;
    }

    /** Moves the cached window to another load unit. */
    method InitNextLoadUnit(tradesToSkip: uint64, startingAccount: int)
      requires Valid()
      modifies this`cacheOffset, rnd, cache
      ensures Valid()
      ensures rnd.seed == Iterate(SEED_TABLE_DEFAULT, tradesToSkip)
      ensures cacheEnabled ==> cacheOffset == startingAccount
    {
      hide Security, CellOf, Iterate;
      var seed := rnd.RndNthElement(SEED_TABLE_DEFAULT, tradesToSkip);
      rnd.SetSeed(seed);
      if cacheEnabled {
        cacheOffset := startingAccount;
        for i := 0 to cache.Length
          modifies cache
          invariant forall j :: 0 <= j < i ==> cache[j] == EMPTY_CELL
        {
          cache[i] := EMPTY_CELL;
        }
      }
    }

    /** The index, among all securities, of an account's security number `k`. The
        answer does not depend on what is cached, and the seed is left alone. */
    method GetSecurityFlatFileIndex(account: int, k: nat) returns (index: int)
      requires Valid() && 1 <= k <= MAX_SECURITIES_PER_ACCOUNT && k <= securityCount
      modifies rnd, securityIds, cache
      ensures Valid()
      ensures index == Security(account, securityCount, k)
      ensures rnd.seed == old(rnd.seed)
    {
      hide Security;
      index := EMPTY_CELL;
      var cell := CellOf(account, cacheOffset, k);
      var checkCache := 0 <= cell < cache.Length;
      if cacheEnabled && checkCache {
        index := cache[cell];
      }
      if index == EMPTY_CELL {
        var oldSeed := rnd.seed;
        index := Generate(account, k);
        rnd.SetSeed(oldSeed);
        if cacheEnabled && checkCache {
          FillingKeepsTruth(cache[..], cacheOffset, securityCount, account, k);
          cache[cell] := index;
        }
      }
    }

    /** Draws until `k` different securities are known; a value seen before is
        written over itself. */
    method Generate(account: int, k: nat) returns (index: int)
      requires CountIsSound(securityCount) && securityIds.Length == MAX_SECURITIES_PER_ACCOUNT
      requires 1 <= k <= MAX_SECURITIES_PER_ACCOUNT && k <= securityCount
      modifies rnd, securityIds
      ensures index == Security(account, securityCount, k)
    {
      hide Iterate, Draw, KthDistinct;
      var start := rnd.RndNthElement(SEED_BASE_STARTING_SECURITY_ID,
                                     account % TWO64 * MAX_SECURITIES_PER_ACCOUNT % TWO64);
      rnd.SetSeed(start);
      var generated := 0;
      index := EMPTY_CELL;
      ghost var n := 0;
      while generated < k
        invariant generated <= k
        invariant rnd.seed == SeedAfter(start, securityCount, n)
        invariant securityIds[..generated] == Distinct(start, securityCount, n)
        invariant generated == k ==> index == securityIds[k - 1]
        invariant n <= TWO64
        decreases TWO64 - n
      {
        EnoughDraws(start, securityCount, n, k);
        index := rnd.RndInt64Range(0, securityCount - 1);
        var i := 0;
        while i < generated && securityIds[i] != index
          invariant i <= generated
          invariant forall j :: 0 <= j < i ==> securityIds[j] != index
        {
          i := i + 1;
        }
        ghost var before := securityIds[..generated];
        securityIds[i] := index;
        if i == generated {
          generated := generated + 1;
        }
        n := n + 1;
      }
      EnoughDraws(start, securityCount, n, k);
    }
  }
}
