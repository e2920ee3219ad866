/** How many securities an account holds, and the random pick of an account and
    one of its securities on which every trade is based. */
module Portfolios {
  import opened Random
  import opened FullPeriod
  import opened CustomerSelection
  import opened AccountCounts
  import opened Holdings
  import opened Accounts
  import opened AccountRuns

  const SEED_BASE_NUMBER_OF_SECURITIES: uint64 := 23361736

  /** Bounds by tier and number of accounts; 0 marks counts that a tier cannot have. */
  function MinSecurities(tier: Tier, accounts: int): nat
    requires 1 <= accounts <= 10
  {
    match tier
    case One => [6, 4, 2, 2, 0, 0, 0, 0, 0, 0][accounts - 1]
    case Two => [0, 7, 5, 4, 3, 2, 2, 2, 0, 0][accounts - 1]
    case Three => [0, 0, 0, 0, 4, 4, 3, 3, 2, 2][accounts - 1]
  }

  function MaxSecurities(tier: Tier, accounts: int): nat
    requires 1 <= accounts <= 10
  {
    match tier
    case One => [14, 16, 18, 18, 0, 0, 0, 0, 0, 0][accounts - 1]
    case Two => [0, 13, 15, 16, 17, 18, 18, 18, 0, 0][accounts - 1]
    case Three => [0, 0, 0, 0, 16, 16, 17, 17, 18, 18][accounts - 1]
  }

  /** The two tables agree with the account ranges of the tiers, and no account can
      hold more securities than the flattened cache has room for; the mean is ten. */
  lemma RangesFitTiers(tier: Tier, accounts: int)
    requires 1 <= accounts <= 10
    ensures MinSecurities(tier, accounts) > 0 <==> MinAccounts(tier) <= accounts <= MaxAccounts(tier)
    ensures MinSecurities(tier, accounts) > 0 ==>
              2 <= MinSecurities(tier, accounts) < MaxSecurities(tier, accounts) <= MAX_SECURITIES_PER_ACCOUNT
    ensures MinSecurities(tier, accounts) > 0 ==> MinSecurities(tier, accounts) + MaxSecurities(tier, accounts) == 20
  {
    TierOneRanges(accounts);
    TierTwoRanges(accounts);
    TierThreeRanges(accounts);
  }

  lemma TierOneRanges(accounts: int)
    requires 1 <= accounts <= 10
    ensures accounts <= 4 ==> 2 <= MinSecurities(One, accounts) < MaxSecurities(One, accounts) <= 18
    ensures accounts > 4 ==> MinSecurities(One, accounts) == 0
  {
    if accounts <= 4 {
      assert accounts == 1 || accounts == 2 || accounts == 3 || accounts == 4;
    }
  }

  lemma TierTwoRanges(accounts: int)
    requires 1 <= accounts <= 10
    ensures 2 <= accounts <= 8 ==> 2 <= MinSecurities(Two, accounts) < MaxSecurities(Two, accounts) <= 18
    ensures !(2 <= accounts <= 8) ==> MinSecurities(Two, accounts) == 0
  {
  }

  lemma TierThreeRanges(accounts: int)
    requires 1 <= accounts <= 10
    ensures 5 <= accounts ==> 2 <= MinSecurities(Three, accounts) < MaxSecurities(Three, accounts) <= 18
    ensures accounts < 5 ==> MinSecurities(Three, accounts) == 0
  {
  }

  /** The number of securities of an account, decided by one draw from its own seed. */
  function NumberOfSecurities(account: int): int
    requires account >= 1
  {
    var owner := AccountRuns.OwnerOf(account);
    OwnAccountsFitTier(owner);
    var tier, n := GetTier(owner), OwnAccounts(owner);
    var min, max := MinSecurities(tier, n), MaxSecurities(tier, n);
    RangesFitTiers(tier, n);
    DrawInt(Iterate(SEED_BASE_NUMBER_OF_SECURITIES, account % TWO64), min, max).0
  }

  /** The account's own seed, as a fraction of 2^64, scaled to the range of its owner. */
  lemma NumberIsDrawn(account: int)
    requires account >= 1
    ensures 1 <= OwnAccounts(AccountRuns.OwnerOf(account)) <= 10
    ensures var owner := AccountRuns.OwnerOf(account);
            var min := MinSecurities(GetTier(owner), OwnAccounts(owner));
            NumberOfSecurities(account) - min ==
            Iterate(SEED_BASE_NUMBER_OF_SECURITIES, account % TWO64 + 1) * (20 - 2 * min + 1) / TWO64
  {
    hide MinSecurities, MaxSecurities, DrawInt, Iterate, GetTier, OwnAccounts;
    var owner, place := AccountRuns.OwnerOf(account), account % TWO64;
    OwnAccountsFitTier(owner);
    var min, max := MinSecurities(GetTier(owner), OwnAccounts(owner)), MaxSecurities(GetTier(owner), OwnAccounts(owner));
    RangesFitTiers(GetTier(owner), OwnAccounts(owner));
    NextIsNext(SEED_BASE_NUMBER_OF_SECURITIES, place);
    DrawIntIsScaled(Iterate(SEED_BASE_NUMBER_OF_SECURITIES, place), min, max);
    assert max - min + 1 == 20 - 2 * min + 1;
  }

  lemma NumberOfSecuritiesRange(account: int)
    requires account >= 1
    ensures 2 <= NumberOfSecurities(account) <= MAX_SECURITIES_PER_ACCOUNT
  {
    hide MinSecurities, MaxSecurities, DrawInt, Iterate, GetTier, OwnAccounts;
    var owner := AccountRuns.OwnerOf(account);
    OwnAccountsFitTier(owner);
    var tier, n := GetTier(owner), OwnAccounts(owner);
    RangesFitTiers(tier, n);
    DrawIntIsInRange(Iterate(SEED_BASE_NUMBER_OF_SECURITIES, account % TWO64),
                     MinSecurities(tier, n), MaxSecurities(tier, n));
  }

  /** A nonzero cell holds its account's own number. */
  ghost predicate NumbersAreTrue(cells: seq<int>, offset: int) {
    forall i :: 0 <= i < |cells| ==> cells[i] == 0 || (offset + i >= 1 && cells[i] == NumberOfSecurities(offset + i))
  }

  class Portfolio {
    const holdings: HoldingsTable
    const accounts: AccountsTable
    const cacheNS: array<int>
    var cacheOffsetNS: int

    ghost predicate Apart() {
      && holdings.rnd != accounts.rnd && holdings.securityIds != holdings.cache
      && cacheNS != holdings.cache && cacheNS != holdings.securityIds && cacheNS != accounts.cacheNA
      && accounts.cacheNA != holdings.cache && accounts.cacheNA != holdings.securityIds
    }

    ghost predicate Valid()
      reads this, holdings, holdings.cache, cacheNS
      reads accounts, accounts.customers, accounts.cacheNA, accounts.cacheTS
    {
      && Apart() && holdings.Valid() && accounts.Valid()
      && holdings.securityCount >= MAX_SECURITIES_PER_ACCOUNT
      && NumbersAreTrue(cacheNS[..], cacheOffsetNS)
    }

    constructor (securityCount: nat, loadUnitSize: nat, customerCount: nat, startFromCustomer: int, cacheEnabled: bool)
      requires CountIsSound(securityCount) && securityCount >= MAX_SECURITIES_PER_ACCOUNT && startFromCustomer >= 1
      ensures Valid() && holdings.securityCount == securityCount
      ensures fresh(holdings) && fresh(holdings.rnd) && fresh(holdings.securityIds) && fresh(holdings.cache)
      ensures fresh(accounts) && fresh(accounts.rnd) && fresh(accounts.customers)
      ensures fresh(accounts.cacheNA) && fresh(accounts.cacheTS) && fresh(cacheNS)
    {
      holdings := new HoldingsTable(securityCount, startFromCustomer, cacheEnabled);
      accounts := new AccountsTable(loadUnitSize, customerCount, startFromCustomer, cacheEnabled);
      var size := if cacheEnabled then Holdings.LOAD_UNIT_SIZE * MAX_ACCOUNTS_PER_CUST else 0;
      cacheNS := new int[size](_ => 0);
      cacheOffsetNS := GetStartingCA_ID(startFromCustomer) + IDENT_SHIFT * MAX_ACCOUNTS_PER_CUST;
    }

    /** Moves all cached windows to another load unit. */
    method InitNextLoadUnit(tradesToSkip: uint64, startingAccount: int)
      requires Valid()
      modifies this`cacheOffsetNS, cacheNS, holdings`cacheOffset, holdings.rnd, holdings.cache
      modifies accounts`cacheOffsetNA, accounts`cacheOffsetTS, accounts`accountId
      modifies accounts.rnd, accounts.cacheNA, accounts.cacheTS
      ensures Valid()
      ensures holdings.rnd.seed == Iterate(SEED_TABLE_DEFAULT, tradesToSkip)
      ensures holdings.cacheEnabled ==> cacheOffsetNS == holdings.cacheOffset == startingAccount
    {
      hide Iterate, NumberOfSecurities;
      hide HoldingsTable.Valid, AccountsTable.Valid;
      holdings.InitNextLoadUnit(tradesToSkip, startingAccount);
      if holdings.cacheEnabled {
        cacheOffsetNS := startingAccount;
        for i := 0 to cacheNS.Length
          modifies cacheNS
          invariant forall j :: 0 <= j < i ==> cacheNS[j] == 0
        {
          cacheNS[i] := 0;
        }
      }
      accounts.InitNextLoadUnit();
    }

    /** The number does not depend on what is cached, as long as the tier and the
        account count asked with are the owner's; the seed is left alone. */
    method GetNumberOfSecurities(account: int, tier: Tier, accountCount: int) returns (number: int)
      requires Valid() && account >= 1
      requires tier == GetTier(AccountRuns.OwnerOf(account))
      requires accountCount == OwnAccounts(AccountRuns.OwnerOf(account))
      modifies holdings.rnd, cacheNS
      ensures Valid() && number == NumberOfSecurities(account)
      ensures holdings.rnd.seed == old(holdings.rnd.seed)
    {
      hide GetTier, OwnAccounts, MinSecurities, MaxSecurities, Iterate, DrawInt;
      hide HoldingsTable.Valid, AccountsTable.Valid;
      OwnAccountsFitTier(AccountRuns.OwnerOf(account));
      RangesFitTiers(tier, accountCount);
      number := 0;
      var index := account - cacheOffsetNS;
      var checkCache := 0 <= index < cacheNS.Length;
      if holdings.cacheEnabled && checkCache {
        number := cacheNS[index];
      }
      if number == 0 {
        var oldSeed := holdings.rnd.seed;
        var seed := holdings.rnd.RndNthElement(SEED_BASE_NUMBER_OF_SECURITIES, account % TWO64);
        holdings.rnd.SetSeed(seed);
        number := holdings.rnd.RndIntRange(MinSecurities(tier, accountCount), MaxSecurities(tier, accountCount));
        holdings.rnd.SetSeed(oldSeed);
        if holdings.cacheEnabled && checkCache {
          cacheNS[index] := number;
        }
      }
    }

    /** A random account of the customer and a random one of its securities. Both
        depend on the seed only, and so does the seed left behind. */
    method GenerateRandomAccountSecurity(customer: int, tier: Tier) returns (account: int, security: int, k: int)
      requires Valid() && customer >= 1 && tier == GetTier(customer)
      modifies holdings.rnd, holdings.securityIds, holdings.cache, cacheNS, accounts.cacheNA
      ensures Valid()
      ensures OwnAccounts(customer) <= 10
      ensures var (a, next) := Draw(old(holdings.rnd.seed), GetStartingCA_ID(customer),
                                    GetStartingCA_ID(customer) + OwnAccounts(customer) - 1);
              account == a && account in AccountRuns.Block(customer, OwnAccounts(customer)) &&
              2 <= NumberOfSecurities(account) <= MAX_SECURITIES_PER_ACCOUNT &&
              (k, holdings.rnd.seed) == DrawInt(next, 1, NumberOfSecurities(account))
      ensures 1 <= k <= NumberOfSecurities(account)
      ensures security == Security(account, holdings.securityCount, k) && 0 <= security < holdings.securityCount
    {
      hide GetTier, OwnAccounts, Draw, DrawInt, NumberOfSecurities, Security, KthDistinct;
      OwnAccountsFitTier(customer);
      var count := accounts.GetNumberOfAccounts(customer, tier);
      assert count == OwnAccounts(customer) by {
        CountIsOwn(customer);
      }
      var start := GetStartingCA_ID(customer);
      DrawIsInRange(holdings.rnd.seed, start, start + count - 1);
      account := holdings.rnd.RndInt64Range(start, start + count - 1);
      AccountsLeadBack(customer, account, count);
      var number := GetNumberOfSecurities(account, tier, count);
      NumberOfSecuritiesRange(account);
      DrawIntIsInRange(holdings.rnd.seed, 1, number);
      k := holdings.rnd.RndIntRange(1, number);
      security := holdings.GetSecurityFlatFileIndex(account, k);
      IsItsSecurity(account, holdings.securityCount, k);
    }
  }

  lemma CountIsOwn(customer: int)
    requires customer >= 1
    ensures NumberOfAccounts(customer, GetTier(customer)) == OwnAccounts(customer)
  {
  }

  lemma AccountsLeadBack(customer: int, account: int, count: int)
    requires customer >= 1 && 1 <= count == OwnAccounts(customer) <= 10
    requires GetStartingCA_ID(customer) <= account < GetStartingCA_ID(customer) + count
    ensures account >= 1 && AccountRuns.OwnerOf(account) == customer
    ensures account in AccountRuns.Block(customer, count)
  {
    hide OwnAccounts;
    assert AccountRuns.Block(customer, count)[account - GetStartingCA_ID(customer)] == account;
  }

  lemma IsItsSecurity(account: int, count: nat, k: nat)
    requires CountIsSound(count) && 1 <= k <= Reach(count)
    ensures 0 <= Security(account, count, k) < count
  {
    SecuritiesAreDistinct(StartingSeed(account), count, k, k);
  }
}
