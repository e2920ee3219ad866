/** The customer-account generator: a cursor over customers and their accounts,
    with two caches that slide along load unit by load unit. */
module Accounts {
  import opened Arithmetic
  import opened Random
  import opened FullPeriod
  import opened CustomerSelection
  import opened AccountCounts
  import opened Holdings

  const RNG_SKIP_ONE_ROW_CUSTOMER_ACCOUNT := 10
  const PERCENT_NON_TAXABLE := 20
  const PERCENT_TAXABLE_AND_WITHHOLD := 50
  const BROKERS_DIV := 100
  const STARTING_BROKER_ID := 1

  datatype TaxStatus = Unset | NonTaxable | TaxableAndWithhold | TaxableAndDontWithhold

  /** The tax status of an account, decided by one draw from its own seed. */
  function TaxStatusOf(account: int): TaxStatus {
    var threshold := DrawInt(Iterate(SEED_BASE_ACCOUNT_TAX_STATUS, account % TWO64), 1, 100).0;
    if threshold <= PERCENT_NON_TAXABLE then NonTaxable
    else if threshold <= PERCENT_NON_TAXABLE + PERCENT_TAXABLE_AND_WITHHOLD then TaxableAndWithhold
    else TaxableAndDontWithhold
  }

  /** An account's own seed, as a fraction of 2^64, decides: the lowest fifth is not
      taxable, the next half withholds, the rest does not. */
  lemma TaxStatusShares(account: int)
    ensures var seed, status := Iterate(SEED_BASE_ACCOUNT_TAX_STATUS, account % TWO64 + 1), TaxStatusOf(account);
            && (status == NonTaxable <==> 100 * seed < 20 * TWO64)
            && (status == TaxableAndWithhold <==> 20 * TWO64 <= 100 * seed < 70 * TWO64)
            && (status == TaxableAndDontWithhold <==> 70 * TWO64 <= 100 * seed)
  {
    hide Iterate, DrawInt;
    var place := account % TWO64;
    var before := Iterate(SEED_BASE_ACCOUNT_TAX_STATUS, place);
    NextIsNext(SEED_BASE_ACCOUNT_TAX_STATUS, place);
    DrawIntIsScaled(before, 1, 100);
    Fraction(TWO64, NextSeed(before) * 100, 20);
    Fraction(TWO64, NextSeed(before) * 100, 70);
  }

  lemma NextIsNext(seed: uint64, n: nat)
    ensures Iterate(seed, n + 1) == NextSeed(Iterate(seed, n))
  {
  }

  lemma Fraction(m: nat, x: int, k: int)
    requires m > 0
    ensures x / m < k <==> x < k * m
  {
    DivisionParts(m, x);
    if x / m < k {
      WholeTurns(m, x / m, k);
    } else if k < x / m {
      WholeTurns(m, k, x / m);
    }
  }

  /** The seed at which the rows that follow a customer id start. */
  function UnitSeed(cid: int): uint64 {
    Iterate(SEED_TABLE_DEFAULT, cid * MAX_ACCOUNTS_PER_CUST * RNG_SKIP_ONE_ROW_CUSTOMER_ACCOUNT % TWO64)
  }

  /** Customers follow each other in the stream, 100 draws apart. */
  lemma CustomersAre100DrawsApart(cid: nat)
    ensures UnitSeed(cid + 1) == Iterate(UnitSeed(cid), 100) && UnitSeed(0) == SEED_TABLE_DEFAULT
  {
    hide Iterate;
    var skip: nat :| skip == 100;
    NextPlace(SEED_TABLE_DEFAULT, cid, skip);
    NoStepAtAll(SEED_TABLE_DEFAULT);
  }

  lemma AtLeastOneAccount(cid: int)
    requires cid >= 1
    ensures OwnAccounts(cid) >= 1
  {
  }

  /** The cursor over customer ids. */
  class CustomerTable {
    const rowsToGenerate: nat
    const startFromCustomer: int
    var lastRowNumber: nat
    var moreRecords: bool

    constructor (customerCount: nat, startFromCustomer: int)
      ensures rowsToGenerate == customerCount && this.startFromCustomer == startFromCustomer
      ensures lastRowNumber == 0 && !moreRecords
    {
      rowsToGenerate, this.startFromCustomer := customerCount, startFromCustomer;
      lastRowNumber, moreRecords := 0, false;
    }

    function GetCurrentC_ID(): int
      reads this
    {
      lastRowNumber + startFromCustomer - 1 + IDENT_SHIFT
    }

    method GenerateNextC_ID() returns (cid: int)
      modifies this
      ensures lastRowNumber == old(lastRowNumber) + 1
      ensures moreRecords == (lastRowNumber < rowsToGenerate)
      ensures cid == GetCurrentC_ID() == old(GetCurrentC_ID()) + 1
    {
      lastRowNumber := lastRowNumber + 1;
      moreRecords := lastRowNumber < rowsToGenerate;
      return lastRowNumber + startFromCustomer - 1 + IDENT_SHIFT;
    }
  }

  /** A nonzero count cell holds its customer's own count. */
  ghost predicate CountsAreTrue(cells: seq<int>, offset: int) {
    forall i :: 0 <= i < |cells| ==> cells[i] == 0 || (offset + i >= 1 && cells[i] == OwnAccounts(offset + i))
  }

  /** A filled tax cell holds its account's status. */
  ghost predicate TaxesAreTrue(cells: seq<TaxStatus>, offset: int) {
    forall i :: 0 <= i < |cells| ==> cells[i] == Unset || cells[i] == TaxStatusOf(offset + i)
  }

  class AccountsTable {
    const rnd: CRandom
    const customers: CustomerTable
    const loadUnitSize: nat
    const brokersCount: nat
    const cacheEnabled: bool
    const cacheNA: array<int>
    const cacheTS: array<TaxStatus>
    var cacheOffsetNA: int
    var cacheOffsetTS: int
    var lastRowNumber: nat
    var moreRecords: bool
    var rowsToGenForCust: int
    var rowsGeneratedForCust: int
    var startingCA_ID: int
    var accountId: int

    ghost predicate CachesAreTrue()
      reads this, cacheNA, cacheTS
    {
      CountsAreTrue(cacheNA[..], cacheOffsetNA) && TaxesAreTrue(cacheTS[..], cacheOffsetTS)
    }

    /** The cursor stands before the first customer or on one of the accounts of the current one. */
    ghost predicate CursorIsTrue()
      reads this, customers
    {
      && customers.startFromCustomer >= 1
      && if customers.lastRowNumber == 0 then rowsToGenForCust == 0 && rowsGeneratedForCust == 0
         else
           && rowsToGenForCust == OwnAccounts(customers.GetCurrentC_ID())
           && startingCA_ID == GetStartingCA_ID(customers.GetCurrentC_ID())
           && 1 <= rowsGeneratedForCust <= rowsToGenForCust
           && customers.moreRecords == (customers.lastRowNumber < customers.rowsToGenerate)
    }

    ghost predicate Valid()
      reads this, customers, cacheNA, cacheTS
    {
      CachesAreTrue() && CursorIsTrue()
    }

    constructor (loadUnitSize: nat, customerCount: nat, startFromCustomer: int, cacheEnabled: bool)
      requires startFromCustomer >= 1
      ensures Valid() && fresh(rnd) && fresh(customers) && fresh(cacheNA) && fresh(cacheTS)
      ensures this.loadUnitSize == loadUnitSize && brokersCount == loadUnitSize / BROKERS_DIV
      ensures customers.rowsToGenerate == customerCount && customers.startFromCustomer == startFromCustomer
      ensures customers.lastRowNumber == 0
    {
      rnd := new CRandom(SEED_TABLE_DEFAULT);
      customers := new CustomerTable(customerCount, startFromCustomer);
      this.loadUnitSize, this.cacheEnabled := loadUnitSize, cacheEnabled;
      brokersCount := loadUnitSize / BROKERS_DIV;
      var units := if cacheEnabled then CustomerSelection.LOAD_UNIT_SIZE else 0;
      cacheNA := new int[units](_ => 0);
      cacheTS := new TaxStatus[units * MAX_ACCOUNTS_PER_CUST](_ => Unset);
      cacheOffsetNA := startFromCustomer + IDENT_SHIFT;
      cacheOffsetTS := (startFromCustomer - 1 + IDENT_SHIFT) * MAX_ACCOUNTS_PER_CUST;
      lastRowNumber, moreRecords := 0, false;
      rowsToGenForCust, rowsGeneratedForCust, startingCA_ID, accountId := 0, 0, 0, 0;
    }

    /** Reseeds the generator and slides both cached windows by one load unit. */
    method InitNextLoadUnit()
      requires Valid()
      modifies rnd, this`cacheOffsetNA, this`cacheOffsetTS, this`accountId, cacheNA, cacheTS
      ensures Valid()
      ensures rnd.seed == UnitSeed(customers.GetCurrentC_ID())
      ensures accountId == 0
      ensures cacheOffsetNA == old(cacheOffsetNA) + if cacheEnabled then CustomerSelection.LOAD_UNIT_SIZE else 0
      ensures cacheOffsetTS == old(cacheOffsetTS) +
                if cacheEnabled then CustomerSelection.LOAD_UNIT_SIZE * MAX_ACCOUNTS_PER_CUST else 0
    {
      hide OwnAccounts, TaxStatusOf, Iterate;
      var skip := customers.GetCurrentC_ID() * MAX_ACCOUNTS_PER_CUST * RNG_SKIP_ONE_ROW_CUSTOMER_ACCOUNT;
      var seed := rnd.RndNthElement(SEED_TABLE_DEFAULT, skip % TWO64);
      rnd.SetSeed(seed);
      accountId := 0;
      if cacheEnabled {
        cacheOffsetNA := cacheOffsetNA + CustomerSelection.LOAD_UNIT_SIZE;
        for i := 0 to cacheNA.Length
          modifies cacheNA
          invariant forall j :: 0 <= j < i ==> cacheNA[j] == 0
        {
          cacheNA[i] := 0;
        }
        cacheOffsetTS := cacheOffsetTS + CustomerSelection.LOAD_UNIT_SIZE * MAX_ACCOUNTS_PER_CUST;
        for i := 0 to cacheTS.Length
          modifies cacheTS
          invariant forall j :: 0 <= j < i ==> cacheTS[j] == Unset
        {
          cacheTS[i] := Unset;
        }
      }
    }

    predicate HasCellNA(cid: int)
      reads this
    {
      cacheEnabled && 0 <= cid - cacheOffsetNA < cacheNA.Length
    }

    /** The source caches by customer alone. A filled cell answers with the count of
        the customer's own tier, whatever tier is asked with; an empty one is filled
        with the count of the tier asked with, and the cache stays true exactly if
        that is the customer's own count. */
    method GetNumberOfAccounts(cid: int, tier: Tier) returns (count: int)
      requires CachesAreTrue() && cid >= 1
      modifies cacheNA
      ensures var filled := HasCellNA(cid) && old(cacheNA[..])[cid - cacheOffsetNA] != 0;
              && count == (if filled then OwnAccounts(cid) else NumberOfAccounts(cid, tier))
              && cacheNA[..] == (if HasCellNA(cid) then old(cacheNA[..])[cid - cacheOffsetNA := count] else old(cacheNA[..]))
              && (CachesAreTrue() <==> filled || !HasCellNA(cid) || NumberOfAccounts(cid, tier) == OwnAccounts(cid))
      ensures tier == GetTier(cid) ==> CachesAreTrue() && count == NumberOfAccounts(cid, tier)
    {
      hide GetTier, GetInverseCID, TaxStatusOf;
      count := 0;
      var index := cid - cacheOffsetNA;
      var checkCache := 0 <= index < cacheNA.Length;
      if cacheEnabled && checkCache {
        count := cacheNA[index];
      }
      if count == 0 {
        var min := MinAccounts(tier);
        var mod := MaxAccounts(tier) - min + 1;
        var inverse := GetInverseCID(cid);
        if inverse < 200 {
          count := inverse % mod + min;
        } else if inverse < 800 {
          count := (inverse - 200 + 1) % mod + min;
        } else {
          count := (inverse - 800 + 2) % mod + min;
        }
        if cacheEnabled && checkCache {
          cacheNA[index] := count;
        }
      }
    }

    /** Nor does the tax status; and the seed is left alone. */
    method GetAccountTaxStatus(account: int) returns (status: TaxStatus)
      requires CachesAreTrue()
      modifies rnd, cacheTS
      ensures CachesAreTrue()
      ensures status == TaxStatusOf(account)
      ensures rnd.seed == old(rnd.seed)
    {
      hide Iterate, DrawInt, OwnAccounts;
      status := Unset;
      var index := account - cacheOffsetTS;
      var checkCache := 0 <= index < cacheTS.Length;
      if cacheEnabled && checkCache {
        status := cacheTS[index];
      }
      if status == Unset {
        var oldSeed := rnd.seed;
        var seed := rnd.RndNthElement(SEED_BASE_ACCOUNT_TAX_STATUS, account % TWO64);
        rnd.SetSeed(seed);
        var threshold := rnd.RndIntRange(1, 100);
        if threshold <= PERCENT_NON_TAXABLE {
          status := NonTaxable;
        } else if threshold <= PERCENT_NON_TAXABLE + PERCENT_TAXABLE_AND_WITHHOLD {
          status := TaxableAndWithhold;
        } else {
          status := TaxableAndDontWithhold;
        }
        rnd.SetSeed(oldSeed);
        if cacheEnabled && checkCache {
          cacheTS[index] := status;
        }
      }
    }

    /** The next account of the current customer, or the first of the next customer. */
    method GenerateNextCA_AD() returns (id: int)
      requires Valid()
      modifies this, rnd, customers, cacheNA, cacheTS
      ensures Valid()
      ensures if old(rowsGeneratedForCust == rowsToGenForCust)
              then customers.lastRowNumber == old(customers.lastRowNumber) + 1 && rowsGeneratedForCust == 1
              else customers.lastRowNumber == old(customers.lastRowNumber) &&
                   rowsGeneratedForCust == old(rowsGeneratedForCust) + 1
      ensures customers.lastRowNumber >= 1
      ensures id == accountId == GetStartingCA_ID(customers.GetCurrentC_ID()) + rowsGeneratedForCust - 1
      ensures moreRecords <==>
                customers.lastRowNumber < customers.rowsToGenerate || rowsGeneratedForCust < rowsToGenForCust
      ensures lastRowNumber == old(lastRowNumber) + 1
      ensures var slides := cacheEnabled && old(customers.GetCurrentC_ID()) % CustomerSelection.LOAD_UNIT_SIZE == 0;
              cacheOffsetNA == old(cacheOffsetNA) + (if slides then CustomerSelection.LOAD_UNIT_SIZE else 0) &&
              cacheOffsetTS == old(cacheOffsetTS) +
                (if slides then CustomerSelection.LOAD_UNIT_SIZE * MAX_ACCOUNTS_PER_CUST else 0)
      ensures rowsToGenForCust == OwnAccounts(customers.GetCurrentC_ID())
      ensures startingCA_ID == GetStartingCA_ID(customers.GetCurrentC_ID())
      ensures rnd.seed == if old(customers.GetCurrentC_ID()) % CustomerSelection.LOAD_UNIT_SIZE == 0
                          then UnitSeed(old(customers.GetCurrentC_ID())) else old(rnd.seed)
    {
      hide OwnAccounts, NumberOfAccounts, CountsAreTrue, TaxesAreTrue, GetTier, UnitSeed;
      if customers.GetCurrentC_ID() % CustomerSelection.LOAD_UNIT_SIZE == 0 {
        InitNextLoadUnit();
      }
      lastRowNumber := lastRowNumber + 1;
      if rowsGeneratedForCust == rowsToGenForCust {
        var cid := customers.GenerateNextC_ID();
        rowsGeneratedForCust := 0;
        rowsToGenForCust := GetNumberOfAccounts(cid, GetTier(cid));
        startingCA_ID := GetStartingCA_ID(cid);
        OwnCount(cid);
      }
      accountId := startingCA_ID + rowsGeneratedForCust;
      rowsGeneratedForCust := rowsGeneratedForCust + 1;
      moreRecords := customers.moreRecords || rowsGeneratedForCust < rowsToGenForCust;
      return accountId;
    }

    /** The broker of an account: one of the brokers of its customer's load unit. */
    method GenerateBrokerIdForAccount(account: int) returns (broker: int)
      requires loadUnitSize > 0 && brokersCount < TWO32
      ensures broker == BrokerOf(account, loadUnitSize, brokersCount)
    {
      var customerIndex := Quotient(account - 1, MAX_ACCOUNTS_PER_CUST) - IDENT_SHIFT;
      var startFromBroker := Quotient(customerIndex, loadUnitSize) * brokersCount + STARTING_BROKER_ID + IDENT_SHIFT;
      broker := rnd.RndNthInt64Range(SEED_BASE_BROKER_ID, (account - 10 * IDENT_SHIFT) % TWO64,
                                     startFromBroker, startFromBroker + brokersCount - 1);
    }
  }

  lemma OwnCount(cid: int)
    requires cid >= 1
    ensures OwnAccounts(cid) == NumberOfAccounts(cid, GetTier(cid)) >= 1
  {
    AtLeastOneAccount(cid);
  }

  /** The quotient of C++: it rounds towards zero. */
  function Quotient(a: int, b: nat): int
    requires b > 0
  {
    if a >= 0 then a / b else -((-a) / b)
  }

  function BrokerOf(account: int, loadUnitSize: nat, brokersCount: nat): int
    requires loadUnitSize > 0 && brokersCount < TWO32
  {
    var customerIndex := Quotient(account - 1, MAX_ACCOUNTS_PER_CUST) - IDENT_SHIFT;
    var start := Quotient(customerIndex, loadUnitSize) * brokersCount + STARTING_BROKER_ID + IDENT_SHIFT;
    NthInRange(SEED_BASE_BROKER_ID, (account - 10 * IDENT_SHIFT) % TWO64, start, start + brokersCount - 1)
  }
}
