/** A whole run of the account generator: which account ids come out, in which
    order, how many, and whose they are. */
module AccountRuns {
  import opened Arithmetic
  import opened CustomerSelection
  import opened AccountCounts
  import opened Holdings
  import opened Accounts

  /** The ids of the first `k` accounts of a customer. */
  function Block(cid: int, k: nat): (ids: seq<int>)
    ensures |ids| == k && forall j :: 0 <= j < k ==> ids[j] == GetStartingCA_ID(cid) + j
  {
    seq(k, j => GetStartingCA_ID(cid) + j)
  }

  /** Customer by customer, all accounts of `n` customers from id `first` on. */
  function AllAccounts(first: int, n: nat): seq<int>
    requires first >= 1
  {
    if n == 0 then []
    else
      AtLeastOneAccount(first + n - 1);
      AllAccounts(first, n - 1) + Block(first + n - 1, OwnAccounts(first + n - 1))
  }

  /** The loader's loop: rows are generated until no more are announced. */
  method GenerateAll(table: AccountsTable) returns (ids: seq<int>)
    requires table.Valid() && table.customers.lastRowNumber == 0 && table.customers.rowsToGenerate > 0
    modifies table, table.rnd, table.customers, table.cacheNA, table.cacheTS
    ensures ids == AllAccounts(table.customers.startFromCustomer + IDENT_SHIFT, table.customers.rowsToGenerate)
  {
    hide OwnAccounts, AccountsTable.CachesAreTrue;
    var first := table.customers.startFromCustomer + IDENT_SHIFT;
    ids := [];
    var more := true;
    while more
      invariant table.Valid()
      invariant table.customers.lastRowNumber <= table.customers.rowsToGenerate
      invariant table.customers.lastRowNumber == 0 ==> ids == [] && more
      invariant table.customers.lastRowNumber > 0 ==>
                  ids == AllAccounts(first, table.customers.lastRowNumber - 1)
                         + Block(table.customers.GetCurrentC_ID(), table.rowsGeneratedForCust)
      invariant table.customers.lastRowNumber > 0 ==>
                  (more <==> table.customers.lastRowNumber < table.customers.rowsToGenerate ||
                             table.rowsGeneratedForCust < table.rowsToGenForCust)
      decreases table.customers.rowsToGenerate - table.customers.lastRowNumber,
                table.rowsToGenForCust - table.rowsGeneratedForCust
    {
      ghost var c, g, cid := table.customers.lastRowNumber, table.rowsGeneratedForCust, table.customers.GetCurrentC_ID();
      ghost var finished := g == table.rowsToGenForCust;
      ghost var before := ids;
      var id := table.GenerateNextCA_AD();
      more := table.moreRecords;
      ids := ids + [id];
      if finished {
        assert Block(cid + 1, 1) == [id];
        if c > 0 {
          assert before == AllAccounts(first, c);
        } else {
          assert before == AllAccounts(first, 0);
          assert ids == [] + [id];
        }
      } else {
        BlockGrows(AllAccounts(first, c - 1), cid, g);
      }
    }
  }

  lemma BlockGrows(before: seq<int>, cid: int, k: nat)
    ensures before + Block(cid, k) + [GetStartingCA_ID(cid) + k] == before + Block(cid, k + 1)
  {
  }

  // ---------------------------------------------------------------------
  // What a run emits
  // ---------------------------------------------------------------------

  /** The customer that an account id belongs to. */
  function OwnerOf(account: int): int {
    (account - 1) / MAX_ACCOUNTS_PER_CUST + 1
  }

  /** As many ids as the customers have accounts. */
  lemma {:induction false} RunLength(first: int, n: nat)
    requires first >= 1
    ensures |AllAccounts(first, n)| == TotalAccounts(first, n)
  {
    hide OwnAccounts;
    if n > 0 {
      RunLength(first, n - 1);
    }
  }

  /** Each id leads back to its customer and is one of that customer's accounts,
      and every account of every customer comes out. */
  lemma {:induction false} RunIsComplete(first: int, n: nat, id: int)
    requires first >= 1
    ensures id in AllAccounts(first, n) <==>
            first <= OwnerOf(id) < first + n && (id - 1) % MAX_ACCOUNTS_PER_CUST < OwnAccounts(OwnerOf(id))
  {
    hide OwnAccounts, GetTier, OwnerOf;
    if n > 0 {
      RunIsComplete(first, n - 1, id);
      var cid := first + n - 1;
      OwnAccountsFitTier(cid);
      var before, last := AllAccounts(first, n - 1), Block(cid, OwnAccounts(cid));
      InBlock(cid, OwnAccounts(cid), id);
      assert AllAccounts(first, n) == before + last;
      assert id in before + last <==> id in before || id in last;
    }
  }

  lemma InBlock(cid: int, k: nat, id: int)
    requires k <= MAX_ACCOUNTS_PER_CUST
    ensures id in Block(cid, k) <==> OwnerOf(id) == cid && (id - 1) % MAX_ACCOUNTS_PER_CUST < k
  {
    var j := id - GetStartingCA_ID(cid);
    if 0 <= j < k {
      assert Block(cid, k)[j] == id;
    }
  }

  /** Ids come out in strictly increasing order, so none comes out twice. */
  lemma {:induction false} RunIncreases(first: int, n: nat)
    requires first >= 1
    ensures forall i, j :: 0 <= i < j < |AllAccounts(first, n)| ==> AllAccounts(first, n)[i] < AllAccounts(first, n)[j]
  {
    hide OwnAccounts, GetTier;
    if n > 0 {
      RunIncreases(first, n - 1);
      var before, cid := AllAccounts(first, n - 1), first + n - 1;
      OwnAccountsFitTier(cid);
      var last := Block(cid, OwnAccounts(cid));
      assert AllAccounts(first, n) == before + last;
      forall i | 0 <= i < |before|
        ensures before[i] < GetStartingCA_ID(cid)
      {
        RunIsComplete(first, n - 1, before[i]);
        OwnerIsBefore(before[i], cid);
      }
    }
  }

  lemma OwnerIsBefore(id: int, cid: int)
    requires OwnerOf(id) < cid
    ensures id < GetStartingCA_ID(cid)
  {
  }

  /** A run over `units` whole load units emits exactly 5000 ids for each. */
  lemma RunOverUnits(high: nat, units: nat)
    requires units > 0 ==> FitsUint((high + units - 1) * 1000 + 1)
    ensures |AllAccounts(high * 1000 + 1, 1000 * units)| == 5000 * units
  {
    RunLength(high * 1000 + 1, 1000 * units);
    UnitsHave5000AccountsEach(high, units);
  }
}
