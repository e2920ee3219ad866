/** Watch lists: their ids are the customer ids, permuted within each load unit,
    and their items are distinct securities in increasing order. */
module WatchLists {
  import opened Arithmetic
  import opened Random
  import opened FullPeriod
  import opened Holdings
  import opened Accounts
  import opened IntSets

  const WATCH_LIST_ID_PRIME := 631
  const WATCH_LIST_ID_OFFSET := 97
  const WATCH_LIST_ID_INVERSE := 271  // 631 * 271 == 1 (mod 1000)
  const MIN_ITEMS_IN_WL := 50
  const MAX_ITEMS_IN_WL := 150
  const RNG_SKIP_ONE_ROW := 15
  const PERCENT_WATCH_LIST := 100

  function WatchListId(cid: int): int {
    var c := cid - 1;
    c / LOAD_UNIT_SIZE * LOAD_UNIT_SIZE + (c * WATCH_LIST_ID_PRIME + WATCH_LIST_ID_OFFSET) % LOAD_UNIT_SIZE + 1
  }

  /** The customer that a watch list id belongs to. */
  function OwnerOf(wl: int): int {
    var w := wl - 1;
    w / LOAD_UNIT_SIZE * LOAD_UNIT_SIZE +
    (WATCH_LIST_ID_INVERSE * (w % LOAD_UNIT_SIZE - WATCH_LIST_ID_OFFSET)) % LOAD_UNIT_SIZE + 1
  }

  function UnitOf(id: int): int {
    (id - 1) / LOAD_UNIT_SIZE
  }

  /** The factor may be applied to the last digits only. */
  lemma LastDigits(m: nat, f: int, c: int, shift: int)
    requires m > 0
    ensures (c * f + shift) % m == (f * (c % m) + shift) % m
  {
    DivisionParts(m, c);
    assert c * f == f * (c % m) + f * (c / m * m);
    assert f * (c / m * m) == (f * (c / m)) * m;
    CongruentBy(m, c * f + shift, f * (c % m) + shift, f * (c / m));
  }

  /** From customer to customer the last three digits step by 631, starting with 98. */
  lemma IdsStepBy631(cid: int)
    ensures (WatchListId(cid + 1) - WatchListId(cid)) % LOAD_UNIT_SIZE == WATCH_LIST_ID_PRIME
    ensures WatchListId(1) == 98
  {
    var m: nat :| m == LOAD_UNIT_SIZE;
    var c, f, shift := cid - 1, WATCH_LIST_ID_PRIME, WATCH_LIST_ID_OFFSET;
    var x, y := c * f + shift, (c + 1) * f + shift;
    DivisionParts(m, x);
    DivisionParts(m, y);
    var k := (c + 1) / m - c / m - y / m + x / m;
    assert (c + 1) / m * m - c / m * m - y / m * m + x / m * m == k * m;
    CongruentBy(m, WatchListId(cid + 1) - WatchListId(cid), f, k);
  }

  /** Watch list ids and customer ids determine each other, unit by unit. */
  lemma WatchListIdsInvert(id: int)
    ensures OwnerOf(WatchListId(id)) == id && UnitOf(WatchListId(id)) == UnitOf(id)
    ensures WatchListId(OwnerOf(id)) == id && UnitOf(OwnerOf(id)) == UnitOf(id)
  {
    var m: nat :| m == LOAD_UNIT_SIZE;
    var c := id - 1;
    var unit, x := c / m, c % m;
    DivisionParts(m, c);
    AffineInverse(m, WATCH_LIST_ID_PRIME, WATCH_LIST_ID_INVERSE, WATCH_LIST_ID_OFFSET, x);
    LastDigits(m, WATCH_LIST_ID_PRIME, c, WATCH_LIST_ID_OFFSET);
    var y := (WATCH_LIST_ID_PRIME * x + WATCH_LIST_ID_OFFSET) % m;
    assert WatchListId(id) - 1 == unit * m + y;
    DivisionIsUnique(m, WatchListId(id) - 1, unit, y);
    var z := (WATCH_LIST_ID_INVERSE * (x - WATCH_LIST_ID_OFFSET)) % m;
    assert OwnerOf(id) - 1 == unit * m + z;
    DivisionIsUnique(m, OwnerOf(id) - 1, unit, z);
    LastDigits(m, WATCH_LIST_ID_PRIME, OwnerOf(id) - 1, WATCH_LIST_ID_OFFSET);
  }

  predicate InUnit(first: int, id: int) {
    first <= id < first + LOAD_UNIT_SIZE
  }

  /** Each load unit of customers is permuted onto itself. */
  lemma UnitIsPermuted(first: int, id: int)
    requires (first - 1) % LOAD_UNIT_SIZE == 0
    ensures InUnit(first, id) <==> exists c :: InUnit(first, c) && WatchListId(c) == id
  {
    hide WatchListId, OwnerOf;
    WatchListIdsInvert(id);
    if c :| InUnit(first, c) && WatchListId(c) == id {
      WatchListIdsInvert(c);
    }
    assert WatchListId(OwnerOf(id)) == id;
  }

  datatype WatchList = WatchList(id: int, customer: int, items: seq<int>)

  /** The row of a customer whose draws start at `seed` and stop at `end`: between
      50 and 150 items, the first that many distinct values of the stream, in
      increasing order. */
  ghost predicate IsRowOf(row: WatchList, cid: int, seed: uint64, end: uint64, securityCount: nat)
    requires CountIsSound(securityCount) && securityCount >= MAX_ITEMS_IN_WL
  {
    var (count, start) := DrawInt(seed, MIN_ITEMS_IN_WL, MAX_ITEMS_IN_WL);
    DrawIntIsInRange(seed, MIN_ITEMS_IN_WL, MAX_ITEMS_IN_WL);
    && row.customer == cid && row.id == WatchListId(cid)
    && |row.items| == count && StrictlyIncreasing(row.items)
    && (forall v :: v in row.items <==> IsEarly(v, start, securityCount, count))
    && exists n :: IsFirstWith(start, securityCount, count, n) && end == SeedAfter(start, securityCount, n)
  }

  /** The first `n` draws, and no fewer, give `k` distinct values. */
  ghost predicate IsFirstWith(start: uint64, count: nat, k: nat, n: nat)
    requires CountIsSound(count)
  {
    |Distinct(start, count, n)| == k && forall m: nat :: m < n ==> |Distinct(start, count, m)| < k
  }

  /** Is `v` among the first `k` distinct values of the stream? */
  ghost predicate IsEarly(v: int, start: uint64, count: nat, k: nat)
    requires CountIsSound(count) && k <= Reach(count)
  {
    exists i :: 1 <= i <= k && v == KthDistinct(start, count, i)
  }

  /** The seed at which a load unit starts whose first customer is `cid`. */
  function ListSeed(cid: int): uint64 {
    Iterate(SEED_TABLE_DEFAULT, cid % TWO64 * RNG_SKIP_ONE_ROW % TWO64)
  }

  /** Customers are placed in the stream 15 draws apart. */
  lemma CustomersAre15DrawsApart(cid: nat)
    ensures ListSeed(cid + 1) == Iterate(ListSeed(cid), 15) && ListSeed(0) == SEED_TABLE_DEFAULT
  {
    hide Iterate;
    var skip: nat :| skip == RNG_SKIP_ONE_ROW;
    ModFactor(skip, cid, 0);
    ModFactor(skip, cid + 1, 0);
    NextPlace(SEED_TABLE_DEFAULT, cid, skip);
    NoStepAtAll(SEED_TABLE_DEFAULT);
  }

  class WatchListsTable {
    const rnd: CRandom
    const customers: CustomerTable
    const securityCount: nat
    var row: WatchList
    var moreRecords: bool
    var initNextLoadUnit: bool

    ghost predicate Valid()
      reads this
    {
      CountIsSound(securityCount) && securityCount >= MAX_ITEMS_IN_WL
    }

    /** The seed at which the pending row starts. */
    function RowSeed(): uint64
      reads this, rnd, customers
    {
      if initNextLoadUnit then ListSeed(customers.GetCurrentC_ID()) else rnd.seed
    }

    /** Every customer has a watch list, so the first one is taken. */
    constructor (securityCount: nat, customerCount: nat, startFromCustomer: int)
      requires CountIsSound(securityCount) && securityCount >= MAX_ITEMS_IN_WL
      ensures Valid() && this.securityCount == securityCount && fresh(rnd) && fresh(customers)
      ensures customers.startFromCustomer == startFromCustomer && customers.rowsToGenerate == customerCount
      ensures customers.lastRowNumber == 1 && customers.moreRecords == (1 < customerCount)
    {
      rnd := new CRandom(SEED_TABLE_DEFAULT);
      customers := new CustomerTable(customerCount, startFromCustomer);
      this.securityCount := securityCount;
      initNextLoadUnit := false;
      new;
      var found := false;
      while !found
        invariant Valid() && this.securityCount == securityCount && fresh(rnd) && fresh(customers)
        invariant customers.startFromCustomer == startFromCustomer && customers.rowsToGenerate == customerCount
        invariant customers.lastRowNumber == if found then 1 else 0
        invariant found ==> customers.moreRecords == (1 < customerCount)
        decreases !found
      {
        if customers.GetCurrentC_ID() % LOAD_UNIT_SIZE == 0 {
          initNextLoadUnit := true;
        }
        var cid := customers.GenerateNextC_ID();
        ghost var seed := rnd.seed;
        var has := HasWatchList();
        found := has || !customers.moreRecords;
        DrawIntIsInRange(seed, 1, 100);
      }
    }

    method HasWatchList() returns (has: bool)
      modifies rnd
      ensures has == (DrawInt(old(rnd.seed), 1, 100).0 <= PERCENT_WATCH_LIST)
      ensures rnd.seed == DrawInt(old(rnd.seed), 1, 100).1
    {
      var percent := rnd.RndIntRange(1, 100);
      return percent <= PERCENT_WATCH_LIST;
    }

    /** Draws until the set has `count` members, which the period of the generator
        guarantees. */
    method DrawItems(count: nat) returns (items: set<int>)
      requires Valid() && 1 <= count <= Reach(securityCount)
      modifies rnd
      ensures |items| == count
      ensures forall v :: v in items <==> IsEarly(v, old(rnd.seed), securityCount, count)
      ensures exists n :: IsFirstWith(old(rnd.seed), securityCount, count, n) &&
                          rnd.seed == SeedAfter(old(rnd.seed), securityCount, n)
    {
      hide Iterate, Draw, KthDistinct;
      ghost var start := rnd.seed;
      items := {};
      ghost var n := 0;
      while |items| < count
        invariant |items| == |Distinct(start, securityCount, n)| <= count
        invariant forall v :: v in items <==> v in Distinct(start, securityCount, n)
        invariant rnd.seed == SeedAfter(start, securityCount, n)
        invariant forall m: nat :: m < n ==> |Distinct(start, securityCount, m)| < count
        invariant n <= TWO64
        decreases TWO64 - n
      {
        EnoughDraws(start, securityCount, n, count);
        var index := rnd.RndInt64Range(0, securityCount - 1);
        assert index in items ==> items + {index} == items;
        assert index == Drawn(start, securityCount, n);
        items := items + {index};
        n := n + 1;
      }
      DistinctAreEarly(start, securityCount, n, count);
    }

    /** One watch list with its items, then on to the next customer. */
    method GenerateNextRecord() returns (more: bool)
      requires Valid() && customers.moreRecords == (customers.lastRowNumber < customers.rowsToGenerate)
      modifies this`row, this`moreRecords, this`initNextLoadUnit, rnd, customers
      ensures Valid() && more == moreRecords
      ensures more == old(customers.moreRecords)
      ensures exists end :: IsRowOf(row, old(customers.GetCurrentC_ID()), old(RowSeed()), end, securityCount) &&
                            rnd.seed == if more then DrawInt(end, 1, 100).1 else end
      ensures customers.lastRowNumber == old(customers.lastRowNumber) + if more then 1 else 0
      ensures customers.moreRecords == (customers.lastRowNumber < customers.rowsToGenerate)
      ensures more ==> initNextLoadUnit == (old(customers.GetCurrentC_ID()) % LOAD_UNIT_SIZE == 0)
    {
      hide Iterate, DrawInt, WatchListId, IsEarly, IsFirstWith, SeedAfter;
      if initNextLoadUnit {
        var skip := customers.GetCurrentC_ID() % TWO64 * RNG_SKIP_ONE_ROW % TWO64;
        var seed := rnd.RndNthElement(SEED_TABLE_DEFAULT, skip);
        rnd.SetSeed(seed);
        initNextLoadUnit := false;
      }
      var cid := customers.GetCurrentC_ID();
      ghost var start := rnd.seed;
      assert start == old(RowSeed());
      DrawIntIsInRange(rnd.seed, MIN_ITEMS_IN_WL, MAX_ITEMS_IN_WL);
      var count := rnd.RndIntRange(MIN_ITEMS_IN_WL, MAX_ITEMS_IN_WL);
      var chosen := DrawItems(count);
      var items := Ascending(chosen);
      row := WatchList(WatchListId(cid), cid, items);
      ghost var end := rnd.seed;
      assert IsRowOf(row, cid, start, end, securityCount);

      hide IsRowOf;
      moreRecords := false;
      while !moreRecords && customers.moreRecords
        modifies this`moreRecords, this`initNextLoadUnit, rnd, customers
        invariant moreRecords ==> old(customers.moreRecords)
        invariant customers.lastRowNumber == old(customers.lastRowNumber) + if moreRecords then 1 else 0
        invariant customers.moreRecords == (customers.lastRowNumber < customers.rowsToGenerate)
        invariant initNextLoadUnit == (moreRecords && cid % LOAD_UNIT_SIZE == 0)
        invariant rnd.seed == if moreRecords then DrawInt(end, 1, 100).1 else end
        decreases !moreRecords
      {
        if customers.GetCurrentC_ID() % LOAD_UNIT_SIZE == 0 {
          initNextLoadUnit := true;
        }
        var next := customers.GenerateNextC_ID();
        ghost var seed := rnd.seed;
        moreRecords := HasWatchList();
        DrawIntIsInRange(seed, 1, 100);
      }
      assert IsRowOf(row, old(customers.GetCurrentC_ID()), old(RowSeed()), end, securityCount);
      return moreRecords;
    }
  }

  lemma DistinctAreEarly(start: uint64, count: nat, n: nat, k: nat)
    requires CountIsSound(count) && 1 <= k <= Reach(count) && |Distinct(start, count, n)| == k
    ensures forall v :: v in Distinct(start, count, n) <==> IsEarly(v, start, count, k)
  {
    hide Distinct, KthDistinct;
    var values := Distinct(start, count, n);
    forall i | 1 <= i <= k
      ensures values[i - 1] == KthDistinct(start, count, i)
    {
      EnoughDraws(start, count, n, i);
    }
    forall v
      ensures v in values <==> IsEarly(v, start, count, k)
    {
      if v in values {
        var i :| 0 <= i < k && values[i] == v;
        assert v == KthDistinct(start, count, i + 1);
      }
    }
  }

  ghost predicate HasRegularItems(row: WatchList) {
    MIN_ITEMS_IN_WL <= |row.items| <= MAX_ITEMS_IN_WL && StrictlyIncreasing(row.items)
  }

  lemma RowIsRegular(row: WatchList, cid: int, seed: uint64, end: uint64, securityCount: nat)
    requires CountIsSound(securityCount) && securityCount >= MAX_ITEMS_IN_WL
    requires IsRowOf(row, cid, seed, end, securityCount)
    ensures HasRegularItems(row) && row.customer == cid && row.id == WatchListId(cid)
  {
    DrawIntIsInRange(seed, MIN_ITEMS_IN_WL, MAX_ITEMS_IN_WL);
  }

  /** The loader's loop: one watch list per customer, in customer order, no two
      under one id. */
  method GenerateAll(table: WatchListsTable) returns (rows: seq<WatchList>)
    requires table.Valid() && table.customers.lastRowNumber == 1 && table.customers.rowsToGenerate >= 1
    requires table.customers.moreRecords == (1 < table.customers.rowsToGenerate)
    modifies table`row, table`moreRecords, table`initNextLoadUnit, table.rnd, table.customers
    ensures |rows| == table.customers.rowsToGenerate
    ensures forall i :: 0 <= i < |rows| ==>
              rows[i].customer == table.customers.startFromCustomer + IDENT_SHIFT + i &&
              rows[i].id == WatchListId(rows[i].customer)
    ensures forall i :: 0 <= i < |rows| ==> HasRegularItems(rows[i])
    ensures forall i, j :: 0 <= i < j < |rows| ==> rows[i].id != rows[j].id
  {
    hide WatchListId, HasRegularItems;
    rows := [];
    var more := true;
    ghost var first := table.customers.startFromCustomer + IDENT_SHIFT;
    while more
      invariant table.Valid()
      invariant table.customers.moreRecords == (table.customers.lastRowNumber < table.customers.rowsToGenerate)
      invariant 1 <= table.customers.lastRowNumber <= table.customers.rowsToGenerate
      invariant |rows| == if more then table.customers.lastRowNumber - 1 else table.customers.rowsToGenerate
      invariant forall i :: 0 <= i < |rows| ==>
                  rows[i].customer == first + i && rows[i].id == WatchListId(rows[i].customer)
      invariant forall i :: 0 <= i < |rows| ==> HasRegularItems(rows[i])
      decreases table.customers.rowsToGenerate - table.customers.lastRowNumber, more
    {
      ghost var cid, seed := table.customers.GetCurrentC_ID(), table.RowSeed();
      more := table.GenerateNextRecord();
      ghost var end :| IsRowOf(table.row, cid, seed, end, table.securityCount);
      RowIsRegular(table.row, cid, seed, end, table.securityCount);
      rows := rows + [table.row];
    }
    forall i, j | 0 <= i < j < |rows|
      ensures rows[i].id != rows[j].id
    {
      WatchListIdsInvert(rows[i].customer);
      WatchListIdsInvert(rows[j].customer);
    }
  }
}
