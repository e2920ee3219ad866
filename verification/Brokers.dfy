/** The broker table of the trade generator: year-to-date totals per broker, and
    why no account's broker ever falls outside it. */
module Brokers {
  import opened Arithmetic
  import opened Random
  import opened Holdings
  import opened Accounts

  /** The first broker of a table that starts at a customer, counted from 1. */
  function FirstBroker(startFromCustomer: nat): int {
    startFromCustomer / BROKERS_DIV + STARTING_BROKER_ID + IDENT_SHIFT
  }

  // ---------------------------------------------------------------------
  // Totals as values
  // ---------------------------------------------------------------------

  datatype Totals = Totals(first: int, trades: seq<int>, commissions: seq<real>)

  datatype Update = Update(broker: int, trades: int, commission: real)

  predicate InTable(t: Totals, broker: int) {
    t.first <= broker < t.first + |t.trades| && |t.commissions| == |t.trades|
  }

  function Apply(t: Totals, u: Update): (r: Totals)
    requires |t.commissions| == |t.trades|
    ensures r.first == t.first && |r.trades| == |t.trades| == |r.commissions|
  {
    if !InTable(t, u.broker) then t
    else
      var i := u.broker - t.first;
      t.(trades := t.trades[i := t.trades[i] + u.trades],
         commissions := t.commissions[i := t.commissions[i] + u.commission])
  }

  function ApplyAll(t: Totals, us: seq<Update>): (r: Totals)
    requires |t.commissions| == |t.trades|
    ensures r.first == t.first && |r.trades| == |t.trades| == |r.commissions|
  {
    if us == [] then t else Apply(ApplyAll(t, us[..|us| - 1]), us[|us| - 1])
  }

  function ZeroTotals(first: int, n: nat): Totals {
    Totals(first, seq(n, _ => 0), seq(n, _ => 0.0))
  }

  /** What a history adds for one broker, and altogether. */
  function TradesFor(us: seq<Update>, broker: int): int {
    if us == [] then 0
    else
      var last := us[|us| - 1];
      TradesFor(us[..|us| - 1], broker) + if last.broker == broker then last.trades else 0
  }

  function CommissionFor(us: seq<Update>, broker: int): real {
    if us == [] then 0.0
    else
      var last := us[|us| - 1];
      CommissionFor(us[..|us| - 1], broker) + if last.broker == broker then last.commission else 0.0
  }

  function AllTrades(us: seq<Update>): int {
    if us == [] then 0 else AllTrades(us[..|us| - 1]) + us[|us| - 1].trades
  }

  function AllCommissions(us: seq<Update>): real {
    if us == [] then 0.0 else AllCommissions(us[..|us| - 1]) + us[|us| - 1].commission
  }

  function SumOfReals(s: seq<real>): real {
    if s == [] then 0.0 else SumOfReals(s[..|s| - 1]) + s[|s| - 1]
  }

  lemma {:induction false} SumOfRealUpdate(s: seq<real>, i: nat, v: real)
    requires i < |s|
    ensures SumOfReals(s[i := v]) == SumOfReals(s) - s[i] + v
  {
    var n := |s| - 1;
    if i < n {
      SumOfRealUpdate(s[..n], i, v);
      assert s[i := v][..n] == s[..n][i := v];
    } else {
      assert s[i := v][..n] == s[..n];
    }
  }

  lemma {:induction false} SumOfRealZeros(n: nat)
    ensures SumOfReals(seq(n, _ => 0.0)) == 0.0
  {
    if n > 0 {
      SumOfRealZeros(n - 1);
      assert seq(n, _ => 0.0)[..n - 1] == seq(n - 1, _ => 0.0);
    }
  }

  function Sum(s: seq<int>): int {
    if s == [] then 0 else Sum(s[..|s| - 1]) + s[|s| - 1]
  }

  lemma {:induction false} SumOfUpdate(s: seq<int>, i: nat, v: int)
    requires i < |s|
    ensures Sum(s[i := v]) == Sum(s) - s[i] + v
  {
    var n := |s| - 1;
    if i < n {
      SumOfUpdate(s[..n], i, v);
      assert s[i := v][..n] == s[..n][i := v];
    } else {
      assert s[i := v][..n] == s[..n];
    }
  }

  lemma {:induction false} SumOfZeros(n: nat)
    ensures Sum(seq(n, _ => 0)) == 0
  {
    if n > 0 {
      SumOfZeros(n - 1);
      assert seq(n, _ => 0)[..n - 1] == seq(n - 1, _ => 0);
    }
  }

  /** Since the table was zeroed, every broker's totals are the sums of that
      broker's increments. */
  lemma {:induction false} TotalsAreSums(first: int, n: nat, us: seq<Update>, i: nat)
    requires i < n
    ensures ApplyAll(ZeroTotals(first, n), us).trades[i] == TradesFor(us, first + i)
    ensures ApplyAll(ZeroTotals(first, n), us).commissions[i] == CommissionFor(us, first + i)
  {
    if us != [] {
      TotalsAreSums(first, n, us[..|us| - 1], i);
    }
  }

  /** If every broker is in the table, no increment is lost. */
  lemma {:induction false} NothingIsDropped(first: int, n: nat, us: seq<Update>)
    requires forall i :: 0 <= i < |us| ==> first <= us[i].broker < first + n
    ensures Sum(ApplyAll(ZeroTotals(first, n), us).trades) == AllTrades(us)
    ensures SumOfReals(ApplyAll(ZeroTotals(first, n), us).commissions) == AllCommissions(us)
  {
    hide Sum, SumOfReals;
    if us == [] {
      SumOfZeros(n);
      SumOfRealZeros(n);
    } else {
      var init, last := us[..|us| - 1], us[|us| - 1];
      NothingIsDropped(first, n, init);
      var t := ApplyAll(ZeroTotals(first, n), init);
      var i := last.broker - first;
      SumOfUpdate(t.trades, i, t.trades[i] + last.trades);
      SumOfRealUpdate(t.commissions, i, t.commissions[i] + last.commission);
    }
  }

  // ---------------------------------------------------------------------
  // The two id computations agree
  // ---------------------------------------------------------------------

  /** The customer index (from 0, without the shift) of an account. */
  function CustomerIndex(account: int): int {
    (account - 1) / MAX_ACCOUNTS_PER_CUST - IDENT_SHIFT
  }

  /** An account's broker is one of the brokers of its customer's load unit. */
  lemma BrokerIsOfUnit(account: int, unitSize: nat, unit: nat)
    requires BROKERS_DIV <= unitSize < BROKERS_DIV * TWO32
    requires unit * unitSize <= CustomerIndex(account) < unit * unitSize + unitSize
    ensures var b := unitSize / BROKERS_DIV;
            unit * b + STARTING_BROKER_ID + IDENT_SHIFT <= BrokerOf(account, unitSize, b)
              < unit * b + b + STARTING_BROKER_ID + IDENT_SHIFT
  {
    hide NthInRange;
    var b := unitSize / BROKERS_DIV;
    var index := CustomerIndex(account);
    ProductIsMonotone(0, unit, unitSize);
    DivisionIsUnique(unitSize, index, unit, index - unit * unitSize);
    var start := unit * b + STARTING_BROKER_ID + IDENT_SHIFT;
    NthIsInRange(SEED_BASE_BROKER_ID, (account - 10 * IDENT_SHIFT) % TWO64, start, start + b - 1);
  }

  /** Which one: the account's own seed, as a fraction of 2^64, scaled to the brokers
      of the unit. */
  lemma BrokerIsDrawn(account: int, unitSize: nat, unit: nat)
    requires BROKERS_DIV <= unitSize < BROKERS_DIV * TWO32
    requires unit * unitSize <= CustomerIndex(account) < unit * unitSize + unitSize
    ensures var b, place := unitSize / BROKERS_DIV, (account - MAX_ACCOUNTS_PER_CUST * IDENT_SHIFT) % TWO64;
            BrokerOf(account, unitSize, b) - (unit * b + STARTING_BROKER_ID + IDENT_SHIFT) ==
            if b == 1 then 0 else Iterate(SEED_BASE_BROKER_ID, place) * b / TWO64
  {
    hide Iterate, Mul6464;
    var b := unitSize / BROKERS_DIV;
    var index := CustomerIndex(account);
    ProductIsMonotone(0, unit, unitSize);
    DivisionIsUnique(unitSize, index, unit, index - unit * unitSize);
    SafeRangesAreExact(Iterate(SEED_BASE_BROKER_ID, (account - 10 * IDENT_SHIFT) % TWO64), b);
  }

  predicate OfUnits(account: int, firstUnit: nat, units: nat, size: nat) {
    firstUnit * size <= CustomerIndex(account) < (firstUnit + units) * size
  }

  /** For a load-unit-aligned range of customers, every account's broker is in the
      table that covers the range. */
  lemma BrokerIsInTable(account: int, perUnit: nat, firstUnit: nat, units: nat)
    requires 0 < perUnit < TWO32
    requires OfUnits(account, firstUnit, units, perUnit * BROKERS_DIV)
    ensures var size := perUnit * BROKERS_DIV;
            var first := FirstBroker(firstUnit * size + 1);
            first <= BrokerOf(account, size, size / BROKERS_DIV) < first + units * size / BROKERS_DIV
  {
    hide BrokerOf, CustomerIndex;
    var size := perUnit * BROKERS_DIV;
    assert size / BROKERS_DIV == perUnit;
    var index := CustomerIndex(account);
    ProductIsMonotone(0, firstUnit, size);
    var unit := index / size;
    DivisionParts(size, index);
    UnitIsInRange(size, index, unit, firstUnit, units);
    BrokerIsOfUnit(account, size, unit);
    ProductIsMonotone(firstUnit, unit, perUnit);
    ProductIsMonotone(unit + 1, firstUnit + units, perUnit);
    BrokersPerUnits(perUnit, firstUnit);
    BrokersPerUnits(perUnit, units);
  }

  lemma UnitIsInRange(size: nat, index: int, unit: int, firstUnit: nat, units: nat)
    requires size > 0 && index / size == unit
    requires firstUnit * size <= index < (firstUnit + units) * size
    ensures firstUnit <= unit < firstUnit + units
    ensures unit * size <= index < unit * size + size
  {
    DivisionParts(size, index);
    if unit < firstUnit {
      WholeTurns(size, unit, firstUnit);
    }
    if unit >= firstUnit + units {
      if unit > firstUnit + units {
        WholeTurns(size, firstUnit + units, unit);
      }
    }
  }

  lemma BrokersPerUnits(perUnit: nat, units: nat)
    ensures units * (perUnit * BROKERS_DIV) / BROKERS_DIV == units * perUnit
    ensures (units * (perUnit * BROKERS_DIV) + 1) / BROKERS_DIV == units * perUnit
  {
    assert units * (perUnit * BROKERS_DIV) == (units * perUnit) * BROKERS_DIV;
  }

  /** A unit size that 100 does not divide breaks this: there is a load unit whose
      accounts all have brokers before its table's first one. */
  lemma OtherUnitSizesMissTheTable(account: int, size: nat)
    requires 0 < size < BROKERS_DIV * TWO32 && size % BROKERS_DIV != 0
    requires OfUnit(account, UncoveredUnit(size), size)
    ensures BrokerOf(account, size, size / BROKERS_DIV) < FirstBroker(UncoveredUnit(size) * size + 1)
  {
    hide BrokerOf, CustomerIndex;
    var b, r, unit := size / BROKERS_DIV, size % BROKERS_DIV, UncoveredUnit(size);
    if size < BROKERS_DIV {
      NoBrokersAtAll(account, size);
    } else {
      BrokerIsOfUnit(account, size, unit);
      assert unit * size == b * size * BROKERS_DIV;
      assert (unit * size + 1) / BROKERS_DIV == b * size;
      assert b * size == b * (BROKERS_DIV * b) + b * r;
      ProductIsMonotone(1, r, b);
    }
  }

  /** Units smaller than 100 have no brokers, so that all accounts share one. */
  lemma NoBrokersAtAll(account: int, size: nat)
    requires 0 < size < BROKERS_DIV
    ensures BrokerOf(account, size, size / BROKERS_DIV) == STARTING_BROKER_ID + IDENT_SHIFT
  {
  }

  function UncoveredUnit(size: nat): nat {
    BROKERS_DIV * if size < BROKERS_DIV then 1 else size / BROKERS_DIV
  }

  predicate OfUnit(account: int, unit: nat, size: nat) {
    unit * size <= CustomerIndex(account) < unit * size + size
  }

  /** Is the account's broker in the table that its load unit gets? */
  predicate IsCovered(account: int, unit: nat, size: nat)
    requires 0 < size < BROKERS_DIV * TWO32
  {
    var b := size / BROKERS_DIV;
    InTable(ZeroTotals(FirstBroker(unit * size + 1), b), BrokerOf(account, size, b))
  }

  /** Every account's broker is in its load unit's table exactly when 100 divides
      the size of load units. */
  lemma UnitSizesThatWork(size: nat)
    requires 0 < size < BROKERS_DIV * TWO32
    ensures (forall account: int, unit: nat :: OfUnit(account, unit, size) ==> IsCovered(account, unit, size)) <==>
            size % BROKERS_DIV == 0
  {
    hide BrokerOf, CustomerIndex;
    if size % BROKERS_DIV == 0 {
      forall account: int, unit: nat | OfUnit(account, unit, size)
        ensures IsCovered(account, unit, size)
      {
        assert (unit + 1) * size == unit * size + size;
        BrokerIsInTable(account, size / BROKERS_DIV, unit, 1);
      }
    } else {
      var unit := UncoveredUnit(size);
      var account := AccountOfIndex(unit * size);
      OtherUnitSizesMissTheTable(account, size);
      assert OfUnit(account, unit, size) && !IsCovered(account, unit, size);
    }
  }

  lemma AccountOfIndex(index: nat) returns (account: int)
    ensures CustomerIndex(account) == index
  {
    account := (index + IDENT_SHIFT) * MAX_ACCOUNTS_PER_CUST + 1;
  }

  // ---------------------------------------------------------------------
  // A whole range of load units
  // ---------------------------------------------------------------------

  /** What a trade adds to the totals of its account's broker. */
  datatype Trade = Trade(account: int, trades: int, commission: real)

  function UpdatesOf(trades: seq<Trade>, size: nat): (us: seq<Update>)
    requires 0 < size < BROKERS_DIV * TWO32
    ensures |us| == |trades|
  {
    seq(|trades|, i requires 0 <= i < |trades| =>
      Update(BrokerOf(trades[i].account, size, size / BROKERS_DIV), trades[i].trades, trades[i].commission))
  }

  /** The trades and commissions of one broker's accounts, and of all. */
  function TradesOf(trades: seq<Trade>, size: nat, broker: int): int
    requires 0 < size < BROKERS_DIV * TWO32
  {
    if trades == [] then 0
    else
      var last := trades[|trades| - 1];
      TradesOf(trades[..|trades| - 1], size, broker) +
      if BrokerOf(last.account, size, size / BROKERS_DIV) == broker then last.trades else 0
  }

  function CommissionOf(trades: seq<Trade>, size: nat, broker: int): real
    requires 0 < size < BROKERS_DIV * TWO32
  {
    if trades == [] then 0.0
    else
      var last := trades[|trades| - 1];
      CommissionOf(trades[..|trades| - 1], size, broker) +
      if BrokerOf(last.account, size, size / BROKERS_DIV) == broker then last.commission else 0.0
  }

  function TotalTrades(trades: seq<Trade>): int {
    if trades == [] then 0 else TotalTrades(trades[..|trades| - 1]) + trades[|trades| - 1].trades
  }

  function TotalCommission(trades: seq<Trade>): real {
    if trades == [] then 0.0 else TotalCommission(trades[..|trades| - 1]) + trades[|trades| - 1].commission
  }

  /** The updates carry over what the trades are. */
  lemma {:induction false} UpdatesCarryTrades(trades: seq<Trade>, size: nat, broker: int)
    requires 0 < size < BROKERS_DIV * TWO32
    ensures TradesFor(UpdatesOf(trades, size), broker) == TradesOf(trades, size, broker)
    ensures CommissionFor(UpdatesOf(trades, size), broker) == CommissionOf(trades, size, broker)
    ensures AllTrades(UpdatesOf(trades, size)) == TotalTrades(trades)
    ensures AllCommissions(UpdatesOf(trades, size)) == TotalCommission(trades)
  {
    hide BrokerOf;
    if trades != [] {
      var n := |trades| - 1;
      UpdatesCarryTrades(trades[..n], size, broker);
      assert UpdatesOf(trades, size)[..n] == UpdatesOf(trades[..n], size);
    }
  }

  lemma UpdatesAreInTable(perUnit: nat, firstUnit: nat, units: nat, trades: seq<Trade>)
    requires 0 < perUnit < TWO32
    requires forall i :: 0 <= i < |trades| ==> OfUnits(trades[i].account, firstUnit, units, perUnit * BROKERS_DIV)
    ensures var size := perUnit * BROKERS_DIV;
            var us, first := UpdatesOf(trades, size), FirstBroker(firstUnit * size + 1);
            forall i :: 0 <= i < |us| ==> first <= us[i].broker < first + units * size / BROKERS_DIV
  {
    hide BrokerOf, OfUnits, FirstBroker;
    forall i | 0 <= i < |trades|
      ensures var size := perUnit * BROKERS_DIV;
              var first := FirstBroker(firstUnit * size + 1);
              first <= UpdatesOf(trades, size)[i].broker < first + units * size / BROKERS_DIV
    {
      BrokerIsInTable(trades[i].account, perUnit, firstUnit, units);
    }
  }

  /** For an aligned range and a unit size that 100 divides, the broker totals add
      up to all trades and all commissions of the range's accounts. */
  lemma EveryTradeIsCounted(perUnit: nat, firstUnit: nat, units: nat, trades: seq<Trade>)
    requires 0 < perUnit < TWO32
    requires forall i :: 0 <= i < |trades| ==> OfUnits(trades[i].account, firstUnit, units, perUnit * BROKERS_DIV)
    ensures var size := perUnit * BROKERS_DIV;
            var us := UpdatesOf(trades, size);
            var t := ApplyAll(ZeroTotals(FirstBroker(firstUnit * size + 1), units * size / BROKERS_DIV), us);
            Sum(t.trades) == TotalTrades(trades) && SumOfReals(t.commissions) == TotalCommission(trades)
  {
    hide BrokerOf, OfUnits, Sum, SumOfReals, FirstBroker, UpdatesOf, TotalTrades, TotalCommission;
    var size := perUnit * BROKERS_DIV;
    var us := UpdatesOf(trades, size);
    var first, n := FirstBroker(firstUnit * size + 1), units * size / BROKERS_DIV;
    UpdatesAreInTable(perUnit, firstUnit, units, trades);
    UpdatesCarryTrades(trades, size, first);
    NothingIsDropped(first, n, us);
  }

  // ---------------------------------------------------------------------
  // The table object
  // ---------------------------------------------------------------------

  datatype BrokerRow = BrokerRow(id: int, numTrades: int, commTotal: real)

  class BrokersTable {
    var totalBrokers: nat
    var startFromBroker: int
    var numTrades: array?<int>
    var commTotal: array?<real>
    var lastRowNumber: nat
    var moreRecords: bool

    ghost predicate Ready()
      reads this
    {
      numTrades != null && commTotal != null && numTrades.Length == totalBrokers == commTotal.Length
    }

    ghost function Value(): Totals
      requires Ready()
      reads this, numTrades, commTotal
    {
      Totals(startFromBroker, numTrades[..], commTotal[..])
    }

    constructor (customerCount: nat, startFromCustomer: nat)
      ensures totalBrokers == customerCount / BROKERS_DIV && startFromBroker == FirstBroker(startFromCustomer)
      ensures numTrades == null && commTotal == null
    {
      totalBrokers, startFromBroker := customerCount / BROKERS_DIV, FirstBroker(startFromCustomer);
      numTrades, commTotal := null, null;
      lastRowNumber, moreRecords := 0, false;
    }

    /** Starts a load unit: all totals are zero. */
    method InitForGen(customerCount: nat, startFromCustomer: nat)
      requires numTrades == null || commTotal == null || Ready()
      modifies this, if numTrades == null then {} else {numTrades}, if commTotal == null then {} else {commTotal}
      ensures Ready() && totalBrokers == customerCount / BROKERS_DIV
      ensures Value() == ZeroTotals(FirstBroker(startFromCustomer), totalBrokers)
      ensures numTrades == old(numTrades) || fresh(numTrades)
      ensures commTotal == old(commTotal) || fresh(commTotal)
      ensures lastRowNumber == 0
    {
      if totalBrokers != customerCount / BROKERS_DIV || numTrades == null || commTotal == null {
        totalBrokers := customerCount / BROKERS_DIV;
        numTrades := new int[totalBrokers];
        commTotal := new real[totalBrokers];
      }
      var trades, commissions := numTrades, commTotal;
      for i := 0 to totalBrokers
        modifies trades
        invariant forall j :: 0 <= j < i ==> trades[j] == 0
      {
        trades[i] := 0;
      }
      for i := 0 to totalBrokers
        modifies commissions
        invariant forall j :: 0 <= j < i ==> commissions[j] == 0.0
      {
        commissions[i] := 0.0;
      }
      if startFromBroker != FirstBroker(startFromCustomer) {
        startFromBroker := FirstBroker(startFromCustomer);
      }
      lastRowNumber := 0;
    }

    /** Adds to the totals of a broker of this table; other brokers are ignored. */
    method UpdateTradeAndCommissionYTD(broker: int, trades: int, commission: real)
      requires Ready()
      modifies numTrades, commTotal
      ensures Ready()
      ensures Value() == Apply(old(Value()), Update(broker, trades, commission))
    {
      if startFromBroker <= broker && broker < startFromBroker + totalBrokers {
        var i := broker - startFromBroker;
        numTrades[i] := numTrades[i] + trades;
        commTotal[i] := commTotal[i] + commission;
      }
    }

    /** The next broker's row. */
    method GenerateNextRecord() returns (row: BrokerRow)
      requires Ready() && lastRowNumber < totalBrokers
      modifies this`lastRowNumber, this`moreRecords
      ensures row == BrokerRow(startFromBroker + old(lastRowNumber), numTrades[old(lastRowNumber)],
                               commTotal[old(lastRowNumber)])
      ensures lastRowNumber == old(lastRowNumber) + 1
      ensures moreRecords <==> lastRowNumber < totalBrokers
    {
      var id := startFromBroker + lastRowNumber;
      row := BrokerRow(id, numTrades[id - startFromBroker], commTotal[id - startFromBroker]);
      lastRowNumber := lastRowNumber + 1;
      moreRecords := lastRowNumber < totalBrokers;
    }
  }

  function RowsOf(t: Totals): (rows: seq<BrokerRow>)
    requires |t.commissions| == |t.trades|
    ensures |rows| == |t.trades|
  {
    seq(|t.trades|, i requires 0 <= i < |t.trades| => BrokerRow(t.first + i, t.trades[i], t.commissions[i]))
  }

  /** The loader's loop: one row per broker, in order. */
  method GenerateAll(table: BrokersTable) returns (rows: seq<BrokerRow>)
    requires table.Ready() && table.lastRowNumber == 0 && table.totalBrokers > 0
    modifies table`lastRowNumber, table`moreRecords
    ensures table.Ready() && rows == RowsOf(table.Value())
  {
    rows := [];
    var more := true;
    while more
      invariant table.Ready() && table.lastRowNumber == |rows| <= table.totalBrokers
      invariant more <==> |rows| < table.totalBrokers
      invariant rows == RowsOf(table.Value())[..|rows|]
      decreases table.totalBrokers - |rows|
    {
      var row := table.GenerateNextRecord();
      more := table.moreRecords;
      rows := rows + [row];
    }
  }

  /** What a load unit's broker rows say: each row the sums of its broker's trades
      and commissions, and together all of them. */
  lemma RowsReportAllTrades(perUnit: nat, firstUnit: nat, units: nat, trades: seq<Trade>, i: nat)
    requires 0 < perUnit < TWO32
    requires forall k :: 0 <= k < |trades| ==> OfUnits(trades[k].account, firstUnit, units, perUnit * BROKERS_DIV)
    requires i < units * (perUnit * BROKERS_DIV) / BROKERS_DIV
    ensures var size := perUnit * BROKERS_DIV;
            var first, us := FirstBroker(firstUnit * size + 1), UpdatesOf(trades, size);
            var t := ApplyAll(ZeroTotals(first, units * size / BROKERS_DIV), us);
            RowsOf(t)[i] == BrokerRow(first + i, TradesOf(trades, size, first + i), CommissionOf(trades, size, first + i)) &&
            Sum(t.trades) == TotalTrades(trades) && SumOfReals(t.commissions) == TotalCommission(trades)
  {
    hide BrokerOf, OfUnits, Sum, SumOfReals, FirstBroker, TradesFor, CommissionFor;
    var size := perUnit * BROKERS_DIV;
    UpdatesCarryTrades(trades, size, FirstBroker(firstUnit * size + 1) + i);
    EveryTradeIsCounted(perUnit, firstUnit, units, trades);
    TotalsAreSums(FirstBroker(firstUnit * size + 1), units * size / BROKERS_DIV, UpdatesOf(trades, size), i);
  }
}
