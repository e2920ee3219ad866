/** Five years of daily market rows per security, emitted one by one. */
module DailyMarket {
  import opened Arithmetic
  import opened Random

  const ROWS_PER_SECURITY := 1305
  const DRAWS_PER_SECURITY := 2610
  const DAYS_PER_WEEK := 7
  const DAYS_PER_WORK_WEEK := 5
  const RNG_SKIP_ONE_ROW := 2
  const CLOSE_STEPS := 1000  // closing prices from 20.00 to 30.00 in steps of 0.01
  const VOLUME_MIN := 1000
  const VOLUME_MAX := 10000

  /** `day` counts from a Monday; `close` counts steps above the lowest price. */
  datatype MarketRow = MarketRow(security: int, day: int, close: int, volume: int)

  /** The day of trading day number `r`. */
  function Day(r: nat): nat {
    DAYS_PER_WEEK * (r / DAYS_PER_WORK_WEEK) + r % DAYS_PER_WORK_WEEK
  }

  lemma DaysAreWorkdays(q: nat, r: nat)
    requires q < r
    ensures Day(q) < Day(r)
    ensures Day(r) % DAYS_PER_WEEK < DAYS_PER_WORK_WEEK
  {
  }

  /** No trading day is skipped: every workday is some row's. */
  lemma EveryWorkdayIsTraded(day: nat)
    ensures day % DAYS_PER_WEEK < DAYS_PER_WORK_WEEK <==> exists r: nat :: Day(r) == day
  {
    if day % DAYS_PER_WEEK < DAYS_PER_WORK_WEEK {
      var r := DAYS_PER_WORK_WEEK * (day / DAYS_PER_WEEK) + day % DAYS_PER_WEEK;
      assert Day(r) == day;
    }
  }

  /** Row `r` of a security whose draws start at `seed`. */
  function RowFrom(security: int, r: nat, seed: uint64): MarketRow {
    var (close, next) := Draw(Iterate(seed, 2 * r), 0, CLOSE_STEPS);
    MarketRow(security, Day(r), close, Draw(next, VOLUME_MIN, VOLUME_MAX).0)
  }

  /** A row takes two draws. */
  lemma RowDraws(security: int, r: nat, seed: uint64)
    ensures var (close, next) := Draw(Iterate(seed, 2 * r), 0, CLOSE_STEPS);
            var (volume, after) := Draw(next, VOLUME_MIN, VOLUME_MAX);
            RowFrom(security, r, seed) == MarketRow(security, Day(r), close, volume) &&
            after == Iterate(seed, 2 * (r + 1))
  {
    hide Mul6464, NextSeed, Day;
    var n := 2 * r;
    assert Iterate(seed, n + 2) == NextSeed(Iterate(seed, n + 1)) && Iterate(seed, n + 1) == NextSeed(Iterate(seed, n));
  }

  lemma FirstRow(seed: uint64)
    ensures Iterate(seed, 2 * 0) == seed && Day(0) == 0
  {
  }

  lemma NextDay(r: nat)
    ensures Day(r + 1) == if (Day(r) + 1) % DAYS_PER_WEEK == DAYS_PER_WORK_WEEK then Day(r) + 3 else Day(r) + 1
  {
  }

  /** How many draws from the table's seed on the draws of a security start: the
      stream is placed anew at every load unit. */
  function DrawsBefore(security: nat, perUnit: nat): (n: nat)
    requires perUnit > 0
  {
    var i := security % perUnit;
    RNG_SKIP_ONE_ROW * (security - i) + DRAWS_PER_SECURITY * i
  }

  function SecuritySeed(security: nat, perUnit: nat): uint64
    requires perUnit > 0
  {
    Iterate(SEED_TABLE_DEFAULT, DrawsBefore(security, perUnit))
  }

  function RowOf(security: nat, r: nat, perUnit: nat): MarketRow
    requires perUnit > 0
  {
    RowFrom(security, r, SecuritySeed(security, perUnit))
  }

  lemma NextSecurity(security: nat, perUnit: nat)
    requires perUnit > 0
    ensures (security + 1) % perUnit != 0 ==>
              SecuritySeed(security + 1, perUnit) == Iterate(SecuritySeed(security, perUnit), DRAWS_PER_SECURITY)
    ensures security % perUnit == 0 ==> DrawsBefore(security, perUnit) == RNG_SKIP_ONE_ROW * security
  {
    hide Iterate;
    if (security + 1) % perUnit != 0 {
      var unit, i := security / perUnit, security % perUnit;
      DivisionParts(perUnit, security);
      if i == perUnit - 1 {
        DivisionIsUnique(perUnit, security + 1, unit + 1, 0);
      } else {
        DivisionIsUnique(perUnit, security + 1, unit, i + 1);
        var n: nat :| n == DRAWS_PER_SECURITY;
        assert DrawsBefore(security + 1, perUnit) == DrawsBefore(security, perUnit) + n;
        IterateAdd(SEED_TABLE_DEFAULT, DrawsBefore(security, perUnit), n);
      }
    }
  }

  /** Row number `x` of a load unit that starts at a security. */
  function UnitRow(first: nat, x: nat, perUnit: nat): MarketRow
    requires perUnit > 0
  {
    RowOf(first + x / ROWS_PER_SECURITY, x % ROWS_PER_SECURITY, perUnit)
  }

  /** Within a load unit the draws run on from row to row. */
  lemma UnitRowDraws(first: nat, x: nat, perUnit: nat)
    requires perUnit > 0 && first % perUnit == 0 && x < ROWS_PER_SECURITY * perUnit
    ensures Iterate(SecuritySeed(first + x / ROWS_PER_SECURITY, perUnit), 2 * (x % ROWS_PER_SECURITY)) ==
            Iterate(SEED_TABLE_DEFAULT, 2 * (first + x))
  {
    hide Iterate;
    var i, r := x / ROWS_PER_SECURITY, x % ROWS_PER_SECURITY;
    DivisionParts(perUnit, first);
    DivisionIsUnique(perUnit, first + i, first / perUnit, i);
    assert DrawsBefore(first + i, perUnit) == RNG_SKIP_ONE_ROW * first + DRAWS_PER_SECURITY * i;
    IterateAdd(SEED_TABLE_DEFAULT, DrawsBefore(first + i, perUnit), 2 * r);
  }

  /** Row number `x` of a load unit takes its closing price and its volume from the
      two seeds at its place of one stream, as fractions of 2^64. */
  lemma UnitRowValues(first: nat, x: nat, perUnit: nat)
    requires perUnit > 0 && first % perUnit == 0 && x < ROWS_PER_SECURITY * perUnit
    ensures var row, place := UnitRow(first, x, perUnit), 2 * (first + x);
            && row.security == first + x / ROWS_PER_SECURITY
            && row.close == Iterate(SEED_TABLE_DEFAULT, place + 1) * (CLOSE_STEPS + 1) / TWO64
            && row.volume == VOLUME_MIN + Iterate(SEED_TABLE_DEFAULT, place + 2) * (VOLUME_MAX - VOLUME_MIN + 1) / TWO64
  {
    hide Iterate, Draw, SecuritySeed, NextSeed;
    UnitRowDraws(first, x, perUnit);
    var place := 2 * (first + x);
    var seed := Iterate(SEED_TABLE_DEFAULT, place);
    TwoMoreSeeds(SEED_TABLE_DEFAULT, place);
    DrawIsScaled(seed, 0, CLOSE_STEPS);
    DrawIsScaled(NextSeed(seed), VOLUME_MIN, VOLUME_MAX);
  }

  lemma TwoMoreSeeds(seed: uint64, n: nat)
    ensures Iterate(seed, n + 1) == NextSeed(Iterate(seed, n))
    ensures Iterate(seed, n + 2) == NextSeed(NextSeed(Iterate(seed, n)))
  {
    hide NextSeed;
    assert Iterate(seed, n + 2) == NextSeed(Iterate(seed, n + 1));
  }

  /** The skip between load units is shorter than what a unit draws: all rows of the
      next unit but its last `perUnit` repeat closing prices and volumes of this one. */
  lemma LoadUnitsOverlap(first: nat, x: nat, perUnit: nat)
    requires perUnit > 0 && first % perUnit == 0
    requires x + perUnit < ROWS_PER_SECURITY * perUnit
    ensures UnitRow(first + perUnit, x, perUnit).close == UnitRow(first, x + perUnit, perUnit).close
    ensures UnitRow(first + perUnit, x, perUnit).volume == UnitRow(first, x + perUnit, perUnit).volume
  {
    hide Iterate, Draw, SecuritySeed;
    CongruentBy(perUnit, first + perUnit, first, 1);
    UnitRowDraws(first + perUnit, x, perUnit);
    UnitRowDraws(first, x + perUnit, perUnit);
  }

  class DailyMarketTable {
    const rnd: CRandom
    const startFromSecurity: nat
    const securityCount: nat
    const perUnit: nat
    const rows: array<MarketRow>
    var rowsGenerated: nat
    var moreSecurities: bool
    var moreRecords: bool
    var lastRowNumber: nat

    /** Emitted so far: `Emitted()` rows, the last of them row `rowsGenerated` of
        security `lastRowNumber - 1`. */
    ghost predicate Valid()
      reads this, rnd, rows
      ensures Valid() ==> perUnit > 0
    {
      && perUnit > 0 && startFromSecurity % perUnit == 0 && startFromSecurity + securityCount + 1 < TWO63
      && rows.Length == ROWS_PER_SECURITY
      && startFromSecurity <= lastRowNumber <= startFromSecurity + Securities()
      && moreSecurities == (lastRowNumber < startFromSecurity + Securities())
      && (if lastRowNumber == startFromSecurity then rowsGenerated == ROWS_PER_SECURITY
          else
            && rowsGenerated < ROWS_PER_SECURITY
            && forall r :: 0 <= r < ROWS_PER_SECURITY ==> rows[r] == RowOf(lastRowNumber - 1, r, perUnit))
      && (lastRowNumber % perUnit != 0 ==> rnd.seed == SecuritySeed(lastRowNumber, perUnit))
      && (moreRecords ==> moreSecurities || rowsGenerated < ROWS_PER_SECURITY - 1)
    }

    /** An empty range still gets one security. */
    function Securities(): nat {
      if securityCount == 0 then 1 else securityCount
    }

    ghost function Emitted(): int
      reads this
    {
      if lastRowNumber == startFromSecurity then 0
      else ROWS_PER_SECURITY * (lastRowNumber - 1 - startFromSecurity) + rowsGenerated + 1
    }

    constructor (startFromSecurity: nat, securityCount: nat, perUnit: nat)
      requires perUnit > 0 && startFromSecurity % perUnit == 0 && startFromSecurity + securityCount + 1 < TWO63
      ensures Valid() && fresh(rnd) && fresh(rows) && moreRecords && Emitted() == 0
      ensures this.startFromSecurity == startFromSecurity && this.securityCount == securityCount
      ensures this.perUnit == perUnit
    {
      rnd := new CRandom(SEED_TABLE_DEFAULT);
      rows := new MarketRow[ROWS_PER_SECURITY](_ => MarketRow(0, 0, 0, 0));
      this.startFromSecurity, this.securityCount, this.perUnit := startFromSecurity, securityCount, perUnit;
      lastRowNumber, rowsGenerated := startFromSecurity, ROWS_PER_SECURITY;
      moreSecurities, moreRecords := true, true;
    }

    /** All rows of the current security; the day runs along and skips weekends. */
    method GenerateDailyMarketRows()
      requires rows.Length == ROWS_PER_SECURITY
      modifies rnd, rows
      ensures forall r :: 0 <= r < ROWS_PER_SECURITY ==> rows[r] == RowFrom(lastRowNumber, r, old(rnd.seed))
      ensures rnd.seed == Iterate(old(rnd.seed), DRAWS_PER_SECURITY)
    {
      hide Draw, Iterate, Day, RowFrom;
      FirstRow(rnd.seed);
      var day := 0;
      ghost var start := rnd.seed;
      for i := 0 to rows.Length
        modifies rnd, rows
        invariant day == Day(i)
        invariant rnd.seed == Iterate(start, 2 * i)
        invariant forall r :: 0 <= r < i ==> rows[r] == RowFrom(lastRowNumber, r, start)
      {
        RowDraws(lastRowNumber, i, start);
        NextDay(i);
        var close := rnd.RndInt64Range(0, CLOSE_STEPS);
        var volume := rnd.RndInt64Range(VOLUME_MIN, VOLUME_MAX);
        rows[i] := MarketRow(lastRowNumber, day, close, volume);
        day := day + 1;
        if day % DAYS_PER_WEEK == DAYS_PER_WORK_WEEK {
          day := day + 2;
        }
      }
    }

    /** Moves on by one row, and reports whether more will follow. */
    method GenerateNextRecord() returns (more: bool)
      requires Valid() && moreRecords
      modifies this, rnd, rows
      ensures Valid() && more == moreRecords
      ensures Emitted() == old(Emitted()) + 1
      ensures more <==> Emitted() < ROWS_PER_SECURITY * Securities()
    {
      hide Iterate, Draw, Day;
      rowsGenerated := rowsGenerated + 1;
      if rowsGenerated >= ROWS_PER_SECURITY {
        if moreSecurities {
          if lastRowNumber % perUnit == 0 {
            var seed := rnd.RndNthElement(SEED_TABLE_DEFAULT, lastRowNumber * RNG_SKIP_ONE_ROW);
            rnd.SetSeed(seed);
          }
          NextSecurity(lastRowNumber, perUnit);
          GenerateDailyMarketRows();
          lastRowNumber := lastRowNumber + 1;
          moreSecurities := lastRowNumber < startFromSecurity + securityCount;
          rowsGenerated := 0;
        }
      }
      if !moreSecurities && rowsGenerated == ROWS_PER_SECURITY - 1 {
        moreRecords := false;
      }
      return moreRecords;
    }

    method GetRow() returns (row: MarketRow)
      requires Valid() && Emitted() > 0
      ensures row == RowOf(startFromSecurity + (Emitted() - 1) / ROWS_PER_SECURITY,
                           (Emitted() - 1) % ROWS_PER_SECURITY, perUnit)
    {
      DivisionIsUnique(ROWS_PER_SECURITY, Emitted() - 1, lastRowNumber - 1 - startFromSecurity, rowsGenerated);
      return rows[rowsGenerated];
    }
  }

  /** The loader's loop: call by call, the rows of all securities in order. */
  method GenerateAll(table: DailyMarketTable) returns (rows: seq<MarketRow>)
    requires table.Valid() && table.moreRecords && table.Emitted() == 0
    modifies table, table.rnd, table.rows
    ensures |rows| == ROWS_PER_SECURITY * table.Securities()
    ensures forall j :: 0 <= j < |rows| ==>
      rows[j] == RowOf(table.startFromSecurity + j / ROWS_PER_SECURITY, j % ROWS_PER_SECURITY, table.perUnit)
  {
    hide DailyMarketTable.Valid, RowOf, DailyMarketTable.Emitted;
    rows := [];
    var more := true;
    while more
      invariant table.Valid() && table.Emitted() == |rows|
      invariant more == table.moreRecords == (|rows| < ROWS_PER_SECURITY * table.Securities())
      invariant |rows| <= ROWS_PER_SECURITY * table.Securities()
      invariant forall j :: 0 <= j < |rows| ==>
        rows[j] == RowOf(table.startFromSecurity + j / ROWS_PER_SECURITY, j % ROWS_PER_SECURITY, table.perUnit)
      decreases ROWS_PER_SECURITY * table.Securities() - |rows|
    {
      more := table.GenerateNextRecord();
      var row := table.GetRow();
      rows := rows + [row];
    }
  }
}
