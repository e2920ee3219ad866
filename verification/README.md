# A verified model of small-db-v2

A distributed SQL store (`src/`) and the TPC-E data generator and driver that
benchmark it (`test/tpc-e/`), modelled in Dafny and proved. `dafny verify
dfyconfig.toml` checks everything.

## What is modelled

**Rows over an ordered key/value store.** A row is written as one key per column,
`/<table>/<pk>/column_<i>`, and read back by a prefix scan whose keys are taken
apart one by one and appended to one builder per column; nothing groups by
primary key. `ByteOrder` and `Decimal` hold the facts about byte order and
decimal text, `Rocks` the store, `Query` the scan loop, and `RowStore` proves
that together they refine a plain map from primary keys to rows.
`Catalogs`/`CatalogRuns` add the in-memory catalog with its two system tables, and
`Peers`/`Insert` the routing of inserts to remote servers.

**The PostgreSQL wire.** `PgWire` is the server's side: message objects that append
to a shared buffer and patch lengths in place. `PgFrontend` is an independent
layout and reader written from the section "Message Formats" of the chapter
"Frontend/Backend Protocol" of the PostgreSQL 17 documentation; the theorems
connect the two. `Startup` is the loop over the startup packet.

**The timer wheel.** `TimerQueue` is the queue of deadlines that the wheel is for,
as a state machine with theorems over all runs; `WheelTimes` and `TimerWheels` are the
clock and the hashed wheel, proved to take exactly the queue's steps.

**The TPC-E generators.** `Random` and `FullPeriod` treat the 64-bit linear
congruential generator (skipping ahead, the hand-made 128-bit product, the full
period). On them rest the securities of an account (`Holdings`, `Portfolios`),
tiers and account counts (`CustomerSelection`, `AccountCounts`), the account
generator with its caches (`Accounts`, `AccountRuns`), the broker totals
(`Brokers`), watch lists (`WatchLists`) and daily market rows (`DailyMarket`).

Classes keep the fields of the source and update them in place; each method is
proved against a specification on values, and the theorems are about that
specification. Where the source raises an exception or returns an error status,
the model returns it.

## What the proofs found

- Rows come out in the order of `pk + "/"`, which differs from the order of the
  primary keys exactly where one key extends another by a byte below `/`
  (`RowStore.RowOrderVersusKeyOrder`).
- A query result with an integer column cannot be sent: Arrow prints the type as
  `int64`, and the wire encoder looks up `int4` (`PgWire.ResultIsDescribable`).
- `AddListPartition` shadows its table name and changes the list-partitioned table
  that its hash table lists first (`Catalogs.NamedTableIsChanged` says when that is
  the one named); a table can then lose a partition row to another
  (`CatalogRuns.PartitionsAreCurrent`, `CatalogRuns.SharedNameRun`).
- `DropTable` deletes from a column family that holds no rows, so dropped tables
  stay listed on disk (`CatalogRuns.RowsAreCreatedNames`, `CatalogRuns.ListIsCurrent`).
- One primary key with a slash can fail every query of its table, or move all cells
  of its row into one column (`Query.StrayKeyFailsTheQuery`,
  `Query.SlashedRowIsOneColumn`).
- A description of 32768 columns or more cannot be read
  (`PgWire.DescriptionIsUnderstood`).
- A timer whose interval is zero ticks, or more than one turn of the wheel, fires
  at another tick than asked for (`TimerQueue.FiresAsRequested`). One whole turn is
  handled when firing, but not when the next time is searched
  (`TimerQueue.NextPollIsEarliest`, `TimerQueue.NextTimeIsExact`); the trading floor's wheel of five seconds
  and delays of up to five seconds can meet this case.
- The 64 by 64 bit product guesses a carry and can be short by 2^32
  (`Random.Mul6464Exact`). For some ranges no seed triggers it, for all others the
  top of the range is never drawn (`FullPeriod.SafeRangesAreCovered`); all
  ranges below 3 * 2^32 - 1 are of the first kind.
- `GenerateNextCA_AD` slides its cache window on every call while the current
  customer id is a multiple of 1000, not once; lookups stay right all the same
  (`Accounts.AccountsTable.GenerateNextCA_AD`).
- A load-unit size that 100 does not divide makes broker updates vanish
  (`Brokers.OtherUnitSizesMissTheTable`).
- The daily-market generator reseeds each load unit two draws per security after
  the last one's start, but every security takes 2610 draws, so nearly all prices
  and volumes of a load unit are those of the unit before, some rows further on
  (`DailyMarket.LoadUnitsOverlap`).
- An empty range of securities still yields 1305 daily-market rows
  (`DailyMarket.DailyMarketTable.GenerateNextRecord`).

## Model

| member | source | states |
|---|---|---|
| Decimal.ParseInvertsPrint | src/encode/encode.cc:29-47 | reading a printed integer back gives that integer if and only if it fits the reader's range, whatever the range |
| Decimal.PrintIsInjective | src/encode/encode.cc:29-31 | no two integers print alike |
| Decimal.TextIsCanonical | src/encode/encode.cc:29-31 | a printed integer has no leading zero, and zero no sign |
| Decimal.CanonicalTextIsUnique | src/encode/encode.cc:29-31 | of all texts that are read as an integer only one is canonical: the printed one |
| Schema.DecodeInvertsEncode | src/encode/encode.cc:29-47 | decoding an encoded datum gives the datum back if and only if it is decoded under its own type |
| Schema.GetPkIndex | src/schema/schema.cc:97-104 | the loop finds the first primary-key column, or -1 |
| ByteOrder.PrefixInterval | src/rocks/rocks.cc:151-152 | keys that share a prefix form one contiguous interval of the byte order |
| ByteOrder.PrefixBlock | src/rocks/rocks.cc:151-152 | so in a sorted sequence of keys they stand next to each other |
| ByteOrder.LessIsFirstDifference | src/rocks/rocks.cc:149-155 | keys are ordered by the first byte in which they differ, a proper prefix first |
| Rocks.ScanIsUnique | src/rocks/rocks.cc:149-155 | sorted, complete and confined to the prefix determine a scan |
| Rocks.KeyIsWritten | src/rocks/rocks.cc:217-218 | the key of a cell byte by byte: slash, table, slash, key, `/column_` and the canonical decimal text of the column |
| Rocks.RocksDB.Seek | src/rocks/rocks.cc:151 | the iterator lands on the least key not before the target |
| Rocks.RocksDB.GetAll | src/rocks/rocks.cc:135-156 | seek-then-walk-while-prefix returns exactly the pairs whose key has the prefix, in key order |
| Rocks.RocksDB.WriteRow | src/rocks/rocks.cc:205-221 | one key per column; the new store as a function of the old store and the encoded cells |
| Rocks.RocksDB.WriteRowWire | src/rocks/rocks.cc:223-239 | on encoded values it leaves the same store as WriteRow |
| Rocks.RocksDB.Delete | src/rocks/rocks.cc:184-189 | deletes in the named column family only; an unknown family is an error |
| Query.ParseInvertsKey | src/query/query.cc:70-101 | taking a row key apart gives table, key and column back if and only if table and key hold no slash and the column fits 32 bits |
| Query.CollectStopsAtFirstError | src/query/query.cc:170-202 | the first malformed key, foreign column id or unreadable number ends the query with its error |
| Query.RunQuery | src/query/query.cc:133-219 | the scan loop over mutable builders computes the specified answer, error cases included |
| Query.SlashedKeyIsMisread | src/query/query.cc:70-101 | a key whose table or primary key holds a slash is read from the first three parts of `<table>/<pk>`, whatever column was written |
| Query.StrayKeyFailsTheQuery | src/query/query.cc:170-202 | if no builder can take such a key, the query of the whole table fails |
| Query.SlashedRowIsOneColumn | src/query/query.cc:170-202 | otherwise all cells of that row land in one and the same column |
| RowStore.KeyIsInjective | src/rocks/rocks.cc:217-218 | different cells have different keys |
| RowStore.IntegerKeysAreLegal | src/encode/encode.cc:29-31 | the text of an integer key never holds a slash, so only string keys can break the format |
| RowStore.WriteKeepsRepresentation | src/rocks/rocks.cc:205-221 | a row write updates one row of one logical table and changes no other row or table |
| RowStore.HistoryIsRepresented | src/rocks/rocks.cc:205-221 | after every history of row writes the store holds one pair per cell of the logical tables and nothing else |
| RowStore.RowOrderVersusKeyOrder | src/rocks/rocks.cc:217-218 | rows come out ordered by key + "/"; exactly when that differs from the order of the keys |
| RowStore.ScanIsTheTable | src/query/query.cc:157-158 | scans of different tables never mix and miss no cell |
| RowStore.RowIsOneBlock | src/query/query.cc:157-202 | the keys of one row form one unbroken block of the scan |
| RowStore.PickedIsSorted | src/query/query.cc:170-202 | each builder receives every row's cell once, in row order, though nothing groups by key |
| RowStore.QueryAnswersTable | src/query/query.cc:155-219 | over a store that represents logical tables, the query answers the logical table, aligned across columns |
| RowStore.QueryAfterHistory | src/query/query.cc:155-219 | after any history of row writes: one row per primary key, last write wins, in row order |
| RowStore.DatabaseIsLastWrites | src/rocks/rocks.cc:205-221 | the logical table after a history holds exactly the last row written under each key, found in the history itself |
| RowStore.QueryShowsLastWrites | src/query/query.cc:155-219 | cell (column, row) of the answer after a history is that column of the last row written under the row's key; no other rows |
| Catalogs.Catalog.CreateTable | src/catalog/catalog.cc:105-126 | refuses a known name, else caches the table and writes its row; whole new state |
| Catalogs.Catalog.DropTable | src/catalog/catalog.cc:128-136 | forgets the table; its row in the default family stays |
| Catalogs.Catalog.SetPartition | src/catalog/catalog.cc:138-168 | an empty list partition replaces the old one; both error cases |
| Catalogs.Catalog.AddListPartition | src/catalog/catalog.cc:193-206 | changes the first list-partitioned table in the hash table's present order, not the one named, and fails only if there is none; whole new state |
| Catalogs.Catalog.AddPartitionConstraint | src/catalog/catalog.cc:208-224 | inserts into the first table in that order that has the partition; an existing constraint of that key stays |
| Catalogs.NamedTableIsChanged | src/catalog/catalog.cc:193-224 | the named table is the one changed, whatever the order, if and only if it is list-partitioned and no other is; for a constraint, if and only if it alone has the partition |
| Catalogs.Catalog.WritePartition | src/catalog/catalog.cc:169-191 | rewrites one row per partition, in name order |
| Catalogs.OtherTablesStay | src/catalog/catalog.cc:105-224 | every event leaves all other tables as they were; none comes, none goes |
| Catalogs.OtherPartitionsStay | src/catalog/catalog.cc:193-224 | adding a partition or a constraint leaves every other partition of the table, its columns and its partition column |
| Catalogs.NamedTableAfter | src/catalog/catalog.cc:105-168 | what creation, drop and partitioning leave of their table |
| Catalogs.AddedPartition | src/catalog/catalog.cc:193-206 | an added partition has the given values and no constraint |
| Catalogs.ConstrainedPartition | src/catalog/catalog.cc:208-224 | a constraint is added if and only if its key is new; values and other constraints stay |
| Catalogs.CellsMatchColumns | src/catalog/catalog.cc:105-191 | each cell of a system row stands under the column of its name |
| CatalogRuns.OtherTableLeavesSystem | src/rocks/rocks.cc:205-239 | row writes to other tables leave the system tables alone, whatever their keys contain |
| CatalogRuns.CatalogLeavesUserRows | src/catalog/catalog.cc:105-224 | no catalog operation touches a pair of the store outside the system tables |
| CatalogRuns.StepKeepsMirror | src/catalog/catalog.cc:105-224 | every catalog operation keeps the store a mirror of the logical system tables |
| CatalogRuns.CacheIsOnDisk | src/catalog/catalog.cc:105-224 | in every run, over any disk left behind, both system tables answer their logical content and every cached user table is listed with its current columns |
| CatalogRuns.RowsAreCreatedNames | src/catalog/catalog.cc:105-136 | from an empty disk system.tables lists exactly the names ever created |
| CatalogRuns.ListIsCurrent | src/catalog/catalog.cc:105-136 | system.tables lists exactly the cached user tables if and only if every name ever created is a cached user table still |
| CatalogRuns.WithoutDropsNothingIsStale | src/catalog/catalog.cc:105-136 | which holds in every run without drops |
| CatalogRuns.PartitionsAreCurrent | src/catalog/catalog.cc:138-224 | every partition's current values and constraints are in system.partitions throughout a run if and only if no two cached tables ever share a partition name |
| CatalogRuns.OneAtATimeIsCurrent | src/catalog/catalog.cc:138-224 | every run that drops a partitioned table before it partitions another keeps system.partitions current throughout |
| CatalogRuns.SharedNameRun | src/catalog/catalog.cc:193-206 | a run in which a new table is met first, takes a partition of the same name and the old row is lost |
| Peers.PickedAreEligible | src/peers/server_registry.cc:105-136 | exactly the servers that meet every recognised constraint are picked |
| Peers.OnePicked | src/peers/server_registry.cc:105-136 | a single pick means a single eligible registration; registering twice counts twice |
| Peers.EligibleMeans | src/peers/server_registry.cc:119-130 | each of the three recognised keys constrains its own attribute of a server |
| Peers.MoreConstraintsFilter | src/peers/server_registry.cc:119-130 | a further constraint filters what was picked before; an unknown key changes nothing |
| Peers.Registry.GetServers | src/peers/server_registry.cc:105-136 | the flag-and-break loop computes that selection, in registration order |
| Insert.FirstListingExists | src/schema/partition.cc:78-87 | a first partition by name exists if and only if some partition lists the value |
| Insert.Lookup | src/schema/partition.cc:78-87 | finds the first partition, in name order, that lists the value |
| Insert.CallIsUnique | src/insert/insert.cc:94-147 | server and request of a row are determined |
| Insert.FailureIsUnique | src/insert/insert.cc:100-135 | a row that routes does not fail, and a row fails in one way |
| Insert.SentValues | src/semantics/extract.cc:43-57 | of every routed row: a string is sent as it is, an integer as the canonical text that is decoded to it, and nothing else is sent |
| Insert.NotExtractedMeans | src/insert/insert.cc:129-135 | extraction fails if and only if the row has its server and an item that is neither string nor integer |
| Insert.ListForMeans | src/insert/insert.cc:63-88 | when the statement ends before its rows: unknown table, table without partition, partition column not named |
| Insert.RouteRow | src/insert/insert.cc:94-139 | routes a row to the only eligible server of its partition, or reports the first check that fails |
| Insert.Execute | src/insert/insert.cc:63-164 | rows are sent once each, in order, to their servers; nothing is attempted after a failure; every error case |
| Insert.OutcomeTellsWhatWasKept | src/insert/insert.cc:90-156 | success if and only if every row was acknowledged; a failure leaves exactly the rows before it acknowledged |
| Insert.DeliveryIsUnique | src/insert/insert.cc:90-156 | given which calls are acknowledged there is one way to deliver, so the specification is complete |
| Insert.AddedConstraintNarrows | src/catalog/catalog.cc:208-224 | a constraint added through the catalog never makes a new server eligible |
| WireBytes.ReadInt16Inverts | src/pg_wire/pg_wire.cc:66-70 | a 16-bit field is read back if and only if the value fits |
| WireBytes.ReadInt32Inverts | src/pg_wire/pg_wire.cc:72-76 | a 32-bit field is read back if and only if the value fits |
| WireBytes.ReadCStringInverts | src/pg_wire/pg_wire.cc:85-89 | a terminated string is read back if and only if it holds no NUL |
| PgFrontend.ReadBodyInverts | src/pg_wire/pg_wire.cc:100-383 | each message body is read back if and only if its terminated strings hold no NUL |
| PgFrontend.ReadStreamInverts | src/pg_wire/pg_wire.cc:394-401 | walking a stream by type byte and length recovers exactly the messages, if and only if their terminated strings hold no NUL |
| PgWire.Buffer.PatchLength | src/pg_wire/pg_wire.cc:78-83 | the patched word is the number of bytes from it to the end; nothing else changes |
| PgWire.EncodeRowDescription | src/pg_wire/pg_wire.cc:128-170 | appends one T message with a true length for any number of fields, those that the wrapping 16-bit counter lets through; raises for an unknown type name among them |
| PgWire.DescriptionIsUnderstood | src/pg_wire/pg_wire.cc:128-170 | the frontend recovers the described columns if and only if there are fewer than 32768 |
| PgWire.EncodeRows | src/pg_wire/pg_wire.cc:182-209 | appends one D message per row; the cells are row r of every column, in column order |
| PgWire.EncodeError | src/pg_wire/pg_wire.cc:259-307 | the length computed beforehand is the true one; some severities raise |
| PgWire.Encode | src/pg_wire/pg_wire.cc:97-382 | every message object only appends, and appends exactly its protocol messages |
| PgWire.SendAll | src/pg_wire/pg_wire.cc:394-401 | a package is the concatenation of its messages |
| PgWire.SendBatch | src/pg_wire/pg_wire.cc:422-429 | T, one D per row, C and Z, such that the frontend, if sizes fit their fields and no column name holds a NUL, reads row r of column c as cell c of packet 1 + r under field c |
| PgWire.PackageIsUnderstood | src/pg_wire/pg_wire.cc:394-401 | the frontend recovers the messages of any package if and only if no terminated string holds a NUL |
| PgWire.BatchIsUnderstood | src/pg_wire/pg_wire.cc:422-429 | the frontend reads the result set that `BatchPacketsShow` describes if and only if no column name holds a NUL |
| PgWire.BatchPacketsShow | src/pg_wire/pg_wire.cc:422-429 | packet 1 + r is a row whose cell c is row r of column c; the first describes the fields in order, the last two are completion and ready |
| PgWire.MessageIsUnderstood | src/pg_wire/pg_wire.cc:97-382 | what the frontend reads of any message object says what the object says, item by item |
| PgWire.FixedMessagesOnTheWire | src/pg_wire/pg_wire.cc:97-126 | authentication, empty query and ready as bytes |
| PgWire.RowOnTheWire | src/pg_wire/pg_wire.cc:182-209 | a data row as bytes |
| PgWire.ErrorOnTheWire | src/pg_wire/pg_wire.cc:259-307 | an error report as bytes |
| PgWire.DescriptionOnTheWire | src/pg_wire/pg_wire.cc:128-170 | a row description as bytes |
| PgWire.OidsInvert | src/type/type.cc:65-86 | type to oid and back, both ways |
| PgWire.TypeNamesInvert | src/type/type.cc:42-63 | type to name and back, both ways |
| PgWire.ResultIsDescribable | src/type/type.cc:54-97 | a query result can be described to the client if and only if it has no integer column: Arrow's name for the type is not the one looked up |
| Startup.ReadStartup | src/server/server.cc:471-498 | terminates on any bytes, depends on the received part only, and of a well-formed packet (length, version, pairs, closing NUL) keeps the last value of each key |
| Startup.StartupInverts | src/server/server.cc:471-498 | undoes the printing of any NUL-free pairs, with or without the closing NUL |
| Startup.PacketIsRead | src/server/server.cc:471-498 | of every well-formed packet exactly the pairs are read, the eight header bytes left out |
| Startup.LastWinsValue | src/server/server.cc:495-497 | what is kept for a key is the value of its last pair |
| WheelTimes.WheelTime.Add | test/tpc-e/TPC-E_Tools_v1.14.0/src/WheelTime.cpp:71-82 | moves the tick by the interval, any number of turns included |
| WheelTimes.WheelTime.SetClock | test/tpc-e/TPC-E_Tools_v1.14.0/src/WheelTime.cpp:100-109 | sets the tick of a clock reading |
| WheelTimes.WheelTime.Offset | test/tpc-e/TPC-E_Tools_v1.14.0/src/WheelTime.cpp:84-91 | is the difference of the ticks |
| WheelTimes.WheelTime.Less | test/tpc-e/TPC-E_Tools_v1.14.0/src/WheelTime.cpp:123-126 | comparing turns, then indexes, compares ticks |
| TimerQueue.FiresAsRequested | test/tpc-e/TPC-E_Tools_v1.14.0/inc/TimerWheel.h:127-149 | a timer fires at the tick asked for if and only if its interval is between one tick and one turn |
| TimerQueue.NextPollIsEarliest | test/tpc-e/TPC-E_Tools_v1.14.0/inc/TimerWheel.h:193-210 | the search finds the earliest deadline if and only if no timer is due a whole turn ahead |
| TimerQueue.StartTargetIsEarliest | test/tpc-e/TPC-E_Tools_v1.14.0/inc/TimerWheel.h:127-149 | starting a timer leaves the earliest deadline as next time if and only if no timer is due a whole turn ahead and the interval is between one tick and one turn, or longer with a timer pending that is due no later |
| TimerQueue.NextTimeIsExact | test/tpc-e/TPC-E_Tools_v1.14.0/inc/TimerWheel.h:127-210 | the same for every call of every run, in terms of the calls: which starts make the next time wrong |
| TimerQueue.NextTimeIsEarliest | test/tpc-e/TPC-E_Tools_v1.14.0/inc/TimerWheel.h:127-210 | in every run whose intervals are of at least one tick and less than one turn, every call leaves the earliest deadline |
| TimerQueue.PendingAfterRun | test/tpc-e/TPC-E_Tools_v1.14.0/inc/TimerWheel.h:127-191 | after every run the pending timers are the started ones not yet due, in start order |
| TimerQueue.CallFires | test/tpc-e/TPC-E_Tools_v1.14.0/inc/TimerWheel.h:162-174 | a call fires exactly the timers whose tick it is the first to reach, by deadline, first started first within a tick |
| TimerQueue.FiredAfterRun | test/tpc-e/TPC-E_Tools_v1.14.0/inc/TimerWheel.h:127-191 | after every run the callbacks made are exactly the started timers whose tick was reached, each once, by deadline |
| TimerQueue.OnTimeExactlyOnce | test/tpc-e/TPC-E_Tools_v1.14.0/inc/TimerWheel.h:127-191 | a timer of one tick to one turn is called back in the first call at or after its deadline and in no other |
| TimerWheels.TimerWheel.CalledBackInTime | test/tpc-e/TPC-E_Tools_v1.14.0/inc/TimerWheel.h:127-174 | in clock time, for offsets of one tick to one turn: called back once a call reads offset seconds after the start or later, never in a call two ticks or more before that |
| TimerWheels.TimerWheel.CallbackIsMade | test/tpc-e/TPC-E_Tools_v1.14.0/inc/TimerWheel.h:127-191 | so a wheel that took those steps has called back with the timer's data |
| TimerWheels.TimerWheel.IntervalOfOffset | test/tpc-e/TPC-E_Tools_v1.14.0/inc/TimerWheel.h:130 | seconds to ticks: the largest number of ticks that is not longer than the offset |
| TimerWheels.TurnOneTick | test/tpc-e/TPC-E_Tools_v1.14.0/inc/TimerWheel.h:165-172 | the slot of a tick holds exactly the timers due at it |
| TimerWheels.ExpireOneMoreTick | test/tpc-e/TPC-E_Tools_v1.14.0/inc/TimerWheel.h:165-172 | expiring tick by tick is expiring in one go |
| TimerWheels.TimerWheel.StartTimer | test/tpc-e/TPC-E_Tools_v1.14.0/inc/TimerWheel.h:127-149 | the wheel takes the step of the deadline queue; count, slots, callbacks and next time follow it |
| TimerWheels.TimerWheel.ProcessExpiredTimers | test/tpc-e/TPC-E_Tools_v1.14.0/inc/TimerWheel.h:151-160 | as a poll of the deadline queue |
| TimerWheels.TimerWheel.ExpiryProcessing | test/tpc-e/TPC-E_Tools_v1.14.0/inc/TimerWheel.h:162-174 | the tick loop performs the queue's expiry |
| TimerWheels.TimerWheel.ProcessTimerList | test/tpc-e/TPC-E_Tools_v1.14.0/inc/TimerWheel.h:176-191 | calls a slot's timers first in first out and empties it |
| TimerWheels.TimerWheel.SetNextTime | test/tpc-e/TPC-E_Tools_v1.14.0/inc/TimerWheel.h:193-210 | the slot search ends within a turn, at the tick specified |
| TimerWheels.TimerWheel.CountIsTotal | test/tpc-e/TPC-E_Tools_v1.14.0/inc/TimerWheel.h:140-141 | in every reachable state the timer count is the total length of all slots, and `Empty` says that no timer is pending |
| Random.CRandom.RndNthElement | test/tpc-e/TPC-E_Tools_v1.14.0/Utilities/src/Random.cpp:56-95 | square-and-multiply skipping gives the seed that so many single steps would |
| Random.Mul6432Exact | test/tpc-e/TPC-E_Tools_v1.14.0/Utilities/inc/BigMath.h:53-69 | the 96-bit product keeps its upper bits exactly |
| Random.Mul6464Exact | test/tpc-e/TPC-E_Tools_v1.14.0/Utilities/inc/BigMath.h:73-97 | the 128-bit product is exact if and only if its guess of the middle carry is right, and too small by 2^32 otherwise |
| Random.RangesThatAreExact | test/tpc-e/TPC-E_Tools_v1.14.0/Utilities/inc/BigMath.h:73-97 | for ranges below 2^63, all seeds are scaled exactly if and only if the two 32-bit halves of the range add up to at most 2^32 |
| Random.TopIsNeverDrawn | test/tpc-e/TPC-E_Tools_v1.14.0/Utilities/src/Random.cpp:142-155 | no seed gives the top of any other range |
| Random.SomeRangeIsNotExact | test/tpc-e/TPC-E_Tools_v1.14.0/Utilities/inc/BigMath.h:73-97 | the least range that is not exact, and a seed that shows it |
| Random.DrawIsInRange | test/tpc-e/TPC-E_Tools_v1.14.0/Utilities/src/Random.cpp:142-155 | draws stay in range, even where the carry is missed |
| Random.CRandom.RndInt64Range | test/tpc-e/TPC-E_Tools_v1.14.0/Utilities/src/Random.cpp:142-155 | value and seed left behind, as one draw |
| Random.DrawIsScaled | test/tpc-e/TPC-E_Tools_v1.14.0/Utilities/src/Random.cpp:142-155 | a draw is the next seed, as a fraction of 2^64, scaled to the range and rounded down |
| Random.DrawIntIsScaled | test/tpc-e/TPC-E_Tools_v1.14.0/Utilities/src/Random.cpp:127-140 | the same for 32-bit ranges |
| Random.NthIsTheDraw | test/tpc-e/TPC-E_Tools_v1.14.0/Utilities/src/Random.cpp:173-186 | the value at position n of a stream is what the n-th draw from its start gives |
| FullPeriod.PeriodIs2To64 | test/tpc-e/TPC-E_Tools_v1.14.0/Utilities/src/Random.cpp:47-54 | the generator returns to a seed after n steps if and only if 2^64 divides n |
| FullPeriod.EverySeedIsVisited | test/tpc-e/TPC-E_Tools_v1.14.0/Utilities/src/Random.cpp:47-54 | it visits every seed |
| FullPeriod.EveryValueIsDrawn | test/tpc-e/TPC-E_Tools_v1.14.0/Utilities/src/Random.cpp:142-155 | within 2^64 draws every value of an exact range is drawn, and the lower half of any other |
| FullPeriod.SafeRangesAreCovered | test/tpc-e/TPC-E_Tools_v1.14.0/Utilities/src/Random.cpp:142-155 | all values of a range are drawn if and only if it is exact |
| Holdings.AllAppear | test/tpc-e/TPC-E_Tools_v1.14.0/inc/HoldingsAndTradesTable.h:268-289 | within 2^64 draws every security within reach has appeared: all of them, or more than 2^32, so the duplicate-skipping loop ends |
| Holdings.EnoughDraws | test/tpc-e/TPC-E_Tools_v1.14.0/inc/HoldingsAndTradesTable.h:264-286 | the k-th distinct value does not depend on how far the stream is followed |
| Holdings.KthIsFirstNew | test/tpc-e/TPC-E_Tools_v1.14.0/inc/HoldingsAndTradesTable.h:268-289 | the k-th distinct value is drawn first right after exactly k - 1 other values |
| Holdings.DrawnIsScaled | test/tpc-e/TPC-E_Tools_v1.14.0/inc/HoldingsAndTradesTable.h:268-289 | draw n is the stream's seed n + 1 scaled as a fraction of 2^64 |
| Holdings.AccountsAre18DrawsApart | test/tpc-e/TPC-E_Tools_v1.14.0/inc/HoldingsAndTradesTable.h:226-229 | the streams of accounts follow each other 18 draws apart |
| Holdings.SecuritiesAreDistinct | test/tpc-e/TPC-E_Tools_v1.14.0/inc/HoldingsAndTradesTable.h:241-299 | two positions of an account give the same security if and only if they are the same position; all in range |
| Holdings.CellsDoNotAlias | test/tpc-e/TPC-E_Tools_v1.14.0/inc/HoldingsAndTradesTable.h:250 | cache cells of different accounts or positions never coincide |
| Holdings.FillingKeepsTruth | test/tpc-e/TPC-E_Tools_v1.14.0/inc/HoldingsAndTradesTable.h:292-296 | filling a cell keeps every filled cell true |
| Holdings.HoldingsTable.GetSecurityFlatFileIndex | test/tpc-e/TPC-E_Tools_v1.14.0/inc/HoldingsAndTradesTable.h:241-299 | the k-th distinct value of the account's stream, whatever is cached; the seed is left as it was |
| Holdings.HoldingsTable.InitNextLoadUnit | test/tpc-e/TPC-E_Tools_v1.14.0/inc/HoldingsAndTradesTable.h:161-182 | moves the window and keeps the cache true |
| Portfolios.RangesFitTiers | test/tpc-e/TPC-E_Tools_v1.14.0/inc/HoldingsAndTradesTable.h:59-67 | the two range tables are nonzero for exactly the account counts that a tier allows, lie symmetrically about 10 and never exceed the cache's 18 positions |
| Portfolios.NumberIsDrawn | test/tpc-e/TPC-E_Tools_v1.14.0/inc/HoldingsAndTradesTable.h:187-219 | the number is the account's own seed, as a fraction of 2^64, scaled to the range of its owner's tier and account count |
| Portfolios.Portfolio.GetNumberOfSecurities | test/tpc-e/TPC-E_Tools_v1.14.0/inc/HoldingsAndTradesTable.h:187-219 | one draw from the account's own seed, whatever is cached; the seed is left as it was |
| Portfolios.Portfolio.GenerateRandomAccountSecurity | test/tpc-e/TPC-E_Tools_v1.14.0/inc/HoldingsAndTradesTable.h:307-341 | picks one of the customer's accounts and one of that account's own securities; picks and seed do not depend on the caches |
| Portfolios.Portfolio.InitNextLoadUnit | test/tpc-e/TPC-E_Tools_v1.14.0/inc/HoldingsAndTradesTable.h:161-182 | moves all windows and keeps all caches true |
| CustomerSelection.PermutationsInvert | test/tpc-e/TPC-E_Tools_v1.14.0/src/CustomerSelection.cpp:117-130 | the two permutations undo each other in every load unit |
| CustomerSelection.PermutedSteps | test/tpc-e/TPC-E_Tools_v1.14.0/src/CustomerSelection.cpp:117-120 | from customer to customer the permuted digits step by 677, from load unit to load unit by 33, starting with 33 |
| CustomerSelection.InverseKeepsTier | test/tpc-e/TPC-E_Tools_v1.14.0/src/CustomerSelection.cpp:135-179 | the scrambled ordinal lies in the range of the customer's tier |
| CustomerSelection.TierOneSteps | test/tpc-e/TPC-E_Tools_v1.14.0/src/CustomerSelection.cpp:140-143 | in the first tier the scrambled ordinals step by 3, and by 1 between load units, modulo 200 |
| CustomerSelection.TierTwoSteps | test/tpc-e/TPC-E_Tools_v1.14.0/src/CustomerSelection.cpp:147-150 | in the second by 59 and 47, modulo 600 |
| CustomerSelection.TierThreeSteps | test/tpc-e/TPC-E_Tools_v1.14.0/src/CustomerSelection.cpp:151-154 | in the third by 23 and 17, modulo 200 |
| CustomerSelection.StartingOrdinals | test/tpc-e/TPC-E_Tools_v1.14.0/src/CustomerSelection.cpp:135-155 | the ordinals of the first customer of each tier: 1, 647 and 817 |
| CustomerSelection.InverseIsInjective | test/tpc-e/TPC-E_Tools_v1.14.0/src/CustomerSelection.cpp:135-155 | within a load unit no two customers share a scrambled ordinal |
| AccountCounts.CountsFollowOrdinals | test/tpc-e/TPC-E_Tools_v1.14.0/inc/CustomerAccountsAndPermissionsTable.h:366-390 | for any tier asked with: the count stays in that tier's range and goes round it as the ordinal goes up, the tiers starting with 1, 3 and 7 accounts |
| AccountCounts.AnyPermutationHas5000Accounts | test/tpc-e/TPC-E_Tools_v1.14.0/inc/CustomerAccountsAndPermissionsTable.h:366-390 | however the customers of a load unit are permuted, they have 5000 accounts in total |
| AccountCounts.OrdinalsArePermuted | test/tpc-e/TPC-E_Tools_v1.14.0/src/CustomerSelection.cpp:135-155 | the scrambling permutes each load unit |
| AccountCounts.UnitHas5000Accounts | test/tpc-e/TPC-E_Tools_v1.14.0/inc/CustomerAccountsAndPermissionsTable.h:366-390 | so every load unit has exactly 5000 accounts |
| AccountCounts.UnitsHave5000AccountsEach | test/tpc-e/TPC-E_Tools_v1.14.0/inc/CustomerAccountsAndPermissionsTable.h:366-390 | n load units have 5000 * n |
| Accounts.AccountsTable.InitNextLoadUnit | test/tpc-e/TPC-E_Tools_v1.14.0/inc/CustomerAccountsAndPermissionsTable.h:317-338 | slides both windows and keeps both caches true |
| Accounts.AccountsTable.GetNumberOfAccounts | test/tpc-e/TPC-E_Tools_v1.14.0/inc/CustomerAccountsAndPermissionsTable.h:350-398 | for any tier: what is answered, what is cached and exactly when the cache stays true; for the customer's own tier the same count with and without cache |
| Accounts.AccountsTable.GetAccountTaxStatus | test/tpc-e/TPC-E_Tools_v1.14.0/inc/CustomerAccountsAndPermissionsTable.h:651-698 | the same status with and without cache; the seed is left as it was |
| Accounts.TaxStatusShares | test/tpc-e/TPC-E_Tools_v1.14.0/inc/CustomerAccountsAndPermissionsTable.h:651-698 | the account's own seed, as a fraction of 2^64, decides: below 20% not taxable, below 70% withholding, above that not withholding |
| Accounts.CustomersAre100DrawsApart | test/tpc-e/TPC-E_Tools_v1.14.0/inc/CustomerAccountsAndPermissionsTable.h:317-338 | customers follow each other in the seed stream 100 draws apart |
| Accounts.AccountsTable.GenerateNextCA_AD | test/tpc-e/TPC-E_Tools_v1.14.0/inc/CustomerAccountsAndPermissionsTable.h:515-544 | one step of the account cursor with seed and both cache windows, which slide on every call while the customer id is a multiple of 1000 |
| Accounts.AccountsTable.GenerateBrokerIdForAccount | test/tpc-e/TPC-E_Tools_v1.14.0/inc/CustomerAccountsAndPermissionsTable.h:728-743 | the broker as a function of the account alone |
| AccountRuns.GenerateAll | test/tpc-e/TPC-E_Tools_v1.14.0/src/EGenGenerateAndLoad.cpp:354-379 | the loader's loop emits all customers' blocks of accounts, in order, and stops at the last |
| AccountRuns.RunIsComplete | test/tpc-e/TPC-E_Tools_v1.14.0/inc/CustomerAccountsAndPermissionsTable.h:482-544 | for all customer ids, an id is emitted if and only if (id-1)/10+1 is a customer of the run and the id is one of its accounts |
| AccountRuns.RunIncreases | test/tpc-e/TPC-E_Tools_v1.14.0/inc/CustomerAccountsAndPermissionsTable.h:515-544 | ids come out strictly increasing |
| AccountRuns.RunOverUnits | test/tpc-e/TPC-E_Tools_v1.14.0/inc/CustomerAccountsAndPermissionsTable.h:515-544 | a run over n whole load units emits exactly 5000 * n ids |
| Brokers.TotalsAreSums | test/tpc-e/TPC-E_Tools_v1.14.0/inc/Brokers.h:214-222 | every broker's totals are the sums of that broker's increments since the table was zeroed |
| Brokers.NothingIsDropped | test/tpc-e/TPC-E_Tools_v1.14.0/inc/Brokers.h:214-222 | if all brokers are in the table, the totals add up to all trades and all commissions |
| Brokers.EveryTradeIsCounted | test/tpc-e/TPC-E_Tools_v1.14.0/inc/Brokers.h:130-222 | for an aligned range and a unit size that 100 divides, the totals add up to the trades and commissions of the given trades, however they fall on brokers |
| Brokers.BrokerIsInTable | test/tpc-e/TPC-E_Tools_v1.14.0/inc/CustomerAccountsAndPermissionsTable.h:728-743 | for aligned customer ranges and unit sizes that 100 divides, every account's broker is in the table of the range |
| Brokers.BrokerIsDrawn | test/tpc-e/TPC-E_Tools_v1.14.0/inc/CustomerAccountsAndPermissionsTable.h:728-743 | which broker of the unit: the account's own seed, as a fraction of 2^64, scaled to the unit's brokers |
| Brokers.UnitSizesThatWork | test/tpc-e/TPC-E_Tools_v1.14.0/inc/CustomerAccountsAndPermissionsTable.h:728-743 | every account's broker is in its load unit's table if and only if 100 divides the unit size |
| Brokers.OtherUnitSizesMissTheTable | test/tpc-e/TPC-E_Tools_v1.14.0/inc/CustomerAccountsAndPermissionsTable.h:728-743 | for every other unit size there is a load unit all of whose accounts miss their table |
| Brokers.BrokersTable.InitForGen | test/tpc-e/TPC-E_Tools_v1.14.0/inc/Brokers.h:130-200 | all totals of the new range are zero, arrays reallocated or kept |
| Brokers.BrokersTable.UpdateTradeAndCommissionYTD | test/tpc-e/TPC-E_Tools_v1.14.0/inc/Brokers.h:214-222 | adds to one broker of the table; others are ignored |
| Brokers.BrokersTable.GenerateNextRecord | test/tpc-e/TPC-E_Tools_v1.14.0/inc/Brokers.h:287-304 | the next broker's row; announces more exactly when there are more |
| Brokers.GenerateAll | test/tpc-e/TPC-E_Tools_v1.14.0/src/EGenGenerateAndLoad.cpp:678-689 | the loader's loop emits one row per broker, in order, with its totals |
| Brokers.RowsReportAllTrades | test/tpc-e/TPC-E_Tools_v1.14.0/src/EGenGenerateAndLoad.cpp:678-689 | row i holds the sums over the trades of the accounts whose broker it is, and together the totals are those of all trades |
| WatchLists.WatchListIdsInvert | test/tpc-e/TPC-E_Tools_v1.14.0/inc/WatchListsAndItemsTable.h:96-104 | watch list ids and customer ids determine each other, within the same load unit |
| WatchLists.UnitIsPermuted | test/tpc-e/TPC-E_Tools_v1.14.0/inc/WatchListsAndItemsTable.h:96-104 | each block of 1000 customers is permuted onto itself |
| WatchLists.IdsStepBy631 | test/tpc-e/TPC-E_Tools_v1.14.0/inc/WatchListsAndItemsTable.h:96-104 | from customer to customer the last three digits step by 631, starting with 98 |
| WatchLists.CustomersAre15DrawsApart | test/tpc-e/TPC-E_Tools_v1.14.0/inc/WatchListsAndItemsTable.h:109-116 | load units are seeded by their first customer, customers being placed 15 draws apart |
| WatchLists.WatchListsTable.DrawItems | test/tpc-e/TPC-E_Tools_v1.14.0/inc/WatchListsAndItemsTable.h:173-180 | the set loop ends with the first so many distinct values of the stream |
| WatchLists.WatchListsTable.GenerateNextRecord | test/tpc-e/TPC-E_Tools_v1.14.0/inc/WatchListsAndItemsTable.h:151-219 | one watch list: its id, the first 50 to 150 distinct draws in increasing order, the seed left behind, and the move to the next customer |
| WatchLists.GenerateAll | test/tpc-e/TPC-E_Tools_v1.14.0/src/EGenGenerateAndLoad.cpp:1077-1095 | one watch list per customer in customer order, no two under one id, each with 50 to 150 items in increasing order |
| DailyMarket.DaysAreWorkdays | test/tpc-e/TPC-E_Tools_v1.14.0/inc/DailyMarketTable.h:118-120 | days increase from row to row and are never on a weekend |
| DailyMarket.EveryWorkdayIsTraded | test/tpc-e/TPC-E_Tools_v1.14.0/inc/DailyMarketTable.h:118-120 | a day is some row's if and only if it is a workday |
| DailyMarket.DailyMarketTable.GenerateDailyMarketRows | test/tpc-e/TPC-E_Tools_v1.14.0/inc/DailyMarketTable.h:91-122 | the running day number is 7*(r/5)+r%5; two draws per row |
| DailyMarket.DailyMarketTable.GenerateNextRecord | test/tpc-e/TPC-E_Tools_v1.14.0/inc/DailyMarketTable.h:170-203 | one more row emitted; false exactly on the last of max(1, securities) * 1305 |
| DailyMarket.GenerateAll | test/tpc-e/TPC-E_Tools_v1.14.0/src/EGenGenerateAndLoad.cpp:455-471 | row j is row j%1305 of security start+j/1305 |
| DailyMarket.LoadUnitsOverlap | test/tpc-e/TPC-E_Tools_v1.14.0/inc/DailyMarketTable.h:133-136 | row x of a load unit repeats closing price and volume of row x + perUnit of the unit before, for all rows but the last perUnit |
| DailyMarket.UnitRowValues | test/tpc-e/TPC-E_Tools_v1.14.0/inc/DailyMarketTable.h:91-136 | row x of a load unit has the closing price and volume of two given seeds of one stream |

## Left out

- RocksDB itself (failing writes, bloom and prefix options, column families other
  than what `Delete` touches): the store is a map iterated in byte order.
- Arrow and Gandiva projection (`*` is the identity), SQL parsing, gRPC, logging,
  sockets, process start-up, the SSL reply: not modelled.
- JSON text: `Catalogs.Dumps` are parameters; that the library rejects strings that
  are not UTF-8 is not modelled.
- Threads: `Peers` is used by one caller at a time; timer callbacks do not call back
  into the wheel.
- The placement of names in the catalog's hash table is a parameter of
  `Catalogs.Catalog.CreateTable`: any order may come out of an insertion, none
  changes without one, and an erasure keeps the order of the rest.
- Table objects are values in the catalog's map; that other holders of a table see
  later partition changes is not modelled. The unread copy `parititions` is dropped.
- A restart of the server leaves the cache with the system tables only; the theorems
  about runs start from any disk that an earlier process left behind.
- RowStore.QueryAfterHistory: tables keep their columns over a history; names and
  keys hold no slash, as `Query.ParseInvertsKey` shows they must not.
- Rocks.RocksDB.WriteRow: requires a value per column and a primary key if there are
  columns, because the source indexes the values without checking.
- CatalogRuns.CacheIsOnDisk: events carry slash-free table and partition names, and
  rows of the system tables are written by the catalog only.
- Insert.Execute: requires every row to have an item per named column and a string
  in the partition column, which the source dereferences unchecked; whether a
  server kept a row whose call failed is not known to the caller and not modelled.
- PgWire.Encode: packages are specified for descriptions of fewer than 32768 fields;
  `PgWire.EncodeRowDescription` covers the others. The process id and secret key of
  `BackendKeyData` are parameters.
- TimerWheels.TimerWheel.StartTimer: the clock is a parameter that does not go back,
  offsets are not negative, and requested ticks lie before the horizon of the
  wheel, which an idle wheel shows as its next time. Ticks are unbounded; the
  source computes them in 32 bits, which overflow after 2^31 ticks.
- TimerWheels.TimerWheel.CalledBackInTime: wheels whose resolution divides a second,
  as all wheels of the driver have; for others the source rounds the ticks per second.
- Random.CRandom.RndInt64Range: ranges of fewer than 2^63 values, the source's
  signed arithmetic.
- CustomerSelection.InverseIsInjective: customer ids for which the 32-bit scrambling
  does not wrap around (`FitsUint`).
- Holdings.HoldingsTable.GetSecurityFlatFileIndex: requires at least as many
  securities as the position asked for; with fewer the source does not end.
- Portfolios.Portfolio.GetNumberOfSecurities: the tier and account count asked with
  must be the owner's; the source caches by account alone and indexes its tables
  with them unchecked.
- Portfolios.Portfolio: the two caches of the holdings table are two classes here, and
  its own generator, shared by both, belongs to `Holdings.HoldingsTable`.
- Brokers.TotalsAreSums: commissions are `real`; floating-point rounding and the
  overflow of trade counts are not modelled.
- DailyMarket.GenerateAll: closing prices are numbers of 0.01 steps; high and low,
  which are fixed multiples, and the security symbol are left out. The first
  security is the first of a load unit.
- Row columns of the generators that are copied from files or drawn without further
  structure (names, addresses, permissions, birth dates), the loaders' output
  formats, the market exchange emulator and the transaction harness would only
  add easy members.
