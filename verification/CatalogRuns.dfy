/** Runs of catalog operations, interleaved with row writes to other tables:
    what the two system tables answer, and how it relates to the cache. */
module CatalogRuns {
  import opened Wrappers
  import opened ByteOrder
  import opened Decimal
  import opened Schema
  import opened Rocks
  import opened Query
  import opened RowStore
  import opened Catalogs

  function SystemSchemas(): Schemas {
    map[SystemTables().name := SystemTables().columns, SystemPartitions().name := SystemPartitions().columns]
  }

  predicate InSystem(key: string) {
    TablePrefix(SystemTables().name) <= key || TablePrefix(SystemPartitions().name) <= key
  }

  /** The part of the store that belongs to the system tables. */
  ghost function SystemPart(kv: map<string, string>): map<string, string> {
    map key | key in kv && InSystem(key) :: kv[key]
  }

  lemma SystemSchemasAreWellFormed()
    ensures WellFormedSchemas(SystemSchemas())
  {
    SystemShapes();
  }

  // ---------------------------------------------------------------------
  // Row writes and the system part
  // ---------------------------------------------------------------------

  lemma OtherTableLeavesSystem(kv: map<string, string>, table: Table, cells: seq<string>)
    requires Writable(table, |cells|) && SlashFree(table.name) && !IsSystem(table.name)
    ensures SystemPart(PutRow(kv, table, cells)) == SystemPart(kv)
  {
    hide Key, TablePrefix, PutCells;
    if table.columns != [] {
      var pk, n := cells[PkIndex(table.columns)], |table.columns|;
      PutCellsEffect(kv, table.name, pk, cells[..n]);
      forall key | InSystem(key)
        ensures OtherKey(table.name, pk, n, key)
      {
        forall i: nat | i < n
          ensures key != Key(table.name, pk, i)
        {
          if key == Key(table.name, pk, i) {
            assert SlashFree(SystemTables().name) && SlashFree(SystemPartitions().name);
            if TablePrefix(SystemTables().name) <= key {
              PrefixNamesTable(SystemTables().name, table.name, pk, i);
            } else {
              PrefixNamesTable(SystemPartitions().name, table.name, pk, i);
            }
          }
        }
      }
    }
  }

  lemma {:induction false} SystemCells(kv: map<string, string>, name: string, pk: string, cells: seq<string>)
    requires IsSystem(name)
    ensures SystemPart(PutCells(kv, name, pk, cells)) == PutCells(SystemPart(kv), name, pk, cells)
  {
    hide Key, TablePrefix;
    if cells != [] {
      var n := |cells| - 1;
      SystemCells(kv, name, pk, cells[..n]);
      KeyHasPrefix(name, pk, n);
    }
  }

  lemma SystemRow(kv: map<string, string>, table: Table, cells: seq<string>)
    requires Writable(table, |cells|) && IsSystem(table.name)
    ensures SystemPart(PutRow(kv, table, cells)) == PutRow(SystemPart(kv), table, cells)
  {
    if table.columns != [] {
      SystemCells(kv, table.name, cells[PkIndex(table.columns)], cells[..|table.columns|]);
    }
  }

  /** The rest of the store, which belongs to the other tables. */
  ghost function UserPart(kv: map<string, string>): map<string, string> {
    map key | key in kv && !InSystem(key) :: kv[key]
  }

  lemma {:induction false} SystemCellsLeaveUsers(kv: map<string, string>, name: string, pk: string, cells: seq<string>)
    requires IsSystem(name)
    ensures UserPart(PutCells(kv, name, pk, cells)) == UserPart(kv)
  {
    hide Key, TablePrefix;
    if cells != [] {
      var n := |cells| - 1;
      SystemCellsLeaveUsers(kv, name, pk, cells[..n]);
      KeyHasPrefix(name, pk, n);
    }
  }

  lemma SystemRowLeavesUsers(kv: map<string, string>, table: Table, cells: seq<string>)
    requires Writable(table, |cells|) && IsSystem(table.name)
    ensures UserPart(PutRow(kv, table, cells)) == UserPart(kv)
  {
    if table.columns != [] {
      SystemCellsLeaveUsers(kv, table.name, cells[PkIndex(table.columns)], cells[..|table.columns|]);
    }
  }

  lemma {:induction false} PartitionRowsLeaveUsers(d: Dumps, kv: map<string, string>, table: Table, names: seq<string>)
    requires table.partition.ListPartition?
    requires forall p :: p in names ==> p in table.partition.partitions
    ensures UserPart(PutPartitions(d, kv, table, names)) == UserPart(kv)
  {
    hide UserPart, PutRow, PartitionRow, SystemPartitions;
    if names != [] {
      var before, p := names[..|names| - 1], names[|names| - 1];
      PartitionRowsLeaveUsers(d, kv, table, before);
      PartitionTableShape(d, table, p);
      SystemRowLeavesUsers(PutPartitions(d, kv, table, before), SystemPartitions(), EncodeAll(PartitionRow(d, table, p)));
    }
  }

  lemma PartitionTableShape(d: Dumps, table: Table, p: string)
    requires table.partition.ListPartition? && p in table.partition.partitions
    ensures Writable(SystemPartitions(), |PartitionRow(d, table, p)|) && IsSystem(SystemPartitions().name)
  {
    SystemShapes();
  }

  /** The catalog writes no other rows: whatever it does, those of user tables stay. */
  lemma CatalogLeavesUserRows(d: Dumps, s: State, e: Event)
    requires Enabled(s, e) && !e.RowWritten?
    ensures UserPart(Apply(d, s, e).kv) == UserPart(s.kv)
  {
    hide UserPart, PutRow, PutPartitions;
    SystemShapes();
    if e.Created? {
      SystemRowLeavesUsers(s.kv, SystemTables(), EncodeAll(TableRow(d, e.name, e.columns)));
    } else if Repartitions(e) {
      PartitionRowsLeaveUsers(d, s.kv, Changed(s, e), PartitionNames(Changed(s, e)));
    }
  }

  /** A query of a system table sees the system part only. */
  lemma AnswerFromSystemPart(kv: map<string, string>, table: Table)
    requires IsSystem(table.name)
    ensures Answer(kv, Some(table)) == Answer(SystemPart(kv), Some(table))
  {
    hide StrictlySorted, TablePrefix, Collect, PkIndex, SystemTables, SystemPartitions;
    var prefix := TablePrefix(table.name);
    var scan, part := Scan(kv, prefix), SystemPart(kv);
    forall k | k in part && prefix <= k
      ensures k in Keys(scan)
    {
      var j :| 0 <= j < |scan| && scan[j] == (k, kv[k]);
      assert Keys(scan)[j] == k;
    }
    ScanIsUnique(part, prefix, scan);
  }

  // ---------------------------------------------------------------------
  // The logical system tables
  // ---------------------------------------------------------------------

  /** What an event does to the logical system tables. */
  ghost function Record(d: Dumps, s: State, db: Database, e: Event): Database
    requires Enabled(s, e)
  {
    match e
    case Created(name, columns, _) => Upsert(db, SystemTables().name, name, TableRow(d, name, columns))
    case Dropped(_) => db
    case RowWritten(_, _) => db
    case _ =>
      UpsertPartitions(d, db, Changed(s, e), PartitionNames(Changed(s, e)))
  }

  ghost function UpsertPartitions(d: Dumps, db: Database, table: Table, names: seq<string>): Database
    requires table.partition.ListPartition?
    requires forall p :: p in names ==> p in table.partition.partitions
  {
    if names == [] then db
    else
      var p := names[|names| - 1];
      Upsert(UpsertPartitions(d, db, table, names[..|names| - 1]),
             SystemPartitions().name, p, PartitionRow(d, table, p))
  }

  ghost predicate Mirrors(kv: map<string, string>, db: Database) {
    WellFormed(SystemSchemas(), db) && Represents(SystemPart(kv), db)
  }

  lemma SystemWrite(kv: map<string, string>, db: Database, table: Table, row: seq<Datum>)
    requires table == SystemTables() || table == SystemPartitions()
    requires Mirrors(kv, db) && Legal(SystemSchemas(), Write(table.name, row))
    ensures Mirrors(PutRow(kv, table, EncodeAll(row)), Upsert(db, table.name, PkOf(table.columns, row), row))
  {
    hide WellFormed, Represents, SystemPart, PutRow;
    SystemSchemasAreWellFormed();
    SystemRow(kv, table, EncodeAll(row));
    WriteKeepsRepresentation(SystemSchemas(), SystemPart(kv), db, table, row);
  }

  lemma TableRowIsLegal(d: Dumps, name: string, columns: seq<Column>)
    requires SlashFree(name)
    ensures Legal(SystemSchemas(), Write(SystemTables().name, TableRow(d, name, columns)))
    ensures PkIndex(SystemTables().columns) == 0 && PkOf(SystemTables().columns, TableRow(d, name, columns)) == name
  {
    SystemShapes();
  }

  lemma PartitionRowIsLegal(d: Dumps, table: Table, p: string)
    requires table.partition.ListPartition? && p in table.partition.partitions && SlashFree(p)
    ensures Legal(SystemSchemas(), Write(SystemPartitions().name, PartitionRow(d, table, p)))
    ensures PkIndex(SystemPartitions().columns) == 1
    ensures PkOf(SystemPartitions().columns, PartitionRow(d, table, p)) == p
  {
    SystemShapes();
  }

  lemma {:induction false} PartitionWrites(
      d: Dumps, kv: map<string, string>, db: Database, table: Table, names: seq<string>)
    requires table.partition.ListPartition? && Mirrors(kv, db)
    requires forall p :: p in names ==> p in table.partition.partitions && SlashFree(p)
    ensures Mirrors(PutPartitions(d, kv, table, names), UpsertPartitions(d, db, table, names))
  {
    hide Mirrors, PutRow, Legal, PkOf, SlashFree, PartitionRow;
    if names != [] {
      var before, p := names[..|names| - 1], names[|names| - 1];
      PartitionWrites(d, kv, db, table, before);
      PartitionRowIsLegal(d, table, p);
      SystemWrite(PutPartitions(d, kv, table, before), UpsertPartitions(d, db, table, before),
                  SystemPartitions(), PartitionRow(d, table, p));
    }
  }

  /** What rewriting the partitions of a table does to the rows. */
  lemma {:induction false} UpsertPartitionsEffect(d: Dumps, db: Database, table: Table, names: seq<string>)
    requires table.partition.ListPartition?
    requires forall p :: p in names ==> p in table.partition.partitions
    ensures var after := UpsertPartitions(d, db, table, names);
            var rows, rows' := RowsOf(db, SystemPartitions().name), RowsOf(after, SystemPartitions().name);
            && RowsOf(after, SystemTables().name) == RowsOf(db, SystemTables().name)
            && (forall p :: p in names ==> p in rows' && rows'[p] == PartitionRow(d, table, p))
            && (forall p :: p in rows && p !in names ==> p in rows' && rows'[p] == rows[p])
  {
    hide PartitionRow;
    if names != [] {
      var before, p := names[..|names| - 1], names[|names| - 1];
      assert names == before + [p];
      UpsertPartitionsEffect(d, db, table, before);
    }
  }

  // ---------------------------------------------------------------------
  // One event
  // ---------------------------------------------------------------------

  /** Names that the key format can hold; rows of the system tables are written
      by the catalog only. */
  predicate Sane(e: Event) {
    match e
    case Created(name, _, _) => SlashFree(name)
    case PartitionAdded(_, p, _) => SlashFree(p)
    case RowWritten(table, _) => SlashFree(table.name) && !IsSystem(table.name)
    case _ => true
  }

  ghost predicate NamesMatch(s: State) {
    && IsOrder(s.order, s.tables.Keys)
    && (forall n :: n in s.tables ==> s.tables[n].name == n)
    && (forall n, p :: HasPartition(s, n, p) ==> SlashFree(p))
  }

  lemma StepKeepsNames(d: Dumps, s: State, e: Event)
    requires NamesMatch(s) && Enabled(s, e) && Sane(e)
    ensures NamesMatch(Apply(d, s, e))
  {
    hide SlashFree, PutRow, PutPartitions, PartitionNames, Without, IsOrder;
    var after := Apply(d, s, e);
    if e.Dropped? {
      WithoutIsOrder(s.order, s.tables.Keys, e.name);
      assert after.tables.Keys == s.tables.Keys - {e.name};
    } else if e.Created? {
      assert after.tables.Keys == s.tables.Keys + {e.name};
    } else {
      assert after.tables.Keys == s.tables.Keys;
    }
    forall n, p | HasPartition(after, n, p)
      ensures SlashFree(p)
    {
      if !HasPartition(s, n, p) {
        assert e.PartitionAdded? && p == e.p;
      }
    }
  }

  /** Every event keeps the store a mirror of the logical system tables. */
  lemma StepKeepsMirror(d: Dumps, s: State, db: Database, e: Event)
    requires NamesMatch(s) && Enabled(s, e) && Sane(e) && Mirrors(s.kv, db)
    ensures Mirrors(Apply(d, s, e).kv, Record(d, s, db, e))
  {
    hide PutRow, Legal, PkOf, SlashFree, PartitionRow, TableRow, PutPartitions;
    if e.Created? {
      hide Mirrors;
      TableRowIsLegal(d, e.name, e.columns);
      SystemWrite(s.kv, db, SystemTables(), TableRow(d, e.name, e.columns));
    } else if e.RowWritten? {
      OtherTableLeavesSystem(s.kv, e.table, e.cells);
    } else if Repartitions(e) {
      hide Mirrors;
      StepKeepsNames(d, s, e);
      var after, target, table := Apply(d, s, e), Target(s, e).value, Changed(s, e);
      forall p | p in PartitionNames(table)
        ensures SlashFree(p)
      {
        assert HasPartition(after, target, p);
      }
      PartitionWrites(d, s.kv, db, table, PartitionNames(table));
    }
  }

  /** Every user table of the cache has a row with its current columns. */
  ghost predicate TablesAreRecorded(d: Dumps, s: State, db: Database) {
    forall n :: n in s.tables && !IsSystem(n) ==>
      && n in RowsOf(db, SystemTables().name)
      && RowsOf(db, SystemTables().name)[n] == TableRow(d, n, s.tables[n].columns)
  }

  lemma StepKeepsTablesRecorded(d: Dumps, s: State, db: Database, e: Event)
    requires Enabled(s, e) && TablesAreRecorded(d, s, db)
    ensures TablesAreRecorded(d, Apply(d, s, e), Record(d, s, db, e))
  {
    hide PutRow, TableRow, PutPartitions, Changed, PartitionRow;
    if Repartitions(e) {
      var table := Changed(s, e);
      UpsertPartitionsEffect(d, db, table, PartitionNames(table));
    }
  }

  /** Every partition of the cache has a row with its current values and constraints. */
  ghost predicate PartitionsAreRecorded(d: Dumps, s: State, db: Database) {
    forall n, p :: HasPartition(s, n, p) ==> PartitionIsRecorded(d, s, db, n, p)
  }

  ghost predicate PartitionIsRecorded(d: Dumps, s: State, db: Database, n: string, p: string)
    requires HasPartition(s, n, p)
  {
    && p in RowsOf(db, SystemPartitions().name)
    && RowsOf(db, SystemPartitions().name)[p] == PartitionRow(d, s.tables[n], p)
  }

  /** No two tables of the cache have partitions of one name. */
  ghost predicate PartitionNamesDisjoint(s: State) {
    forall m, n, p :: HasPartition(s, m, p) && HasPartition(s, n, p) ==> m == n
  }

  /** A shared partition name leaves room for one row only. */
  lemma SharedNameIsNotRecorded(d: Dumps, s: State, db: Database)
    requires NamesMatch(s) && PartitionsAreRecorded(d, s, db)
    ensures PartitionNamesDisjoint(s)
  {
    hide SlashFree;
    forall m, n, p | HasPartition(s, m, p) && HasPartition(s, n, p)
      ensures m == n
    {
      assert PartitionIsRecorded(d, s, db, m, p) && PartitionIsRecorded(d, s, db, n, p);
      assert PartitionRow(d, s.tables[m], p)[0] == PartitionRow(d, s.tables[n], p)[0];
    }
  }

  lemma StepKeepsPartitionsRecorded(d: Dumps, s: State, db: Database, e: Event)
    requires Enabled(s, e) && PartitionsAreRecorded(d, s, db)
    requires PartitionNamesDisjoint(Apply(d, s, e))
    ensures PartitionsAreRecorded(d, Apply(d, s, e), Record(d, s, db, e))
  {
    hide PutRow, TableRow, PutPartitions, Changed, PartitionRow;
    hide SystemPartitions, UpsertPartitions, PartitionNamesDisjoint;
    SystemNamesDiffer();
    var after, db' := Apply(d, s, e), Record(d, s, db, e);
    if Repartitions(e) {
      var target, names := Target(s, e).value, PartitionNames(Changed(s, e));
      UpsertPartitionsEffect(d, db, Changed(s, e), names);
      assert forall p :: p in names ==> HasPartition(after, target, p);
      RewritingKeepsPartitions(d, s, db, after, db', target, names);
    } else {
      forall n, p | HasPartition(after, n, p)
        ensures PartitionIsRecorded(d, after, db', n, p)
      {
        assert HasPartition(s, n, p) && PartitionIsRecorded(d, s, db, n, p);
      }
    }
  }

  lemma SystemNamesDiffer()
    ensures SystemTables().name != SystemPartitions().name
  {
    assert |SystemTables().name| != |SystemPartitions().name|;
  }

  lemma RewritingKeepsPartitions(
      d: Dumps, s: State, db: Database, after: State, db': Database, name: string, names: seq<string>)
    requires PartitionsAreRecorded(d, s, db) && PartitionNamesDisjoint(after)
    requires forall p :: p in names <==> HasPartition(after, name, p)
    requires forall p :: p in names ==> PartitionIsRecorded(d, after, db', name, p)
    requires forall n :: n != name && n in after.tables ==> n in s.tables && after.tables[n] == s.tables[n]
    requires var rows, rows' := RowsOf(db, SystemPartitions().name), RowsOf(db', SystemPartitions().name);
             forall p :: p in rows && p !in names ==> p in rows' && rows'[p] == rows[p]
    ensures PartitionsAreRecorded(d, after, db')
  {
    hide PartitionRow, SystemPartitions, RowsOf;
    forall n, p | HasPartition(after, n, p)
      ensures PartitionIsRecorded(d, after, db', n, p)
    {
      assert n != name ==> HasPartition(s, n, p) && PartitionIsRecorded(d, s, db, n, p);
    }
  }

  // ---------------------------------------------------------------------
  // Runs
  // ---------------------------------------------------------------------

  /** How a process starts: with the built-in tables, over any disk. */
  ghost predicate IsStart(s: State) {
    s.tables == InitialTables() && IsOrder(s.order, s.tables.Keys)
  }

  /** The state after some events; `None` if one of them could not have happened. */
  ghost function After(d: Dumps, start: State, events: seq<Event>): Option<State> {
    if events == [] then Some(start)
    else
      match After(d, start, events[..|events| - 1])
      case None => None
      case Some(s) => if Enabled(s, events[|events| - 1]) then Some(Apply(d, s, events[|events| - 1])) else None
  }

  /** The logical system tables after them. */
  ghost function RecordAfter(d: Dumps, start: State, db: Database, events: seq<Event>): Database
    requires After(d, start, events).Some?
  {
    if events == [] then db
    else
      var before := events[..|events| - 1];
      Record(d, After(d, start, before).value, RecordAfter(d, start, db, before), events[|events| - 1])
  }

  ghost predicate IsRun(d: Dumps, start: State, events: seq<Event>) {
    IsStart(start) && After(d, start, events).Some? && forall e :: e in events ==> Sane(e)
  }

  lemma RunStep(d: Dumps, start: State, events: seq<Event>)
    requires events != [] && IsRun(d, start, events)
    ensures IsRun(d, start, events[..|events| - 1])
    ensures Sane(events[|events| - 1])
  {
    hide Sane, Enabled, Apply;
    assert events[|events| - 1] in events;
  }

  lemma {:induction false} RunInvariant(d: Dumps, start: State, db: Database, events: seq<Event>)
    requires IsRun(d, start, events) && Mirrors(start.kv, db)
    ensures NamesMatch(After(d, start, events).value)
    ensures Mirrors(After(d, start, events).value.kv, RecordAfter(d, start, db, events))
    ensures TablesAreRecorded(d, After(d, start, events).value, RecordAfter(d, start, db, events))
  {
    hide Sane, Apply, Record, Mirrors;
    if events != [] {
      var before, e := events[..|events| - 1], events[|events| - 1];
      RunStep(d, start, events);
      RunInvariant(d, start, db, before);
      hide NamesMatch, TablesAreRecorded;
      var s, recorded := After(d, start, before).value, RecordAfter(d, start, db, before);
      assert Enabled(s, e);
      StepKeepsNames(d, s, e);
      StepKeepsMirror(d, s, recorded, e);
      StepKeepsTablesRecorded(d, s, recorded, e);
    }
  }

  /** In every run, over any disk that an earlier process left behind, the two
      system tables answer the logical tables, and every user table of the cache
      is among them with its current columns. */
  lemma CacheIsOnDisk(d: Dumps, start: State, db: Database, events: seq<Event>)
    requires IsRun(d, start, events) && Mirrors(start.kv, db)
    ensures var s, recorded := After(d, start, events).value, RecordAfter(d, start, db, events);
            && TablesAreRecorded(d, s, recorded)
            && (forall table :: table in {SystemTables(), SystemPartitions()} ==>
                  (forall pk :: pk in RowsOf(recorded, table.name) ==> |RowsOf(recorded, table.name)[pk]| == |table.columns|) &&
                  Answer(s.kv, Some(table)) == Result.Ok(LogicalBatch(table.columns, RowsOf(recorded, table.name))))
  {
    RunInvariant(d, start, db, events);
    hide TablesAreRecorded, IsRun, NamesMatch, SystemPart, Represents, WellFormed, LogicalBatch, Answer;
    SystemSchemasAreWellFormed();
    var s, recorded := After(d, start, events).value, RecordAfter(d, start, db, events);
    forall table | table in {SystemTables(), SystemPartitions()}
      ensures (forall pk :: pk in RowsOf(recorded, table.name) ==> |RowsOf(recorded, table.name)[pk]| == |table.columns|) &&
              Answer(s.kv, Some(table)) == Result.Ok(LogicalBatch(table.columns, RowsOf(recorded, table.name)))
    {
      AnswerFromSystemPart(s.kv, table);
      QueryAnswersTable(SystemSchemas(), SystemPart(s.kv), recorded, table);
    }
  }

  /** The names that system.tables lists at the end of a run from an empty disk. */
  ghost function ListedNames(d: Dumps, start: State, events: seq<Event>): set<string>
    requires After(d, start, events).Some?
  {
    RowsOf(RecordAfter(d, start, map[], events), SystemTables().name).Keys
  }

  predicate WasCreated(events: seq<Event>, n: string) {
    exists i :: 0 <= i < |events| && events[i].Created? && events[i].name == n
  }

  lemma CreatedStep(events: seq<Event>, n: string)
    requires events != []
    ensures var e := events[|events| - 1];
            WasCreated(events, n) <==> WasCreated(events[..|events| - 1], n) || (e.Created? && e.name == n)
  {
    var before := events[..|events| - 1];
    if i :| 0 <= i < |before| && before[i].Created? && before[i].name == n {
      assert events[i] == before[i];
    }
    if i :| 0 <= i < |events| && events[i].Created? && events[i].name == n {
      assert i < |before| ==> before[i] == events[i];
    }
  }

  lemma ListedStep(d: Dumps, start: State, events: seq<Event>)
    requires events != [] && After(d, start, events).Some?
    ensures var e := events[|events| - 1];
            ListedNames(d, start, events) ==
            ListedNames(d, start, events[..|events| - 1]) + if e.Created? then {e.name} else {}
  {
    hide PutRow, TableRow, PutPartitions, Changed, PartitionRow, Apply;
    var before, e := events[..|events| - 1], events[|events| - 1];
    var s, recorded := After(d, start, before).value, RecordAfter(d, start, map[], before);
    if Repartitions(e) {
      UpsertPartitionsEffect(d, recorded, Changed(s, e), PartitionNames(Changed(s, e)));
    }
  }

  /** From an empty disk, system.tables lists exactly the names ever created. */
  lemma {:induction false} RowsAreCreatedNames(d: Dumps, start: State, events: seq<Event>)
    requires After(d, start, events).Some?
    ensures forall n :: n in ListedNames(d, start, events) <==> WasCreated(events, n)
  {
    hide ListedNames, WasCreated;
    if events == [] {
      NothingListed(d, start);
    } else {
      RowsAreCreatedNames(d, start, events[..|events| - 1]);
      ListedStep(d, start, events);
      forall n
        ensures n in ListedNames(d, start, events) <==> WasCreated(events, n)
      {
        CreatedStep(events, n);
      }
    }
  }

  lemma NothingListed(d: Dumps, start: State)
    ensures ListedNames(d, start, []) == {} && forall n :: !WasCreated([], n)
  {
  }

  ghost function UserTables(s: State): set<string> {
    set n | n in s.tables && !IsSystem(n)
  }

  lemma {:induction false} UserTablesWereCreated(d: Dumps, start: State, events: seq<Event>)
    requires IsStart(start) && After(d, start, events).Some?
    ensures forall n :: n in UserTables(After(d, start, events).value) ==> WasCreated(events, n)
  {
    hide WasCreated, PutRow, TableRow, PutPartitions, Changed, IsOrder;
    if events != [] {
      UserTablesWereCreated(d, start, events[..|events| - 1]);
      forall n
        ensures WasCreated(events[..|events| - 1], n) ==> WasCreated(events, n)
        ensures events[|events| - 1].Created? && events[|events| - 1].name == n ==> WasCreated(events, n)
      {
        CreatedStep(events, n);
      }
    }
  }

  /** So it lists exactly the cached user tables if and only if every name ever
      created is a cached user table still. */
  lemma ListIsCurrent(d: Dumps, start: State, events: seq<Event>)
    requires IsStart(start) && After(d, start, events).Some?
    ensures ListedNames(d, start, events) == UserTables(After(d, start, events).value) <==>
            forall n :: WasCreated(events, n) ==> n in UserTables(After(d, start, events).value)
  {
    hide ListedNames, WasCreated, UserTables, After, IsOrder;
    RowsAreCreatedNames(d, start, events);
    UserTablesWereCreated(d, start, events);
  }

  /** In particular it does in every run without drops. */
  lemma {:induction false} WithoutDropsNothingIsStale(d: Dumps, start: State, events: seq<Event>)
    requires IsStart(start) && After(d, start, events).Some?
    requires forall e :: e in events ==> !e.Dropped?
    ensures InitialTables().Keys <= After(d, start, events).value.tables.Keys
    ensures ListedNames(d, start, events) == UserTables(After(d, start, events).value)
  {
    hide PutRow, TableRow, PutPartitions, Changed, PartitionRow, ListedNames, IsOrder;
    if events == [] {
      NothingListed(d, start);
    } else {
      assert events[|events| - 1] in events;
      WithoutDropsNothingIsStale(d, start, events[..|events| - 1]);
      ListedStep(d, start, events);
    }
  }

  ghost predicate AlwaysRecorded(d: Dumps, start: State, db: Database, events: seq<Event>)
    requires IsRun(d, start, events)
    decreases |events|
  {
    && PartitionsAreRecorded(d, After(d, start, events).value, RecordAfter(d, start, db, events))
    && (events != [] ==> (RunStep(d, start, events); AlwaysRecorded(d, start, db, events[..|events| - 1])))
  }

  ghost predicate AlwaysDisjoint(d: Dumps, start: State, events: seq<Event>)
    requires IsRun(d, start, events)
    decreases |events|
  {
    && PartitionNamesDisjoint(After(d, start, events).value)
    && (events != [] ==> (RunStep(d, start, events); AlwaysDisjoint(d, start, events[..|events| - 1])))
  }

  /** system.partitions is current throughout a run exactly when no two tables
      of the cache ever share a partition name. */
  lemma {:induction false} PartitionsAreCurrent(d: Dumps, start: State, db: Database, events: seq<Event>)
    requires IsRun(d, start, events) && Mirrors(start.kv, db)
    ensures AlwaysRecorded(d, start, db, events) <==> AlwaysDisjoint(d, start, events)
  {
    hide Apply, Record, PartitionsAreRecorded, PartitionNamesDisjoint, NamesMatch, TablesAreRecorded, Mirrors;
    RunInvariant(d, start, db, events);
    var s, recorded := After(d, start, events).value, RecordAfter(d, start, db, events);
    if PartitionsAreRecorded(d, s, recorded) {
      SharedNameIsNotRecorded(d, s, recorded);
    }
    if events == [] {
      NothingIsPartitioned(d, start, db);
    } else {
      var before, e := events[..|events| - 1], events[|events| - 1];
      RunStep(d, start, events);
      PartitionsAreCurrent(d, start, db, before);
      if AlwaysDisjoint(d, start, events) {
        StepKeepsPartitionsRecorded(d, After(d, start, before).value, RecordAfter(d, start, db, before), e);
      }
    }
  }

  lemma NothingIsPartitioned(d: Dumps, start: State, db: Database)
    requires IsStart(start)
    ensures PartitionsAreRecorded(d, start, db)
  {
  }

  // ---------------------------------------------------------------------
  // One list-partitioned table at a time
  // ---------------------------------------------------------------------

  /** Before another table is partitioned, the one partitioned so far is dropped. */
  ghost predicate OneAtATime(events: seq<Event>) {
    forall i, j :: AreApart(events, i, j) ==> IsDroppedBetween(events, i, j, events[i].name)
  }

  /** Two different tables are partitioned, one after the other. */
  predicate AreApart(events: seq<Event>, i: int, j: int) {
    && 0 <= i < j < |events| && events[i].Partitioned? && events[j].Partitioned?
    && events[i].name != events[j].name
  }

  ghost predicate IsDroppedBetween(events: seq<Event>, i: int, j: int, name: string) {
    exists k :: i < k < j && k < |events| && 0 <= k && events[k] == Dropped(name)
  }

  /** A listed table was partitioned and has not been dropped since. */
  ghost predicate PartitionedAt(events: seq<Event>, i: int, name: string) {
    && 0 <= i < |events| && events[i].Partitioned? && events[i].name == name
    && !IsDroppedBetween(events, i, |events|, name)
  }

  lemma {:induction false} ListedWasPartitioned(d: Dumps, start: State, events: seq<Event>, n: string) returns (i: nat)
    requires IsStart(start) && After(d, start, events).Some?
    requires IsListed(After(d, start, events).value, n)
    ensures PartitionedAt(events, i, n)
  {
    hide PutRow, TableRow, PutPartitions, IsOrder;
    var before, e := events[..|events| - 1], events[|events| - 1];
    if e.Partitioned? && e.name == n {
      i := |before|;
    } else {
      assert IsListed(After(d, start, before).value, n) && e != Dropped(n);
      i := ListedWasPartitioned(d, start, before, n);
      assert forall k :: i < k < |before| ==> events[k] == before[k];
    }
  }

  lemma NotBothListed(events: seq<Event>, i: nat, m: string, j: nat, n: string)
    requires OneAtATime(events) && PartitionedAt(events, i, m) && PartitionedAt(events, j, n)
    ensures i < j ==> m == n
  {
    assert AreApart(events, i, j) ==> IsDroppedBetween(events, i, j, m);
  }

  lemma OneListedTableIsDisjoint(s: State)
    requires forall m, n :: IsListed(s, m) && IsListed(s, n) ==> m == n
    ensures PartitionNamesDisjoint(s)
  {
  }

  lemma OneListed(d: Dumps, start: State, events: seq<Event>)
    requires IsStart(start) && After(d, start, events).Some? && OneAtATime(events)
    ensures PartitionNamesDisjoint(After(d, start, events).value)
  {
    hide After, IsStart;
    var s := After(d, start, events).value;
    forall m, n | IsListed(s, m) && IsListed(s, n)
      ensures m == n
    {
      var i := ListedWasPartitioned(d, start, events, m);
      var j := ListedWasPartitioned(d, start, events, n);
      NotBothListed(events, i, m, j, n);
      NotBothListed(events, j, n, i, m);
    }
    OneListedTableIsDisjoint(s);
  }

  /** In such a run no two tables ever share a partition name, and so
      system.partitions is current throughout. */
  lemma {:induction false} OneAtATimeIsCurrent(d: Dumps, start: State, db: Database, events: seq<Event>)
    requires IsRun(d, start, events) && Mirrors(start.kv, db) && OneAtATime(events)
    ensures AlwaysDisjoint(d, start, events) && AlwaysRecorded(d, start, db, events)
  {
    hide Mirrors, PartitionNamesDisjoint, AlwaysRecorded, Apply, Enabled;
    OneListed(d, start, events);
    if events != [] {
      var before := events[..|events| - 1];
      RunStep(d, start, events);
      PrefixIsOneAtATime(events);
      OneAtATimeIsCurrent(d, start, db, before);
    }
    PartitionsAreCurrent(d, start, db, events);
  }

  lemma PrefixIsOneAtATime(events: seq<Event>)
    requires events != [] && OneAtATime(events)
    ensures OneAtATime(events[..|events| - 1])
  {
    var before := events[..|events| - 1];
    forall i, j | AreApart(before, i, j)
      ensures IsDroppedBetween(before, i, j, before[i].name)
    {
      assert AreApart(events, i, j);
      var k :| i < k < j && events[k] == Dropped(events[i].name);
      assert before[k] == events[k];
    }
  }

  // ---------------------------------------------------------------------
  // A run that loses a row
  // ---------------------------------------------------------------------

  lemma Extend(d: Dumps, start: State, events: seq<Event>, e: Event) returns (more: seq<Event>)
    requires IsRun(d, start, events) && Enabled(After(d, start, events).value, e) && Sane(e)
    ensures more == events + [e]
    ensures IsRun(d, start, more) && After(d, start, more) == Some(Apply(d, After(d, start, events).value, e))
  {
    hide Sane, Apply, Enabled;
    more := events + [e];
    assert more[..|events|] == events;
  }

  function EmptyStart(): State {
    State(InitialTables(), [SystemTables().name, SystemPartitions().name], map[])
  }

  lemma NothingHappened(d: Dumps)
    ensures IsRun(d, EmptyStart(), []) && After(d, EmptyStart(), []) == Some(EmptyStart())
    ensures Mirrors(map[], map[])
    ensures EmptyStart().tables.Keys == {SystemTables().name, SystemPartitions().name}
  {
    SystemNamesDiffer();
  }

  lemma ThenCreated(d: Dumps, start: State, events: seq<Event>, n: string, order: seq<string>)
      returns (more: seq<Event>)
    requires IsRun(d, start, events) && SlashFree(n)
    requires var s := After(d, start, events).value; n !in s.tables && IsOrder(order, s.tables.Keys + {n})
    ensures IsRun(d, start, more)
    ensures var s := After(d, start, events).value;
            After(d, start, more).value.tables == s.tables[n := Table(n, [], NullPartition)] &&
            After(d, start, more).value.order == order
  {
    hide PutRow, TableRow, After, IsRun, IsOrder;
    more := Extend(d, start, events, Created(n, [], order));
  }

  lemma ThenPartitioned(d: Dumps, start: State, events: seq<Event>, n: string) returns (more: seq<Event>)
    requires IsRun(d, start, events) && n in After(d, start, events).value.tables
    ensures IsRun(d, start, more)
    ensures var s := After(d, start, events).value;
            After(d, start, more).value.tables == s.tables[n := s.tables[n].(partition := ListPartition("c", map[]))] &&
            After(d, start, more).value.order == s.order
  {
    hide PutPartitions, After, IsRun, IsOrder;
    more := Extend(d, start, events, Partitioned(n, "c"));
  }

  lemma ThenPartitionAdded(d: Dumps, start: State, events: seq<Event>, n: string, p: string) returns (more: seq<Event>)
    requires IsRun(d, start, events) && SlashFree(p)
    requires var s := After(d, start, events).value; FirstWanted(s, s.order, None) == Some(n)
    ensures IsRun(d, start, more)
    ensures var s := After(d, start, events).value;
            var list := s.tables[n].partition;
            var added := list.(partitions := list.partitions[p := SinglePartition(["x"], map[])]);
            After(d, start, more).value.tables == s.tables[n := s.tables[n].(partition := added)] &&
            After(d, start, more).value.order == s.order
  {
    hide PutPartitions, After, IsRun, IsOrder, FirstWanted;
    more := Extend(d, start, events, PartitionAdded(n, p, ["x"]));
  }

  lemma ShortNames(n: string)
    requires |n| == 1 && n[0] != '/'
    ensures !IsSystem(n) && SlashFree(n)
  {
    assert |SystemTables().name| > 1 && |SystemPartitions().name| > 1;
  }

  /** A list-partitioned table with one partition is created. */
  lemma AddFirst(d: Dumps) returns (events: seq<Event>)
    ensures IsRun(d, EmptyStart(), events)
    ensures var s := After(d, EmptyStart(), events).value;
            s.tables.Keys == {SystemTables().name, SystemPartitions().name, "a"} && HasPartition(s, "a", "p")
  {
    hide After, FirstWanted, SlashFree, Sane, EmptyStart, SystemTables, SystemPartitions;
    NothingHappened(d);
    SystemNamesDiffer();
    ShortNames("a");
    ShortNames("p");
    var order := ["a", SystemTables().name, SystemPartitions().name];
    var one := ThenCreated(d, EmptyStart(), [], "a", order);
    var two := ThenPartitioned(d, EmptyStart(), one, "a");
    FirstListed(After(d, EmptyStart(), two).value, "a");
    events := ThenPartitionAdded(d, EmptyStart(), two, "a", "p");
  }

  lemma FirstListed(s: State, n: string)
    requires IsListed(s, n) && s.order != [] && s.order[0] == n
    ensures FirstWanted(s, s.order, None) == Some(n)
  {
  }

  /** Another table may be met first once it is there, and takes a partition of the
      same name ... */
  lemma AddSecond(d: Dumps, first: seq<Event>) returns (events: seq<Event>)
    requires IsRun(d, EmptyStart(), first)
    requires var s := After(d, EmptyStart(), first).value;
             s.tables.Keys == {SystemTables().name, SystemPartitions().name, "a"} && HasPartition(s, "a", "p")
    ensures IsRun(d, EmptyStart(), events)
    ensures var s := After(d, EmptyStart(), events).value; HasPartition(s, "a", "p") && HasPartition(s, "b", "p")
  {
    hide After, FirstWanted, SlashFree, Sane, EmptyStart, SystemTables, SystemPartitions;
    SystemNamesDiffer();
    ShortNames("a");
    ShortNames("b");
    ShortNames("p");
    var order := ["b", SystemTables().name, SystemPartitions().name, "a"];
    var one := ThenCreated(d, EmptyStart(), first, "b", order);
    var two := ThenPartitioned(d, EmptyStart(), one, "b");
    FirstListed(After(d, EmptyStart(), two).value, "b");
    events := ThenPartitionAdded(d, EmptyStart(), two, "b", "p");
  }

  /** ... and the row of the first partition is lost. */
  lemma SharedNameRun(d: Dumps) returns (events: seq<Event>)
    ensures IsRun(d, EmptyStart(), events) && !AlwaysRecorded(d, EmptyStart(), map[], events)
  {
    hide AlwaysRecorded, After, IsRun, Mirrors, EmptyStart, HasPartition;
    NothingHappened(d);
    var first := AddFirst(d);
    events := AddSecond(d, first);
    assert !AlwaysDisjoint(d, EmptyStart(), events);
    EmptyDisk();
    PartitionsAreCurrent(d, EmptyStart(), map[], events);
  }

  lemma EmptyDisk()
    ensures EmptyStart().kv == map[]
  {
  }
}
