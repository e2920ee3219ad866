/** The catalog: an in-memory cache of tables, mirrored row by row into the two
    system tables of the store. */
module Catalogs {
  import opened Wrappers
  import opened ByteOrder
  import opened Decimal
  import opened Schema
  import opened Rocks
  import opened Query
  import opened RowStore

  /** The JSON texts that the catalog stores for compound values. */
  datatype Dumps = Dumps(
    columns: seq<Column> -> string,
    values: seq<string> -> string,
    constraints: map<string, string> -> string)

  datatype Strategy = ListStrategy | OtherStrategy

  datatype Status = Success | AlreadyExists | NotFound | Unsupported

  function SystemTables(): Table {
    Table("system.tables", [Column("table_name", String, true), Column("columns", String, false)], NullPartition)
  }

  function SystemPartitions(): Table {
    Table("system.partitions",
          [Column("table_name", String, false), Column("partition_name", String, true),
           Column("constraint", String, false), Column("column_name", String, false),
           Column("partition_value", String, false)],
          NullPartition)
  }

  predicate IsSystem(name: string) {
    name == SystemTables().name || name == SystemPartitions().name
  }

  function TableRow(d: Dumps, name: string, columns: seq<Column>): seq<Datum> {
    [StringDatum(name), StringDatum(d.columns(columns))]
  }

  function PartitionRow(d: Dumps, table: Table, p: string): seq<Datum>
    requires table.partition.ListPartition? && p in table.partition.partitions
  {
    var single := table.partition.partitions[p];
    [StringDatum(table.name), StringDatum(p), StringDatum(d.constraints(single.constraints)),
     StringDatum(table.partition.columnName), StringDatum(d.values(single.values))]
  }

  lemma SystemShapes()
    ensures PkIndex(SystemTables().columns) == 0
    ensures PkIndex(SystemPartitions().columns) == 1
  {
    assert SystemPartitions().columns[1..][0].isPrimaryKey;
  }

  /** Each system table has one key column: the name of what it lists. */
  lemma SystemKeys()
    ensures forall c :: c in SystemTables().columns ==> (c.isPrimaryKey <==> c.name == "table_name")
    ensures forall c :: c in SystemPartitions().columns ==> (c.isPrimaryKey <==> c.name == "partition_name")
  {
  }

  // ---------------------------------------------------------------------
  // What one operation does to the cache and to the store
  // ---------------------------------------------------------------------

  /** The cache is a hash table: `order` is the order in which a loop over it meets
      the tables. An insertion may rearrange it, an erasure leaves the rest as it is,
      and it stays the same as long as no table comes or goes. */
  datatype State = State(tables: map<string, Table>, order: seq<string>, kv: map<string, string>)

  /** An operation that took effect; a creation comes with the order it leaves. */
  datatype Event =
    | Created(name: string, columns: seq<Column>, order: seq<string>)
    | Dropped(name: string)
    | Partitioned(name: string, column: string)
    | PartitionAdded(asked: string, p: string, values: seq<string>)
    | Constrained(p: string, key: string, value: string)
    | RowWritten(table: Table, cells: seq<string>)

  predicate IsOrder(order: seq<string>, names: set<string>) {
    && (forall i, j :: 0 <= i < j < |order| ==> order[i] != order[j])
    && (forall i :: 0 <= i < |order| ==> order[i] in names)
    && (forall n :: n in names ==> n in order)
  }

  function Without(order: seq<string>, name: string): (rest: seq<string>)
    ensures forall n :: n in rest <==> n in order && n != name
  {
    if order == [] then []
    else
      assert order == [order[0]] + order[1..];
      (if order[0] == name then [] else [order[0]]) + Without(order[1..], name)
  }

  lemma {:induction false} WithoutIsOrder(order: seq<string>, names: set<string>, name: string)
    requires IsOrder(order, names)
    ensures IsOrder(Without(order, name), names - {name})
  {
    if order != [] {
      var first, rest := order[0], order[1..];
      assert order == [first] + rest;
      assert first !in rest;
      assert IsOrder(rest, names - {first});
      WithoutIsOrder(rest, names - {first}, name);
      assert names - {first} - {name} == names - {name} - {first};
    }
  }

  predicate IsListed(s: State, name: string) {
    name in s.tables && s.tables[name].partition.ListPartition?
  }

  predicate HasPartition(s: State, name: string, p: string) {
    IsListed(s, name) && p in s.tables[name].partition.partitions
  }

  /** What a loop over the tables looks for: a list-partitioned table, or one with a
      given partition. */
  predicate IsWanted(s: State, p: Option<string>, name: string) {
    IsListed(s, name) && (p.Some? ==> HasPartition(s, name, p.value))
  }

  /** The first such table that the loop meets. */
  function FirstWanted(s: State, order: seq<string>, p: Option<string>): (found: Option<string>)
    ensures found.Some? ==> found.value in order && IsWanted(s, p, found.value)
    ensures found.None? ==> forall n :: n in order ==> !IsWanted(s, p, n)
  {
    if order == [] then None
    else
      assert order == [order[0]] + order[1..];
      if IsWanted(s, p, order[0]) then Some(order[0]) else FirstWanted(s, order[1..], p)
  }

  lemma NextWanted(s: State, order: seq<string>, i: nat, p: Option<string>)
    requires i < |order|
    ensures FirstWanted(s, order[i..], p) ==
            if IsWanted(s, p, order[i]) then Some(order[i]) else FirstWanted(s, order[i + 1..], p)
  {
    assert order[i..][1..] == order[i + 1..];
  }

  lemma NothingWanted(s: State, p: Option<string>)
    ensures FirstWanted(s, [], p) == None
  {
  }

  lemma OrderedIsCached(order: seq<string>, names: set<string>, i: nat)
    requires IsOrder(order, names) && i < |order|
    ensures order[i] in names
  {
  }

  predicate Repartitions(e: Event) {
    e.Partitioned? || e.PartitionAdded? || e.Constrained?
  }

  /** The table whose partition an event changes. */
  function Target(s: State, e: Event): (target: Option<string>)
    requires Repartitions(e)
    ensures target.Some? ==> target.value in s.tables
  {
    match e
    case Partitioned(name, _) => if name in s.tables then Some(name) else None
    case PartitionAdded(_, _, _) => FirstWanted(s, s.order, None)
    case Constrained(p, _, _) => FirstWanted(s, s.order, Some(p))
  }

  predicate Enabled(s: State, e: Event) {
    match e
    case Created(name, _, order) => name !in s.tables && IsOrder(order, s.tables.Keys + {name})
    case Dropped(_) => true
    case RowWritten(table, cells) => Writable(table, |cells|)
    case _ => Target(s, e).Some?
  }

  /** The partition that the target has after the event. */
  function NewPartition(s: State, e: Event): (partition: Partition)
    requires Repartitions(e) && Target(s, e).Some?
    ensures partition.ListPartition?
  {
    if e.Partitioned? then ListPartition(e.column, map[])
    else
      var old' := s.tables[Target(s, e).value].partition;
      old'.(partitions := old'.partitions[e.p := NewSingle(s, e)])
  }

  /** Adding a partition forgets an old one of that name; inserting a constraint
      leaves an old value of that key in place. */
  function NewSingle(s: State, e: Event): SinglePartition
    requires (e.PartitionAdded? || e.Constrained?) && Target(s, e).Some?
  {
    if e.PartitionAdded? then SinglePartition(e.values, map[])
    else
      var single := s.tables[Target(s, e).value].partition.partitions[e.p];
      if e.key in single.constraints then single
      else single.(constraints := single.constraints[e.key := e.value])
  }

  /** The target as the event leaves it. */
  function Changed(s: State, e: Event): (table: Table)
    requires Repartitions(e) && Target(s, e).Some?
    ensures table.partition.ListPartition?
    ensures table.name == s.tables[Target(s, e).value].name && table.columns == s.tables[Target(s, e).value].columns
  {
    s.tables[Target(s, e).value].(partition := NewPartition(s, e))
  }

  ghost function Apply(d: Dumps, s: State, e: Event): State
    requires Enabled(s, e)
  {
    match e
    case Created(name, columns, order) =>
      SystemShapes();
      State(s.tables[name := Table(name, columns, NullPartition)], order,
            PutRow(s.kv, SystemTables(), EncodeAll(TableRow(d, name, columns))))
    case Dropped(name) => s.(tables := s.tables - {name}, order := Without(s.order, name))
    case RowWritten(table, cells) => s.(kv := PutRow(s.kv, table, cells))
    case _ =>
      s.(tables := s.tables[Target(s, e).value := Changed(s, e)],
         kv := PutPartitions(d, s.kv, Changed(s, e), PartitionNames(Changed(s, e))))
  }

  // ---------------------------------------------------------------------
  // What an event changes, and what it leaves
  // ---------------------------------------------------------------------

  /** The one table that an event may change, if any. */
  function TableOf(s: State, e: Event): Option<string>
    requires Enabled(s, e)
  {
    match e
    case Created(name, _, _) => Some(name)
    case Dropped(name) => Some(name)
    case RowWritten(_, _) => None
    case _ => Target(s, e)
  }

  /** All other tables stay as they are, none comes and none goes. */
  lemma OtherTablesStay(d: Dumps, s: State, e: Event, n: string)
    requires Enabled(s, e) && TableOf(s, e) != Some(n)
    ensures n in Apply(d, s, e).tables <==> n in s.tables
    ensures n in s.tables ==> Apply(d, s, e).tables[n] == s.tables[n]
  {
    hide PutRow, PutPartitions, TableRow;
  }

  /** Creating, dropping and partitioning do what they say to their table. */
  lemma NamedTableAfter(d: Dumps, s: State, e: Event)
    requires Enabled(s, e)
    ensures e.Created? ==>
              var t := Apply(d, s, e).tables;
              e.name in t && t[e.name].name == e.name && t[e.name].columns == e.columns && t[e.name].partition.NullPartition?
    ensures e.Dropped? ==> e.name !in Apply(d, s, e).tables && Apply(d, s, e).kv == s.kv
    ensures e.Partitioned? ==>
              var t := Apply(d, s, e).tables;
              e.name in t && t[e.name].name == s.tables[e.name].name && t[e.name].columns == s.tables[e.name].columns &&
              t[e.name].partition.ListPartition? && t[e.name].partition.columnName == e.column &&
              t[e.name].partition.partitions == map[]
  {
    hide PutRow, PutPartitions, TableRow;
  }

  /** Adding a partition, or a constraint to one, changes nothing of the table but
      that partition. */
  lemma OtherPartitionsStay(d: Dumps, s: State, e: Event, q: string)
    requires Enabled(s, e) && (e.PartitionAdded? || e.Constrained?) && q != e.p
    ensures var n := Target(s, e).value;
            var before, after := s.tables[n], Apply(d, s, e).tables[n];
            && after.name == before.name && after.columns == before.columns
            && after.partition.ListPartition? && after.partition.columnName == before.partition.columnName
            && (q in after.partition.partitions <==> q in before.partition.partitions)
            && (q in before.partition.partitions ==>
                  after.partition.partitions[q] == before.partition.partitions[q])
  {
    hide PutRow, PutPartitions, TableRow;
  }

  /** A partition that is added has the values given and no constraint. */
  lemma AddedPartition(d: Dumps, s: State, e: Event)
    requires Enabled(s, e) && e.PartitionAdded?
    ensures var after := Apply(d, s, e).tables[Target(s, e).value].partition.partitions;
            e.p in after && after[e.p].values == e.values && after[e.p].constraints.Keys == {}
  {
    hide PutRow, PutPartitions, TableRow;
  }

  /** A constraint is added if its key is new; values and other constraints stay. */
  lemma ConstrainedPartition(d: Dumps, s: State, e: Event, key: string)
    requires Enabled(s, e) && e.Constrained?
    ensures var n := Target(s, e).value;
            var before, after := s.tables[n].partition.partitions, Apply(d, s, e).tables[n].partition.partitions;
            && e.p in before && e.p in after && after[e.p].values == before[e.p].values
            && (key in after[e.p].constraints <==> key in before[e.p].constraints || key == e.key)
            && (key in before[e.p].constraints ==> after[e.p].constraints[key] == before[e.p].constraints[key])
            && (key !in before[e.p].constraints && key == e.key ==> after[e.p].constraints[key] == e.value)
  {
    hide PutRow, PutPartitions, TableRow;
  }

  /** The cells of the system rows stand under the columns of their names. */
  lemma CellsMatchColumns(d: Dumps, table: Table, p: string, columns: seq<Column>)
    requires table.partition.ListPartition? && p in table.partition.partitions
    ensures var row := TableRow(d, table.name, columns);
            && |row| == |SystemTables().columns|
            && forall c :: 0 <= c < |row| ==>
                 row[c] == StringDatum(match SystemTables().columns[c].name
                                       case "table_name" => table.name
                                       case _ => d.columns(columns))
    ensures var row, single := PartitionRow(d, table, p), table.partition.partitions[p];
            && |row| == |SystemPartitions().columns|
            && forall c :: 0 <= c < |row| ==>
                 row[c] == StringDatum(match SystemPartitions().columns[c].name
                                       case "table_name" => table.name
                                       case "partition_name" => p
                                       case "constraint" => d.constraints(single.constraints)
                                       case "column_name" => table.partition.columnName
                                       case _ => d.values(single.values))
  {
  }

  ghost function PartitionNames(table: Table): (names: seq<string>)
    requires table.partition.ListPartition?
    ensures forall p :: p in names <==> p in table.partition.partitions
  {
    InOrder(table.partition.partitions.Keys)
  }

  /** One row of system.partitions per name, in the given order. */
  ghost function PutPartitions(d: Dumps, kv: map<string, string>, table: Table, names: seq<string>): map<string, string>
    requires table.partition.ListPartition?
    requires forall p :: p in names ==> p in table.partition.partitions
  {
    if names == [] then kv
    else
      var p := names[|names| - 1];
      SystemShapes();
      PutRow(PutPartitions(d, kv, table, names[..|names| - 1]),
             SystemPartitions(), EncodeAll(PartitionRow(d, table, p)))
  }

  // ---------------------------------------------------------------------
  // The catalog itself
  // ---------------------------------------------------------------------

  class Catalog {
    var tables: map<string, Table>
    var order: seq<string>
    const db: RocksDB
    const dumps: Dumps

    ghost predicate Valid()
      reads this, db
    {
      && "TablesCF" in db.families
      && (forall name :: name in tables ==> tables[name].name == name)
      && IsOrder(order, tables.Keys)
    }

    ghost function Now(): State
      reads this, db
    {
      State(tables, order, db.kv)
    }

    /** The cache starts with the system tables; nothing is read back from disk. */
    constructor (db: RocksDB, dumps: Dumps, placed: seq<string>)
      requires "TablesCF" in db.families && IsOrder(placed, InitialTables().Keys)
      ensures this.db == db && this.dumps == dumps && Valid()
      ensures tables == InitialTables() && order == placed
    {
      this.db := db;
      this.dumps := dumps;
      tables, order := InitialTables(), placed;
    }

    method GetTable(name: string) returns (found: Option<Table>)
      ensures found == if name in tables then Some(tables[name]) else None
    {
      if name in tables {
        return Some(tables[name]);
      }
      return None;
    }

    /** `placed` is where the hash table puts the new name among the others. */
    method CreateTable(name: string, columns: seq<Column>, placed: seq<string>) returns (status: Status)
      requires Valid() && (name !in tables ==> IsOrder(placed, tables.Keys + {name}))
      modifies this`tables, this`order, db`kv
      ensures Valid()
      ensures status == if name in old(tables) then AlreadyExists else Success
      ensures Now() == if status == Success then Apply(dumps, old(Now()), Created(name, columns, placed)) else old(Now())
    {
      var found := GetTable(name);
      if found.Some? {
        return AlreadyExists;
      }
      tables, order := tables[name := Table(name, columns, NullPartition)], placed;
      assert tables.Keys == old(tables).Keys + {name};
      SystemShapes();
      db.WriteRow(SystemTables(), TableRow(dumps, name, columns));
      return Success;
    }

    /** Deletes a key of another column family: the row of the table stays. */
    method DropTable(name: string) returns (status: Status)
      requires Valid()
      modifies this`tables, this`order, db`families
      ensures Valid()
      ensures status == Success && Now() == Apply(dumps, old(Now()), Dropped(name))
    {
      WithoutIsOrder(order, tables.Keys, name);
      if name in tables {
        tables, order := tables - {name}, Without(order, name);
      } else {
        WithoutAbsent(order, name);
      }
      assert tables == old(tables) - {name};
      var known := db.Delete("TablesCF", name);
      return Success;
    }

    method SetPartition(name: string, column: string, strategy: Strategy) returns (status: Status)
      requires Valid()
      modifies this`tables, db`kv
      ensures Valid()
      ensures status == if strategy != ListStrategy then Unsupported
                        else if name in old(tables) then Success else NotFound
      ensures Now() == if status == Success then Apply(dumps, old(Now()), Partitioned(name, column)) else old(Now())
    {
      match strategy {
        case ListStrategy =>
          var found := GetTable(name);
          if found.None? {
            return NotFound;
          }
          var table := found.value.(partition := ListPartition(column, map[]));
          tables := tables[name := table];
          assert tables.Keys == old(tables).Keys;
          WritePartition(table);
          return Success;
        case OtherStrategy =>
          return Unsupported;
      }
    }

    /** The loop variable hides the table name of the caller: the first
        list-partitioned table that comes up is the one that is changed. */
    method AddListPartition(name: string, p: string, values: seq<string>) returns (status: Status)
      requires Valid()
      modifies this`tables, db`kv
      ensures Valid()
      ensures status == if FirstWanted(old(Now()), old(order), None).Some? then Success else NotFound
      ensures Now() == if status == Success then Apply(dumps, old(Now()), PartitionAdded(name, p, values)) else old(Now())
    {
      hide IsOrder, FirstWanted, PutPartitions, PartitionNames;
      ghost var before := Now();
      assert order[0..] == order;
      for i := 0 to |order|
        invariant Now() == before && Valid()
        invariant FirstWanted(before, order, None) == FirstWanted(before, order[i..], None)
      {
        var t := order[i];
        OrderedIsCached(order, tables.Keys, i);
        NextWanted(before, order, i, None);
        if tables[t].partition.ListPartition? {
          var list := tables[t].partition;
          var added := list.partitions[p := SinglePartition(values, map[])];
          var table := tables[t].(partition := list.(partitions := added));
          tables := tables[t := table];
          assert tables.Keys == old(tables).Keys;
          WritePartition(table);
          return Success;
        }
      }
      NothingWanted(before, None);
      return NotFound;
    }

    method AddPartitionConstraint(p: string, key: string, value: string) returns (status: Status)
      requires Valid()
      modifies this`tables, db`kv
      ensures Valid()
      ensures status == if FirstWanted(old(Now()), old(order), Some(p)).Some? then Success else NotFound
      ensures Now() == if status == Success then Apply(dumps, old(Now()), Constrained(p, key, value)) else old(Now())
    {
      hide IsOrder, FirstWanted, PutPartitions, PartitionNames;
      ghost var before := Now();
      assert order[0..] == order;
      for i := 0 to |order|
        invariant Now() == before && Valid()
        invariant FirstWanted(before, order, Some(p)) == FirstWanted(before, order[i..], Some(p))
      {
        var t := order[i];
        OrderedIsCached(order, tables.Keys, i);
        NextWanted(before, order, i, Some(p));
        if tables[t].partition.ListPartition? {
          var list := tables[t].partition;
          if p in list.partitions {
            var single := list.partitions[p];
            if key !in single.constraints {
              single := single.(constraints := single.constraints[key := value]);
            }
            var table := tables[t].(partition := list.(partitions := list.partitions[p := single]));
            tables := tables[t := table];
            assert tables.Keys == old(tables).Keys;
            WritePartition(table);
            return Success;
          }
        }
      }
      NothingWanted(before, Some(p));
      return NotFound;
    }

    /** Rewrites every partition of the table, in the order of their names. */
    method WritePartition(table: Table)
      requires table.partition.ListPartition?
      modifies db`kv
      ensures db.kv == PutPartitions(dumps, old(db.kv), table, PartitionNames(table))
    {
      var ahead := table.partition.partitions.Keys;
      ghost var done: seq<string> := [];
      while ahead != {}
        invariant ahead <= table.partition.partitions.Keys
        invariant forall p :: p in done <==> p in table.partition.partitions.Keys - ahead
        invariant StrictlySorted(done) && forall p, q :: p in done && q in ahead ==> Less(p, q)
        invariant db.kv == PutPartitions(dumps, old(db.kv), table, done)
      {
        var first := RocksDB.FirstOf(ahead);
        var p := first.value;
        SystemShapes();
        db.WriteRow(SystemPartitions(), PartitionRow(dumps, table, p));
        assert (done + [p])[..|done|] == done;
        forall i, j | 0 <= i < j < |done + [p]|
          ensures Less((done + [p])[i], (done + [p])[j])
        {
          assert j < |done| || ((done + [p])[j] == p && done[i] in done);
        }
        done, ahead := done + [p], ahead - {p};
      }
      SortedIsUnique(done, PartitionNames(table));
    }
  }

  function InitialTables(): map<string, Table> {
    map[SystemTables().name := SystemTables(), SystemPartitions().name := SystemPartitions()]
  }

  lemma {:induction false} WithoutAbsent(order: seq<string>, name: string)
    requires name !in order
    ensures Without(order, name) == order
  {
    if order != [] {
      assert order == [order[0]] + order[1..];
      WithoutAbsent(order[1..], name);
    }
  }

  lemma PutFirst(s: State, n: string, p: Option<string>) returns (order: seq<string>)
    requires IsOrder(s.order, s.tables.Keys) && IsWanted(s, p, n)
    ensures IsOrder(order, s.tables.Keys) && FirstWanted(s, order, p) == Some(n)
  {
    hide IsWanted, Without;
    WantedIsCached(s, p, n);
    order := [n] + Without(s.order, n);
    WithoutIsOrder(s.order, s.tables.Keys, n);
    assert order[0] == n && forall i :: 1 <= i < |order| ==> order[i] == Without(s.order, n)[i - 1];
    NextWanted(s, order, 0, p);
    assert order[0..] == order;
  }

  lemma WantedIsCached(s: State, p: Option<string>, n: string)
    requires IsWanted(s, p, n)
    ensures n in s.tables.Keys
  {
  }

  lemma WantedIsFound(s: State, order: seq<string>, p: Option<string>, n: string)
    requires IsOrder(order, s.tables.Keys) && IsWanted(s, p, n)
    ensures FirstWanted(s, order, p).Some? && IsWanted(s, p, FirstWanted(s, order, p).value)
  {
    hide IsWanted, FirstWanted;
    WantedIsCached(s, p, n);
    assert n in order;
  }

  /** The table that a caller names is the one changed, wherever the hash table puts
      it, exactly when it is list-partitioned and no other table is (or, for a
      constraint, exactly when it alone has the partition). */
  lemma NamedTableIsChanged(s: State, asked: string, p: Option<string>)
    requires IsOrder(s.order, s.tables.Keys)
    ensures (forall order :: IsOrder(order, s.tables.Keys) ==> FirstWanted(s, order, p) == Some(asked)) <==>
            IsWanted(s, p, asked) && forall n :: IsWanted(s, p, n) ==> n == asked
  {
    hide IsWanted, FirstWanted, IsOrder;
    if forall order :: IsOrder(order, s.tables.Keys) ==> FirstWanted(s, order, p) == Some(asked) {
      assert FirstWanted(s, s.order, p) == Some(asked);
      forall n | IsWanted(s, p, n)
        ensures n == asked
      {
        var order := PutFirst(s, n, p);
      }
    }
    if IsWanted(s, p, asked) && forall n :: IsWanted(s, p, n) ==> n == asked {
      forall order | IsOrder(order, s.tables.Keys)
        ensures FirstWanted(s, order, p) == Some(asked)
      {
        WantedIsFound(s, order, p, asked);
      }
    }
  }
}
