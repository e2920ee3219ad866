/** The column-per-key store refines a plain map from tables to primary keys to
    rows: after any history of row writes, a query answers the logical table. */
module RowStore {
  import opened Wrappers
  import opened ByteOrder
  import opened Decimal
  import opened Schema
  import opened Rocks
  import opened Query

  /** Rows by encoded primary key. */
  type Rows = map<string, seq<Datum>>

  type Database = map<string, Rows>

  /** The columns of each table; they stay fixed over a history. */
  type Schemas = map<string, seq<Column>>

  datatype Write = Write(table: string, values: seq<Datum>)

  predicate SlashFree(s: string) {
    '/' !in s
  }

  ghost predicate WellFormedSchemas(schemas: Schemas) {
    forall t :: t in schemas ==>
      SlashFree(t) && PkIndex(schemas[t]) >= 0 && |schemas[t]| <= INT32_MAX
  }

  ghost predicate Typed(columns: seq<Column>, row: seq<Datum>) {
    |row| == |columns| && forall i :: 0 <= i < |row| ==> HasType(row[i], columns[i].ty)
  }

  ghost predicate Legal(schemas: Schemas, w: Write) {
    && w.table in schemas
    && PkIndex(schemas[w.table]) >= 0
    && Typed(schemas[w.table], w.values)
    && SlashFree(PkOf(schemas[w.table], w.values))
  }

  function PkOf(columns: seq<Column>, row: seq<Datum>): string
    requires PkIndex(columns) >= 0 && |columns| == |row|
  {
    Encode(row[PkIndex(columns)])
  }

  /** Integer keys are always free of slashes. */
  lemma IntegerKeysAreLegal(columns: seq<Column>, row: seq<Datum>)
    requires Typed(columns, row) && PkIndex(columns) >= 0 && columns[PkIndex(columns)].ty == Int64
    ensures SlashFree(PkOf(columns, row))
  {
    PrintedHasNoSlash(row[PkIndex(columns)].i);
  }

  /** What a history of writes does to the store ... */
  ghost function StoreAfter(schemas: Schemas, writes: seq<Write>): map<string, string>
    requires WellFormedSchemas(schemas)
    requires forall w :: w in writes ==> Legal(schemas, w)
  {
    if writes == [] then map[]
    else
      var w := writes[|writes| - 1];
      assert Legal(schemas, w) by { assert w in writes; }
      PutRow(StoreAfter(schemas, writes[..|writes| - 1]),
             Table(w.table, schemas[w.table], NullPartition), EncodeAll(w.values))
  }

  /** ... and to the logical tables: the last write of a primary key wins. */
  ghost function DatabaseAfter(schemas: Schemas, writes: seq<Write>): Database
    requires forall w :: w in writes ==> Legal(schemas, w)
  {
    if writes == [] then map[]
    else
      var w := writes[|writes| - 1];
      assert Legal(schemas, w) by { assert w in writes; }
      Upsert(DatabaseAfter(schemas, writes[..|writes| - 1]), w.table, PkOf(schemas[w.table], w.values), w.values)
  }

  function RowsOf(db: Database, table: string): Rows {
    if table in db then db[table] else map[]
  }

  function Upsert(db: Database, table: string, pk: string, row: seq<Datum>): Database {
    db[table := RowsOf(db, table)[pk := row]]
  }

  // ---------------------------------------------------------------------
  // The representation invariant
  // ---------------------------------------------------------------------

  ghost predicate WellFormed(schemas: Schemas, db: Database) {
    forall t, pk :: t in db && pk in db[t] ==>
      t in schemas && SlashFree(pk) && Typed(schemas[t], db[t][pk])
  }

  ghost predicate Holds(db: Database, table: string, pk: string, column: nat) {
    table in db && pk in db[table] && column < |db[table][pk]|
  }

  /** The store holds one pair per cell of the logical tables, and nothing else. */
  ghost predicate Represents(kv: map<string, string>, db: Database) {
    CellsPresent(kv, db) && OnlyCells(kv, db)
  }

  ghost predicate CellsPresent(kv: map<string, string>, db: Database) {
    forall t, pk, i: nat :: Holds(db, t, pk, i) ==>
      Key(t, pk, i) in kv && kv[Key(t, pk, i)] == Encode(db[t][pk][i])
  }

  ghost predicate OnlyCells(kv: map<string, string>, db: Database) {
    forall k :: k in kv ==> IsKeyOf(db, k)
  }

  ghost predicate IsKeyOf(db: Database, k: string) {
    exists t, pk, i: nat :: Holds(db, t, pk, i) && k == Key(t, pk, i)
  }

  lemma KeyIsInjective(t: string, p: string, i: nat, u: string, q: string, j: nat)
    requires SlashFree(t) && SlashFree(p) && SlashFree(u) && SlashFree(q)
    requires i <= INT32_MAX && j <= INT32_MAX
    requires Key(t, p, i) == Key(u, q, j)
    ensures t == u && p == q && i == j
  {
    ParseInvertsKey(t, p, i);
    ParseInvertsKey(u, q, j);
  }

  /** `after` is `kv` with exactly the column keys of one primary key set to `cells`. */
  ghost predicate CellsWritten(
      kv: map<string, string>, after: map<string, string>, table: string, pk: string, cells: seq<string>)
  {
    && (forall i: nat :: i < |cells| ==> Key(table, pk, i) in after && after[Key(table, pk, i)] == cells[i])
    && (forall k :: OtherKey(table, pk, |cells|, k) ==>
          (k in after <==> k in kv) && (k in kv ==> after[k] == kv[k]))
  }

  ghost predicate OtherKey(table: string, pk: string, width: nat, k: string) {
    forall i: nat :: i < width ==> k != Key(table, pk, i)
  }

  lemma {:induction false} PutCellsEffect(kv: map<string, string>, table: string, pk: string, cells: seq<string>)
    ensures CellsWritten(kv, PutCells(kv, table, pk, cells), table, pk, cells)
  {
    hide Key, CellsWritten;
    if cells != [] {
      var n := |cells| - 1;
      PutCellsEffect(kv, table, pk, cells[..n]);
      OneMoreCell(kv, PutCells(kv, table, pk, cells[..n]), table, pk, cells, n);
    } else {
      NoCells(kv, table, pk);
    }
  }

  lemma NoCells(kv: map<string, string>, table: string, pk: string)
    ensures CellsWritten(kv, kv, table, pk, [])
  {
  }

  lemma OneMoreCell(
      kv: map<string, string>, mid: map<string, string>, table: string, pk: string, cells: seq<string>, n: nat)
    requires |cells| == n + 1 && CellsWritten(kv, mid, table, pk, cells[..n])
    ensures CellsWritten(kv, mid[Key(table, pk, n) := cells[n]], table, pk, cells)
  {
    hide Key;
    var after := mid[Key(table, pk, n) := cells[n]];
    forall i: nat | i < |cells|
      ensures Key(table, pk, i) in after && after[Key(table, pk, i)] == cells[i]
    {
      if Key(table, pk, i) == Key(table, pk, n) {
        SameRowKeys(table, pk, i, n);
      } else {
        assert i < n;
      }
    }
    forall k | OtherKey(table, pk, |cells|, k)
      ensures (k in after <==> k in kv) && (k in kv ==> after[k] == kv[k])
    {
      assert OtherKey(table, pk, n, k) && k != Key(table, pk, n);
    }
  }

  lemma SameRowKeys(table: string, pk: string, i: nat, j: nat)
    requires Key(table, pk, i) == Key(table, pk, j)
    ensures i == j
  {
    var pre := "/" + table + "/" + pk + "/column_";
    assert Key(table, pk, i)[|pre|..] == ToString(i);
    assert Key(table, pk, j)[|pre|..] == ToString(j);
    PrintIsInjective(i, j);
  }

  /** One row write keeps the representation, and changes no other row or table. */
  lemma WriteKeepsRepresentation(
      schemas: Schemas, kv: map<string, string>, db: Database, table: Table, row: seq<Datum>)
    requires WellFormedSchemas(schemas) && WellFormed(schemas, db) && Represents(kv, db)
    requires table.name in schemas && schemas[table.name] == table.columns
    requires Legal(schemas, Write(table.name, row))
    ensures var pk := PkOf(table.columns, row);
            WellFormed(schemas, Upsert(db, table.name, pk, row)) &&
            Represents(PutRow(kv, table, EncodeAll(row)), Upsert(db, table.name, pk, row))
  {
    hide Key, Encode, SlashFree, HasType, Represents, CellsWritten, PutCells, WellFormed, WellFormedSchemas;
    var name, pk := table.name, PkOf(table.columns, row);
    var cells := EncodeAll(row);
    assert PutRow(kv, table, cells) == PutCells(kv, name, pk, cells) by {
      assert cells[..|table.columns|] == cells;
    }
    PutCellsEffect(kv, name, pk, cells);
    UpsertIsWellFormed(schemas, db, name, pk, row);
    UpsertIsRepresented(schemas, kv, PutCells(kv, name, pk, cells), db, name, pk, row);
  }

  lemma UpsertIsWellFormed(schemas: Schemas, db: Database, name: string, pk: string, row: seq<Datum>)
    requires WellFormedSchemas(schemas) && WellFormed(schemas, db)
    requires name in schemas && Typed(schemas[name], row) && SlashFree(pk)
    ensures WellFormed(schemas, Upsert(db, name, pk, row))
  {
    hide SlashFree, Typed, WellFormedSchemas, Upsert;
    var db' := Upsert(db, name, pk, row);
    forall t, q | t in db' && q in db'[t]
      ensures t in schemas && SlashFree(q) && Typed(schemas[t], db'[t][q])
    {
      UpsertedRow(schemas, db, name, pk, row, t, q);
    }
  }

  lemma UpsertedRow(
      schemas: Schemas, db: Database, name: string, pk: string, row: seq<Datum>, t: string, q: string)
    requires WellFormedSchemas(schemas) && WellFormed(schemas, db)
    requires name in schemas && Typed(schemas[name], row) && SlashFree(pk)
    requires var db' := Upsert(db, name, pk, row); t in db' && q in db'[t]
    ensures t in schemas && SlashFree(q) && Typed(schemas[t], Upsert(db, name, pk, row)[t][q])
  {
    hide SlashFree, Typed, WellFormedSchemas, WellFormed;
    if t != name || q != pk {
      StoredNames(schemas, db, t, q);
    }
  }

  lemma UpsertIsRepresented(
      schemas: Schemas, kv: map<string, string>, after: map<string, string>, db: Database,
      name: string, pk: string, row: seq<Datum>)
    requires WellFormedSchemas(schemas) && WellFormed(schemas, db) && Represents(kv, db)
    requires name in schemas && Typed(schemas[name], row) && SlashFree(pk)
    requires CellsWritten(kv, after, name, pk, EncodeAll(row))
    ensures Represents(after, Upsert(db, name, pk, row))
  {
    hide Key, Encode, SlashFree, HasType, WellFormed, WellFormedSchemas, OnlyCells;
    var db' := Upsert(db, name, pk, row);
    forall t, q, i: nat | Holds(db', t, q, i)
      ensures Key(t, q, i) in after && after[Key(t, q, i)] == Encode(db'[t][q][i])
    {
      if t != name || q != pk {
        assert Holds(db, t, q, i);
        OtherRowKey(schemas, db, name, pk, |row|, t, q, i);
      }
    }
    NothingElseIsStored(schemas, kv, after, db, name, pk, row);
  }

  lemma NothingElseIsStored(
      schemas: Schemas, kv: map<string, string>, after: map<string, string>, db: Database,
      name: string, pk: string, row: seq<Datum>)
    requires WellFormedSchemas(schemas) && WellFormed(schemas, db) && OnlyCells(kv, db)
    requires name in schemas && |schemas[name]| == |row|
    requires CellsWritten(kv, after, name, pk, EncodeAll(row))
    ensures OnlyCells(after, Upsert(db, name, pk, row))
  {
    hide Key, Encode, SlashFree, HasType, WellFormed, WellFormedSchemas;
    var db' := Upsert(db, name, pk, row);
    forall k | k in after
      ensures IsKeyOf(db', k)
    {
      if OtherKey(name, pk, |row|, k) {
        assert k in kv;
        var t, q, i: nat :| Holds(db, t, q, i) && k == Key(t, q, i);
        StillHolds(schemas, db, name, pk, row, t, q, i);
      } else {
        var i: nat :| i < |row| && k == Key(name, pk, i);
        assert Holds(db', name, pk, i);
      }
    }
  }

  lemma StillHolds(
      schemas: Schemas, db: Database, name: string, pk: string, row: seq<Datum>, t: string, q: string, i: nat)
    requires WellFormedSchemas(schemas) && WellFormed(schemas, db)
    requires name in schemas && |schemas[name]| == |row|
    requires Holds(db, t, q, i)
    ensures Holds(Upsert(db, name, pk, row), t, q, i)
  {
    StoredNames(schemas, db, t, q);
  }

  lemma OtherRowKey(
      schemas: Schemas, db: Database, name: string, pk: string, width: nat, t: string, q: string, i: nat)
    requires WellFormedSchemas(schemas) && WellFormed(schemas, db)
    requires name in schemas && width == |schemas[name]| && SlashFree(pk)
    requires Holds(db, t, q, i) && (t != name || q != pk)
    ensures OtherKey(name, pk, width, Key(t, q, i))
  {
    hide Key, SlashFree, HasType;
    StoredNames(schemas, db, t, q);
    forall j: nat | j < width
      ensures Key(t, q, i) != Key(name, pk, j)
    {
      if Key(t, q, i) == Key(name, pk, j) {
        KeyIsInjective(t, q, i, name, pk, j);
      }
    }
  }

  /** After any history the store represents the logical tables. */
  lemma {:induction false} HistoryIsRepresented(schemas: Schemas, writes: seq<Write>)
    requires WellFormedSchemas(schemas)
    requires forall w :: w in writes ==> Legal(schemas, w)
    ensures WellFormed(schemas, DatabaseAfter(schemas, writes))
    ensures Represents(StoreAfter(schemas, writes), DatabaseAfter(schemas, writes))
  {
    if writes != [] {
      var before, w := writes[..|writes| - 1], writes[|writes| - 1];
      assert w in writes;
      HistoryIsRepresented(schemas, before);
      WriteKeepsRepresentation(schemas, StoreAfter(schemas, before), DatabaseAfter(schemas, before),
                               Table(w.table, schemas[w.table], NullPartition), w.values);
    }
  }

  // ---------------------------------------------------------------------
  // The order of rows
  // ---------------------------------------------------------------------

  predicate RowLess(p: string, q: string) {
    Less(p + "/", q + "/")
  }

  ghost predicate RowSorted(pks: seq<string>) {
    forall i, j :: 0 <= i < j < |pks| ==> RowLess(pks[i], pks[j])
  }

  function WithSlash(pks: seq<string>): (s: seq<string>)
    ensures |s| == |pks| && forall i :: 0 <= i < |pks| ==> s[i] == pks[i] + "/"
  {
    seq(|pks|, i requires 0 <= i < |pks| => pks[i] + "/")
  }

  /** Primary keys in the order in which their rows come out. */
  ghost function RowOrder(pks: set<string>): (order: seq<string>)
    ensures RowSorted(order)
    ensures forall p :: p in order <==> p in pks
  {
    var marked := InOrder(set p | p in pks :: p + "/");
    assert forall i :: 0 <= i < |marked| ==> marked[i] in marked;
    var order := seq(|marked|, i requires 0 <= i < |marked| => marked[i][..|marked[i]| - 1]);
    assert forall i :: 0 <= i < |marked| ==> marked[i] == order[i] + "/" && order[i] in pks by {
      forall i | 0 <= i < |marked|
        ensures marked[i] == order[i] + "/" && order[i] in pks
      {
        var p :| p in pks && marked[i] == p + "/";
        assert order[i] == p;
      }
    }
    assert forall p :: p in pks ==> p in order by {
      forall p | p in pks
        ensures p in order
      {
        assert p + "/" in marked;
        var i :| 0 <= i < |marked| && marked[i] == p + "/";
        assert order[i] == p;
      }
    }
    order
  }

  lemma RowOrderIsUnique(pks: seq<string>, keys: set<string>)
    requires RowSorted(pks)
    requires forall p :: p in pks <==> p in keys
    ensures pks == RowOrder(keys)
  {
    var order := RowOrder(keys);
    var s, t := WithSlash(pks), WithSlash(order);
    forall x
      ensures x in s <==> x in t
    {
      if x in s {
        var i :| 0 <= i < |s| && s[i] == x;
        assert pks[i] in order;
        var j :| 0 <= j < |order| && order[j] == pks[i];
        assert t[j] == x;
      }
      if x in t {
        var i :| 0 <= i < |t| && t[i] == x;
        assert order[i] in pks;
        var j :| 0 <= j < |pks| && pks[j] == order[i];
        assert s[j] == x;
      }
    }
    SortedIsUnique(s, t);
    forall i | 0 <= i < |pks|
      ensures pks[i] == order[i]
    {
      assert s[i] == t[i];
      assert s[i][..|pks[i]|] == pks[i] && t[i][..|order[i]|] == order[i];
    }
  }

  /** Keys of one column are in the order of their rows. */
  lemma KeyOrderIsRowOrder(table: string, p: string, q: string, column: nat)
    requires SlashFree(p) && SlashFree(q)
    ensures Less(Key(table, p, column), Key(table, q, column)) <==> RowLess(p, q)
  {
    var pre, tail := "/" + table + "/", "column_" + ToString(column);
    var a, b := p + "/", q + "/";
    assert Key(table, p, column) == pre + (a + tail) && Key(table, q, column) == pre + (b + tail);
    CommonPrefix(pre, a + tail, b + tail);
    if p == q {
      LessIsTotal(a + tail, a + tail);
      LessIsTotal(a, a);
    } else {
      if a <= b {
        SlashEndsKey(p, q);
      } else if b <= a {
        SlashEndsKey(q, p);
      }
      SuffixesDoNotMatter(a, b, tail, tail);
    }
  }

  lemma SlashEndsKey(p: string, q: string)
    requires SlashFree(q) && p + "/" <= q + "/"
    ensures p == q
  {
    var a, b := p + "/", q + "/";
    assert b[|p|] == a[|p|] == '/';
    assert forall k :: 0 <= k < |q| ==> b[k] == q[k];
    assert |p| == |q|;
    assert p == a[..|p|] && q == b[..|q|];
  }

  /** Rows do not come out in the order of their primary keys: the two orders
      differ exactly where one key extends the other by a byte below '/'. */
  lemma RowOrderVersusKeyOrder(p: string, q: string)
    requires SlashFree(p) && SlashFree(q) && Less(p, q)
    ensures RowLess(p, q) <==> !(p < q && q[|p|] < '/')
  {
    LessIsTotal(p, q);
    if p < q {
      var rest := q[|p|..];
      assert q + "/" == p + (rest + "/");
      CommonPrefix(p, "/", rest + "/");
      assert q[|p|] in q;
    } else {
      if q <= p {
        PrefixIsFirst(q, p);
      }
      SuffixesDoNotMatter(p, q, "/", "/");
    }
  }

  // ---------------------------------------------------------------------
  // The scan of a represented store
  // ---------------------------------------------------------------------

  lemma PrefixNamesTable(t: string, u: string, pk: string, column: nat)
    requires SlashFree(t) && SlashFree(u)
    requires TablePrefix(t) <= Key(u, pk, column)
    ensures t == u
  {
    var key := Key(u, pk, column);
    var n, m := |t|, |u|;
    assert key == "/" + u + "/" + (pk + "/column_" + ToString(column));
    assert key[1 + m] == '/' && forall k :: 0 <= k < m ==> key[1 + k] == u[k];
    assert key[1 + n] == '/' && forall k :: 0 <= k < n ==> key[1 + k] == t[k] by {
      assert forall k :: 0 <= k < n ==> TablePrefix(t)[1 + k] == t[k];
    }
    assert n == m;
  }

  lemma StoredNames(schemas: Schemas, db: Database, t: string, pk: string)
    requires WellFormedSchemas(schemas) && WellFormed(schemas, db)
    requires t in db && pk in db[t]
    ensures t in schemas && SlashFree(t) && SlashFree(pk) && Typed(schemas[t], db[t][pk])
  {
    hide SlashFree, HasType, Typed;
    assert t in schemas;
  }

  lemma KeyHasPrefix(t: string, pk: string, column: nat)
    ensures TablePrefix(t) <= TablePrefix(t) + pk + "/" <= Key(t, pk, column)
  {
  }

  /** Every pair of a scan is one cell of the scanned table. */
  ghost predicate IsCell(table: string, rows: Rows, pair: (string, string)) {
    exists pk, i: nat :: pk in rows && i < |rows[pk]| && pair == (Key(table, pk, i), Encode(rows[pk][i]))
  }

  /** Scans of different tables never mix, and a scan misses no cell. */
  lemma ScanIsTheTable(schemas: Schemas, kv: map<string, string>, db: Database, t: string)
    requires WellFormedSchemas(schemas) && WellFormed(schemas, db) && Represents(kv, db)
    requires t in schemas
    ensures forall j :: 0 <= j < |Scan(kv, TablePrefix(t))| ==> IsCell(t, RowsOf(db, t), Scan(kv, TablePrefix(t))[j])
    ensures forall pk, i: nat :: pk in RowsOf(db, t) && i < |RowsOf(db, t)[pk]| ==>
              Key(t, pk, i) in Keys(Scan(kv, TablePrefix(t)))
  {
    hide Key, Encode, SlashFree, HasType, TablePrefix;
    var scan := Scan(kv, TablePrefix(t));
    forall j | 0 <= j < |scan|
      ensures IsCell(t, RowsOf(db, t), scan[j])
    {
      var k := scan[j].0;
      assert IsKeyOf(db, k);
      var u, pk, i: nat :| Holds(db, u, pk, i) && k == Key(u, pk, i);
      StoredNames(schemas, db, u, pk);
      PrefixNamesTable(t, u, pk, i);
    }
    forall pk, i: nat | pk in RowsOf(db, t) && i < |RowsOf(db, t)[pk]|
      ensures Key(t, pk, i) in Keys(scan)
    {
      var k := Key(t, pk, i);
      assert Holds(db, t, pk, i);
      KeyHasPrefix(t, pk, i);
      var j :| 0 <= j < |scan| && scan[j] == (k, kv[k]);
      assert Keys(scan)[j] == k;
    }
  }

  /** The keys of one row form one unbroken block of the scan. */
  lemma RowIsOneBlock(
      schemas: Schemas, kv: map<string, string>, db: Database, t: string, pk: string,
      a: nat, b: nat, keys: seq<string>, i: nat, j: nat, l: nat)
    requires WellFormedSchemas(schemas) && WellFormed(schemas, db) && Represents(kv, db)
    requires t in schemas && SlashFree(pk)
    requires keys == Keys(Scan(kv, TablePrefix(t))) && i <= j <= l < |keys|
    requires keys[i] == Key(t, pk, a) && keys[l] == Key(t, pk, b)
    ensures exists c: nat :: keys[j] == Key(t, pk, c)
  {
    hide Key, Encode, SlashFree, HasType, TablePrefix, Represents, StrictlySorted, IsCell;
    ScanIsTheTable(schemas, kv, db, t);
    KeyHasPrefix(t, pk, a);
    KeyHasPrefix(t, pk, b);
    PrefixBlock(TablePrefix(t) + pk + "/", keys, i, j, l);
    CellInBlock(schemas, db, t, pk, Scan(kv, TablePrefix(t))[j]);
  }

  lemma CellInBlock(schemas: Schemas, db: Database, t: string, pk: string, pair: (string, string))
    requires WellFormedSchemas(schemas) && WellFormed(schemas, db)
    requires SlashFree(pk) && IsCell(t, RowsOf(db, t), pair)
    requires TablePrefix(t) + pk + "/" <= pair.0
    ensures exists c: nat :: pair.0 == Key(t, pk, c)
  {
    hide Key, Encode, SlashFree, HasType, TablePrefix;
    var rows := RowsOf(db, t);
    var q, c: nat :| q in rows && c < |rows[q]| && pair == (Key(t, q, c), Encode(rows[q][c]));
    StoredNames(schemas, db, t, q);
    SameBlock(t, pk, q, c);
  }

  lemma SameBlock(t: string, pk: string, q: string, c: nat)
    requires SlashFree(pk) && SlashFree(q)
    requires TablePrefix(t) + pk + "/" <= Key(t, q, c)
    ensures pk == q
  {
    var pre := TablePrefix(t);
    var tail := "column_" + ToString(c);
    var rest := Key(t, q, c)[|pre|..];
    assert rest == q + "/" + tail;
    assert pk + "/" <= rest by {
      assert (pre + pk + "/")[|pre|..] == pk + "/";
    }
    var n, m := |pk|, |q|;
    assert rest[m] == '/' && forall k :: 0 <= k < m ==> rest[k] == q[k];
    assert rest[n] == '/' && forall k :: 0 <= k < n ==> rest[k] == pk[k] by {
      assert forall k :: 0 <= k < n ==> (pk + "/")[k] == pk[k];
    }
    assert n == m;
  }

  // ---------------------------------------------------------------------
  // The query
  // ---------------------------------------------------------------------

  /** The primary keys of the pairs that belong to one column, in scan order. */
  ghost function Picked(pairs: Pairs, column: nat): seq<string> {
    if pairs == [] then []
    else
      var before := Picked(pairs[..|pairs| - 1], column);
      match ParseKey(pairs[|pairs| - 1].0)
      case Ok((_, pk, id)) => if id == column then before + [pk] else before
      case Err(_) => before
  }

  ghost predicate AllCells(columns: seq<Column>, table: string, rows: Rows, pairs: Pairs) {
    && SlashFree(table) && |columns| <= INT32_MAX
    && (forall pk :: pk in rows ==> SlashFree(pk) && Typed(columns, rows[pk]))
    && (forall j :: 0 <= j < |pairs| ==> IsCell(table, rows, pairs[j]))
  }

  lemma PickedStep(columns: seq<Column>, table: string, rows: Rows, pairs: Pairs) returns (pk: string, i: nat)
    requires pairs != [] && AllCells(columns, table, rows, pairs)
    ensures pk in rows && i < |columns| && SlashFree(pk)
    ensures pairs[|pairs| - 1] == (Key(table, pk, i), Encode(rows[pk][i]))
    ensures ParseKey(pairs[|pairs| - 1].0) == Ok((table, pk, i))
    ensures AllCells(columns, table, rows, pairs[..|pairs| - 1])
    ensures forall c: nat :: Picked(pairs, c) == Picked(pairs[..|pairs| - 1], c) + if c == i then [pk] else []
  {
    hide Key, Encode, ParseKey;
    assert IsCell(table, rows, pairs[|pairs| - 1]);
    var p, n: nat :| p in rows && n < |rows[p]| && pairs[|pairs| - 1] == (Key(table, p, n), Encode(rows[p][n]));
    pk, i := p, n;
    ParseInvertsKey(table, pk, i);
    forall c: nat
      ensures Picked(pairs, c) == Picked(pairs[..|pairs| - 1], c) + if c == i then [pk] else []
    {
    }
  }

  ghost function ColumnOf(rows: Rows, pks: seq<string>, column: nat): (cells: seq<Datum>)
    requires forall r :: 0 <= r < |pks| ==> pks[r] in rows && column < |rows[pks[r]]|
    ensures |cells| == |pks| && forall r :: 0 <= r < |pks| ==> cells[r] == rows[pks[r]][column]
  {
    seq(|pks|, r requires 0 <= r < |pks| => rows[pks[r]][column])
  }

  /** Each builder ends up with the cells of its column, in the order picked. */
  lemma {:induction false} CollectGivesColumns(columns: seq<Column>, table: string, rows: Rows, pairs: Pairs)
    requires AllCells(columns, table, rows, pairs)
    ensures forall c, r :: 0 <= c < |columns| && 0 <= r < |Picked(pairs, c)| ==> Picked(pairs, c)[r] in rows
    ensures Collect(columns, pairs).Ok?
    ensures forall c :: 0 <= c < |columns| ==>
              Collect(columns, pairs).value[c] == ColumnOf(rows, Picked(pairs, c), c)
  {
    hide Key, Encode, ParseKey, Decode;
    if pairs != [] {
      var pk, i := PickedStep(columns, table, rows, pairs);
      CollectGivesColumns(columns, table, rows, pairs[..|pairs| - 1]);
      DecodeInvertsEncode(rows[pk][i], columns[i].ty);
      var before := Collect(columns, pairs[..|pairs| - 1]).value;
      assert Collect(columns, pairs) == Ok(before[i := before[i] + [rows[pk][i]]]);
    }
  }

  /** The keys picked for a column are sorted, and are those whose cell was scanned. */
  lemma {:induction false} PickedIsSorted(columns: seq<Column>, table: string, rows: Rows, pairs: Pairs, column: nat)
    requires AllCells(columns, table, rows, pairs)
    requires StrictlySorted(Keys(pairs)) && column < |columns|
    ensures RowSorted(Picked(pairs, column))
    ensures forall p :: p in Picked(pairs, column) ==> p in rows && Key(table, p, column) in Keys(pairs)
    ensures forall p :: p in rows && Key(table, p, column) in Keys(pairs) ==> p in Picked(pairs, column)
  {
    hide Key, Encode, ParseKey, SlashFree, HasType, IsCell, Less, RowLess;
    if pairs != [] {
      var init := pairs[..|pairs| - 1];
      var pk, i := PickedStep(columns, table, rows, pairs);
      assert Keys(pairs) == Keys(init) + [Key(table, pk, i)];
      assert StrictlySorted(Keys(init)) by {
        assert forall j :: 0 <= j < |init| ==> Keys(init)[j] == Keys(pairs)[j];
      }
      PickedIsSorted(columns, table, rows, init, column);
      var before, after := Picked(init, column), Picked(pairs, column);
      forall p | p in rows && Key(table, p, column) == Key(table, pk, i)
        ensures p == pk && column == i
      {
        KeyIsInjective(table, p, column, table, pk, i);
      }
      if column == i {
        forall r | 0 <= r < |before|
          ensures RowLess(before[r], pk)
        {
          assert before[r] in before;
          var k := Key(table, before[r], column);
          var j :| 0 <= j < |Keys(init)| && Keys(init)[j] == k;
          assert Less(Keys(pairs)[j], Keys(pairs)[|init|]);
          KeyOrderIsRowOrder(table, before[r], pk, column);
        }
        assert after == before + [pk];
        assert after[|before|] == pk;
      }
    }
  }

  /** The logical table as the query presents it. */
  ghost function LogicalBatch(columns: seq<Column>, rows: Rows): Batch
    requires forall pk :: pk in rows ==> |rows[pk]| == |columns|
  {
    var order := RowOrder(rows.Keys);
    assert forall r :: 0 <= r < |order| ==> order[r] in order;
    Batch(columns, seq(|columns|, c requires 0 <= c < |columns| => ColumnOf(rows, order, c)), |order|)
  }

  /** A query over a store that represents logical tables answers the logical
      table: one row per primary key, aligned across columns, in row order. */
  lemma QueryAnswersTable(schemas: Schemas, kv: map<string, string>, db: Database, table: Table)
    requires WellFormedSchemas(schemas) && WellFormed(schemas, db) && Represents(kv, db)
    requires table.name in schemas && schemas[table.name] == table.columns
    ensures forall pk :: pk in RowsOf(db, table.name) ==> |RowsOf(db, table.name)[pk]| == |table.columns|
    ensures Answer(kv, Some(table)) == Ok(LogicalBatch(table.columns, RowsOf(db, table.name)))
  {
    hide Key, Encode, ParseKey, Decode, SlashFree, TablePrefix, Represents, StrictlySorted, IsCell;
    var t, columns, rows := table.name, table.columns, RowsOf(db, table.name);
    var pairs := Scan(kv, TablePrefix(t));
    ScanIsTheTable(schemas, kv, db, t);
    assert AllCells(columns, t, rows, pairs);
    CollectGivesColumns(columns, t, rows, pairs);
    var data := Collect(columns, pairs).value;
    var order := RowOrder(rows.Keys);
    forall c | 0 <= c < |columns|
      ensures Picked(pairs, c) == order
    {
      PickedIsSorted(columns, t, rows, pairs, c);
      RowOrderIsUnique(Picked(pairs, c), rows.Keys);
    }
    assert data == LogicalBatch(columns, rows).data;
  }

  /** After any history of row writes, `SELECT * FROM t` is the logical table. */
  lemma QueryAfterHistory(schemas: Schemas, writes: seq<Write>, table: Table)
    requires WellFormedSchemas(schemas)
    requires forall w :: w in writes ==> Legal(schemas, w)
    requires table.name in schemas && schemas[table.name] == table.columns
    ensures var rows := RowsOf(DatabaseAfter(schemas, writes), table.name);
            (forall pk :: pk in rows ==> |rows[pk]| == |table.columns|) &&
            Answer(StoreAfter(schemas, writes), Some(table)) == Ok(LogicalBatch(table.columns, rows))
  {
    HistoryIsRepresented(schemas, writes);
    QueryAnswersTable(schemas, StoreAfter(schemas, writes), DatabaseAfter(schemas, writes), table);
  }

  // ---------------------------------------------------------------------
  // The logical tables in terms of the writes
  // ---------------------------------------------------------------------

  /** The primary key is the first column that is marked as such. */
  ghost predicate IsPkColumn(columns: seq<Column>, c: nat) {
    c < |columns| && columns[c].isPrimaryKey && forall i :: 0 <= i < c ==> !columns[i].isPrimaryKey
  }

  ghost predicate WritesTo(schemas: Schemas, w: Write, table: string, pk: string) {
    && w.table == table && table in schemas
    && exists c: nat :: IsPkColumn(schemas[table], c) && c < |w.values| && Encode(w.values[c]) == pk
  }

  /** Write number `i` is the last one with this key. */
  ghost predicate IsLastAt(schemas: Schemas, writes: seq<Write>, table: string, pk: string, i: int) {
    && 0 <= i < |writes| && WritesTo(schemas, writes[i], table, pk)
    && forall j :: i < j < |writes| ==> !WritesTo(schemas, writes[j], table, pk)
  }

  ghost predicate IsLastPut(schemas: Schemas, writes: seq<Write>, table: string, pk: string, row: seq<Datum>) {
    exists i :: IsLastAt(schemas, writes, table, pk, i) && writes[i].values == row
  }

  lemma WritesToPkOf(schemas: Schemas, w: Write, table: string, pk: string)
    requires Legal(schemas, w)
    ensures WritesTo(schemas, w, table, pk) <==> w.table == table && pk == PkOf(schemas[w.table], w.values)
  {
    hide Encode, SlashFree, HasType;
    assert forall c: nat :: IsPkColumn(schemas[w.table], c) <==> c == PkIndex(schemas[w.table]);
  }

  lemma LastPutStep(schemas: Schemas, writes: seq<Write>, table: string, pk: string, row: seq<Datum>)
    requires writes != []
    ensures var n := |writes| - 1;
            IsLastPut(schemas, writes, table, pk, row) <==>
            if WritesTo(schemas, writes[n], table, pk) then writes[n].values == row
            else IsLastPut(schemas, writes[..n], table, pk, row)
  {
    hide WritesTo;
    var n := |writes| - 1;
    var before := writes[..n];
    if WritesTo(schemas, writes[n], table, pk) {
      assert IsLastAt(schemas, writes, table, pk, n);
      assert forall i :: IsLastAt(schemas, writes, table, pk, i) ==> i == n;
    } else {
      assert forall i :: IsLastAt(schemas, writes, table, pk, i) <==> IsLastAt(schemas, before, table, pk, i);
    }
  }

  /** The logical tables hold, for each key ever written, the row of the last write
      that had it, and nothing else. */
  lemma {:induction false} DatabaseIsLastWrites(
      schemas: Schemas, writes: seq<Write>, table: string, pk: string, row: seq<Datum>)
    requires forall w :: w in writes ==> Legal(schemas, w)
    ensures var rows := RowsOf(DatabaseAfter(schemas, writes), table);
            (pk in rows && rows[pk] == row) <==> IsLastPut(schemas, writes, table, pk, row)
  {
    hide Legal, PkOf, IsLastPut, WritesTo;
    if writes == [] {
      NothingWasPut(schemas, table, pk, row);
    } else {
      assert Legal(schemas, writes[|writes| - 1]);
      WritesToPkOf(schemas, writes[|writes| - 1], table, pk);
      DatabaseIsLastWrites(schemas, writes[..|writes| - 1], table, pk, row);
      LastPutStep(schemas, writes, table, pk, row);
    }
  }

  lemma NothingWasPut(schemas: Schemas, table: string, pk: string, row: seq<Datum>)
    ensures !IsLastPut(schemas, [], table, pk, row)
  {
  }

  /** A batch that shows each row of a table once, in row order: cell `c` of batch
      row `r` is cell `c` of the row under one and the same key. */
  ghost predicate Shows(batch: Batch, columns: seq<Column>, rows: Rows, order: seq<string>) {
    && batch.columns == columns && |batch.data| == |columns| && batch.numRows == |order|
    && RowSorted(order) && (forall pk :: pk in order <==> pk in rows)
    && (forall c :: 0 <= c < |columns| ==> |batch.data[c]| == |order|)
    && (forall r :: 0 <= r < |order| ==> order[r] in rows && |rows[order[r]]| == |columns|)
    && (forall c, r :: 0 <= c < |columns| && 0 <= r < |order| ==> batch.data[c][r] == rows[order[r]][c])
  }

  lemma LogicalBatchShows(columns: seq<Column>, rows: Rows)
    requires forall pk :: pk in rows ==> |rows[pk]| == |columns|
    ensures Shows(LogicalBatch(columns, rows), columns, rows, RowOrder(rows.Keys))
  {
    hide RowSorted;
    var order := RowOrder(rows.Keys);
    assert forall r :: 0 <= r < |order| ==> order[r] in order;
  }

  /** What a client sees: after any history of row writes, `SELECT * FROM t` shows
      the last row written under each key, and no other. */
  lemma QueryShowsLastWrites(schemas: Schemas, writes: seq<Write>, table: Table) returns (order: seq<string>, rows: Rows)
    requires WellFormedSchemas(schemas)
    requires forall w :: w in writes ==> Legal(schemas, w)
    requires table.name in schemas && schemas[table.name] == table.columns
    ensures Answer(StoreAfter(schemas, writes), Some(table)).Ok?
    ensures Shows(Answer(StoreAfter(schemas, writes), Some(table)).value, table.columns, rows, order)
    ensures forall pk, row :: (pk in rows && rows[pk] == row) <==> IsLastPut(schemas, writes, table.name, pk, row)
  {
    hide Legal, WellFormedSchemas, StoreAfter, Answer, LogicalBatch, Shows, IsLastPut;
    QueryAfterHistory(schemas, writes, table);
    rows := RowsOf(DatabaseAfter(schemas, writes), table.name);
    order := RowOrder(rows.Keys);
    LogicalBatchShows(table.columns, rows);
    forall pk, row
      ensures (pk in rows && rows[pk] == row) <==> IsLastPut(schemas, writes, table.name, pk, row)
    {
      DatabaseIsLastWrites(schemas, writes, table.name, pk, row);
    }
  }
}
