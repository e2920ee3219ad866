/** `SELECT * FROM t`: the prefix scan of a table, taken apart key by key and
    appended to one builder per column. Nothing here groups by primary key. */
module Query {
  import opened Wrappers
  import opened ByteOrder
  import opened Decimal
  import opened Schema
  import opened Rocks

  datatype QueryError =
    | TableNotFound
    | NoPrimaryKey
    | MalformedKey
    | NumberError(error: ParseError)
    | NoSuchBuilder  // the source indexes the builders without a check

  datatype Batch = Batch(columns: seq<Column>, data: seq<seq<Datum>>, numRows: nat)

  /** The first position of `c` at or after `from`; |s| stands for npos. */
  function IndexOf(s: string, c: char, from: nat): (i: nat)
    requires from <= |s|
    ensures from <= i <= |s|
    ensures i < |s| ==> s[i] == c
    ensures forall k :: from <= k < i ==> s[k] != c
    decreases |s| - from
  {
    if from == |s| || s[from] == c then from else IndexOf(s, c, from + 1)
  }

  /** The parts between the first three slashes, and what follows the third. */
  function SplitKey(key: string): Option<(string, string, string)> {
    var first := IndexOf(key, '/', 0);
    if first == |key| then None else
    var second := IndexOf(key, '/', first + 1);
    if second == |key| then None else
    var third := IndexOf(key, '/', second + 1);
    if third == |key| then None else
    Some((key[first + 1..second], key[second + 1..third], key[third + 1..]))
  }

  function ParseKey(key: string): Result<(string, string, int), QueryError> {
    match SplitKey(key)
    case None => Err(MalformedKey)
    case Some((table, pk, columnPart)) =>
      if !("column_" <= columnPart) then Err(MalformedKey)
      else
        match Stoi(columnPart[7..])
        case Ok(id) => Ok((table, pk, id))
        case Err(e) => Err(NumberError(e))
  }

  lemma KeyShape(table: string, pk: string, tail: string, key: string)
    requires key == "/" + table + "/" + pk + "/" + tail
    ensures |key| == |table| + |pk| + |tail| + 3
    ensures key[0] == '/' && key[1 + |table|] == '/' && key[2 + |table| + |pk|] == '/'
    ensures key[1..1 + |table|] == table
    ensures key[2 + |table|..2 + |table| + |pk|] == pk
    ensures key[3 + |table| + |pk|..] == tail
  {
  }

  lemma SplitSlashFree(table: string, pk: string, tail: string, key: string)
    requires '/' !in table && '/' !in pk
    requires key == "/" + table + "/" + pk + "/" + tail
    ensures SplitKey(key) == Some((table, pk, tail))
  {
    KeyShape(table, pk, tail, key);
    var second, third := 1 + |table|, 2 + |table| + |pk|;
    assert forall k :: 1 <= k < second ==> key[k] == key[1..second][k - 1];
    assert forall k :: second + 1 <= k < third ==> key[k] == key[second + 1..third][k - second - 1];
    assert IndexOf(key, '/', 0) == 0;
    assert IndexOf(key, '/', 1) == second;
    assert IndexOf(key, '/', second + 1) == third;
  }

  lemma SplitWithSlash(table: string, pk: string, tail: string, key: string)
    requires '/' in table || '/' in pk
    requires key == "/" + table + "/" + pk + "/" + tail
    ensures SplitKey(key).Some? ==> (SplitKey(key).value.0, SplitKey(key).value.1) != (table, pk)
  {
    KeyShape(table, pk, tail, key);
    var second, third := 1 + |table|, 2 + |table| + |pk|;
    assert IndexOf(key, '/', 0) == 0;
    if '/' in table {
      var k :| 0 <= k < |table| && table[k] == '/';
      assert key[1..second][k] == '/';
      assert IndexOf(key, '/', 1) <= 1 + k;
    } else {
      assert forall k :: 1 <= k < second ==> key[k] == key[1..second][k - 1];
      assert IndexOf(key, '/', 1) == second;
      var k :| 0 <= k < |pk| && pk[k] == '/';
      assert key[second + 1..third][k] == '/';
      assert IndexOf(key, '/', second + 1) <= second + 1 + k;
    }
  }

  /** `ParseKey` inverts the key format exactly for slash-free names and keys, and
      columns that fit the reader's 32 bits. */
  lemma ParseInvertsKey(table: string, pk: string, column: nat)
    ensures ParseKey(Key(table, pk, column)) == Ok((table, pk, column)) <==>
            '/' !in table && '/' !in pk && column <= INT32_MAX
  {
    var tail := "column_" + ToString(column);
    var key := Key(table, pk, column);
    assert key == "/" + table + "/" + pk + "/" + tail;
    if '/' in table || '/' in pk {
      SplitWithSlash(table, pk, tail, key);
    } else {
      SplitSlashFree(table, pk, tail, key);
      assert tail[7..] == ToString(column);
      ParseInvertsPrint(column, INT32_MIN, INT32_MAX);
    }
  }

  /** How a key is read when its table or primary key holds a slash: from the first
      three parts of `<table>/<pk>`, whatever column was written. */
  function Misread(table: string, pk: string): Result<(string, string, int), QueryError>
    requires '/' in table || '/' in pk
  {
    var (x, y, z) := FirstParts(table, pk);
    if !("column_" <= z) then Err(MalformedKey)
    else
      match Stoi(z[7..])
      case Ok(id) => Ok((x, y, id))
      case Err(e) => Err(NumberError(e))
  }

  function FirstParts(table: string, pk: string): (parts: (string, string, string))
    requires '/' in table || '/' in pk
    ensures '/' !in parts.0 && '/' !in parts.1
    ensures parts.0 + "/" + parts.1 + "/" + parts.2 == table + "/" + pk
  {
    var s := table + "/" + pk;
    assert s[|table|] == '/';
    var first := IndexOf(s, '/', 0);
    assert exists k :: first < k < |s| && s[k] == '/' by {
      TwoSlashes(table, pk, s, first);
    }
    var second := IndexOf(s, '/', first + 1);
    var parts := (s[..first], s[first + 1..second], s[second + 1..]);
    assert forall k :: 0 <= k < first ==> parts.0[k] == s[k];
    assert forall k :: 0 <= k < |parts.1| ==> parts.1[k] == s[first + 1 + k];
    parts
  }

  lemma TwoSlashes(table: string, pk: string, s: string, first: nat)
    requires '/' in table || '/' in pk
    requires s == table + "/" + pk && first < |s| && forall k :: 0 <= k < first ==> s[k] != '/'
    requires s[first] == '/'
    ensures exists k :: first < k < |s| && s[k] == '/'
  {
    assert s[|table|] == '/';
    if '/' in table {
      var k :| 0 <= k < |table| && table[k] == '/';
      assert s[k] == '/' && first <= k;
    } else {
      assert forall k :: 0 <= k < |table| ==> s[k] == table[k];
      var k :| 0 <= k < |pk| && pk[k] == '/';
      assert s[|table| + 1 + k] == '/';
    }
  }

  lemma Regroup(table: string, pk: string, x: string, y: string, z: string, tail: string, key: string)
    requires x + "/" + y + "/" + z == table + "/" + pk
    requires key == "/" + table + "/" + pk + "/" + tail
    ensures key == "/" + x + "/" + y + "/" + (z + "/" + tail)
  {
    var s := table + "/" + pk;
    assert key == "/" + s + "/" + tail;
    assert "/" + (x + "/" + y + "/" + z) + "/" + tail == "/" + x + "/" + y + "/" + (z + "/" + tail);
  }

  lemma SlashedKeyIsMisread(table: string, pk: string, column: nat)
    requires '/' in table || '/' in pk
    ensures ParseKey(Key(table, pk, column)) == Misread(table, pk)
  {
    hide SplitKey, ParseInteger, IndexOf;
    var (x, y, z) := FirstParts(table, pk);
    var tail := "column_" + ToString(column);
    var rest := z + "/" + tail;
    var key := Key(table, pk, column);
    assert key == "/" + table + "/" + pk + "/" + tail;
    Regroup(table, pk, x, y, z, tail, key);
    hide FirstParts;
    SplitSlashFree(x, y, rest, key);
    ColumnPart(z, tail);
    if "column_" <= z {
      SlashEndsNumber(z[7..], tail, INT32_MIN, INT32_MAX);
    }
  }

  lemma ColumnPart(z: string, tail: string)
    ensures "column_" <= z + "/" + tail <==> "column_" <= z
    ensures "column_" <= z ==> (z + "/" + tail)[7..] == z[7..] + "/" + tail
  {
    var rest := z + "/" + tail;
    if |z| < 7 {
      assert rest[|z|] == '/' && "column_"[|z|] != '/';
    } else {
      assert rest[..7] == z[..7];
    }
  }

  /** One turn of the loop over the scanned pairs. */
  function Append(columns: seq<Column>, builders: seq<seq<Datum>>, key: string, value: string):
      Result<seq<seq<Datum>>, QueryError>
    requires |builders| == |columns|
  {
    match ParseKey(key)
    case Err(e) => Err(e)
    case Ok((_, _, id)) =>
      if !(0 <= id < |columns|) then Err(NoSuchBuilder)
      else
        match Decode(value, columns[id].ty)
        case Err(e) => Err(NumberError(e))
        case Ok(d) => Ok(builders[id := builders[id] + [d]])
  }

  /** The builders after the given pairs, or the first error among them. */
  function Collect(columns: seq<Column>, pairs: Pairs): (r: Result<seq<seq<Datum>>, QueryError>)
    ensures r.Ok? ==> |r.value| == |columns|
  {
    if pairs == [] then Ok(seq(|columns|, _ => []))
    else
      match Collect(columns, pairs[..|pairs| - 1])
      case Err(e) => Err(e)
      case Ok(builders) => Append(columns, builders, pairs[|pairs| - 1].0, pairs[|pairs| - 1].1)
  }

  lemma CollectStep(columns: seq<Column>, pairs: Pairs, i: nat, builders: seq<seq<Datum>>)
    requires i < |pairs| && |builders| == |columns|
    requires Collect(columns, pairs[..i]) == Ok(builders)
    ensures Collect(columns, pairs[..i + 1]) == Append(columns, builders, pairs[i].0, pairs[i].1)
  {
    assert pairs[..i + 1][..i] == pairs[..i];
  }

  lemma {:induction false} CollectStopsAtFirstError(columns: seq<Column>, pairs: Pairs, n: nat)
    requires n <= |pairs| && Collect(columns, pairs[..n]).Err?
    ensures Collect(columns, pairs) == Collect(columns, pairs[..n])
    decreases |pairs| - n
  {
    if n < |pairs| {
      assert pairs[..n + 1][..n] == pairs[..n];
      CollectStopsAtFirstError(columns, pairs, n + 1);
    } else {
      assert pairs[..n] == pairs;
    }
  }

  /** What a query answers for a looked-up table over a given store. */
  ghost function Answer(kv: map<string, string>, found: Option<Table>): Result<Batch, QueryError> {
    if found.None? then Err(TableNotFound)
    else
      var columns := found.value.columns;
      if PkIndex(columns) == -1 then Err(NoPrimaryKey)
      else
        match Collect(columns, Scan(kv, TablePrefix(found.value.name)))
        case Err(e) => Err(e)
        case Ok(data) => Ok(Batch(columns, data, |data[0]|))
  }

  function TablePrefix(name: string): string {
    "/" + name + "/"
  }

  method RunQuery(db: RocksDB, found: Option<Table>) returns (r: Result<Batch, QueryError>)
    ensures r == Answer(db.kv, found)
    ensures found.None? ==> r == Err(TableNotFound)
    ensures found.Some? && (forall c :: c in found.value.columns ==> !c.isPrimaryKey) ==> r == Err(NoPrimaryKey)
  {
    if found.None? {
      return Err(TableNotFound);
    }
    var columns := found.value.columns;
    var pairs := db.GetAll(TablePrefix(found.value.name));
    var builders: seq<seq<Datum>> := seq(|columns|, _ => []);
    var pk := GetPkIndex(columns);
    if pk == -1 {
      return Err(NoPrimaryKey);
    }
    assert pairs[..0] == [];
    for i := 0 to |pairs|
      invariant |builders| == |columns|
      invariant Collect(columns, pairs[..i]) == Ok(builders)
    {
      CollectStep(columns, pairs, i, builders);
      match Append(columns, builders, pairs[i].0, pairs[i].1) {
        case Err(e) =>
          CollectStopsAtFirstError(columns, pairs, i + 1);
          return Err(e);
        case Ok(appended) =>
          builders := appended;
      }
    }
    assert pairs[..|pairs|] == pairs;
    return Ok(Batch(columns, builders, |builders[0]|));
  }

  // ---------------------------------------------------------------------
  // What one key with a slash does to a query
  // ---------------------------------------------------------------------

  /** No builder can take a cell with this key. */
  predicate IsStray(columns: seq<Column>, table: string, pk: string)
    requires '/' in table || '/' in pk
  {
    match Misread(table, pk)
    case Ok((_, _, id)) => !(0 <= id < |columns|)
    case Err(_) => true
  }

  /** One stray key fails the query of the whole table. */
  lemma StrayKeyFailsTheQuery(kv: map<string, string>, table: Table, name: string, pk: string, column: nat)
    requires ('/' in name || '/' in pk) && IsStray(table.columns, name, pk)
    requires Key(name, pk, column) in kv && TablePrefix(table.name) <= Key(name, pk, column)
    ensures Answer(kv, Some(table)).Err?
  {
    hide Key, TablePrefix, ParseKey, Misread, Collect, PkIndex, Decode;
    var key, pairs := Key(name, pk, column), Scan(kv, TablePrefix(table.name));
    assert (key, kv[key]) in pairs;
    var i :| 0 <= i < |pairs| && pairs[i] == (key, kv[key]);
    SlashedKeyIsMisread(name, pk, column);
    StrayPairFails(table.columns, pairs, i);
    CollectStopsAtFirstError(table.columns, pairs, i + 1);
  }

  lemma StrayPairFails(columns: seq<Column>, pairs: Pairs, i: nat)
    requires i < |pairs|
    requires ParseKey(pairs[i].0).Ok? ==> !(0 <= ParseKey(pairs[i].0).value.2 < |columns|)
    ensures Collect(columns, pairs[..i + 1]).Err?
  {
    hide ParseKey, Decode;
    assert pairs[..i + 1][..i] == pairs[..i];
  }

  /** Otherwise every cell of the row lands in one and the same column. */
  lemma SlashedRowIsOneColumn(
      columns: seq<Column>, builders: seq<seq<Datum>>, name: string, pk: string, column: nat, value: string)
    requires ('/' in name || '/' in pk) && !IsStray(columns, name, pk)
    requires |builders| == |columns|
    ensures var id := Misread(name, pk).value.2;
            Append(columns, builders, Key(name, pk, column), value) ==
            match Decode(value, columns[id].ty)
            case Ok(d) => Ok(builders[id := builders[id] + [d]])
            case Err(e) => Err(NumberError(e))
  {
    hide Key, ParseKey, Misread, Decode;
    SlashedKeyIsMisread(name, pk, column);
  }
}
