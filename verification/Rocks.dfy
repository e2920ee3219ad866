/** The embedded key/value store: the default column family as a map that is
    iterated in byte order, rows written as one key per column, and the prefix
    scan. */
module Rocks {
  import opened Wrappers
  import opened ByteOrder
  import opened Decimal
  import opened Schema

  type Pairs = seq<(string, string)>

  /** "/<table>/<pk>/column_<i>" */
  function Key(table: string, pk: string, column: nat): string {
    "/" + table + "/" + pk + "/column_" + ToString(column)
  }

  /** The key of a cell, byte by byte: any canonical decimal text of the column ends it. */
  lemma KeyIsWritten(table: string, pk: string, column: nat, digits: string)
    requires IsCanonical(digits) && ParseInteger(digits, column, column) == Ok(column)
    ensures Key(table, pk, column) == ['/'] + table + ['/'] + pk + "/column_" + digits
  {
    CanonicalTextIsUnique(digits, column);
  }

  /** The store after `cells` were put, left to right, under one primary key. */
  function PutCells(kv: map<string, string>, table: string, pk: string, cells: seq<string>): map<string, string> {
    if cells == [] then kv
    else
      var n := |cells| - 1;
      PutCells(kv, table, pk, cells[..n])[Key(table, pk, n) := cells[n]]
  }

  /** The store after one row, already in text form, was written. */
  function PutRow(kv: map<string, string>, table: Table, values: seq<string>): map<string, string>
    requires Writable(table, |values|)
  {
    if table.columns == [] then kv
    else PutCells(kv, table.name, values[PkIndex(table.columns)], values[..|table.columns|])
  }

  /** A row must have a value for every column, and a table with columns a
      primary key: the source indexes `values` without checking. */
  predicate Writable(table: Table, width: nat) {
    |table.columns| <= width && (table.columns != [] ==> PkIndex(table.columns) >= 0)
  }

  /** The pairs whose key starts with `prefix`, in key order. */
  ghost function Scan(kv: map<string, string>, prefix: string): (pairs: Pairs)
    ensures forall i :: 0 <= i < |pairs| ==> pairs[i].0 in kv && pairs[i].1 == kv[pairs[i].0] && prefix <= pairs[i].0
    ensures forall k :: k in kv && prefix <= k ==> (k, kv[k]) in pairs
    ensures StrictlySorted(Keys(pairs))
  {
    var keys := InOrder(set k | k in kv && prefix <= k);
    assert forall i :: 0 <= i < |keys| ==> keys[i] in keys;
    var pairs := seq(|keys|, i requires 0 <= i < |keys| => (keys[i], kv[keys[i]]));
    assert Keys(pairs) == keys;
    assert forall k :: k in kv && prefix <= k ==> (k, kv[k]) in pairs by {
      forall k | k in kv && prefix <= k
        ensures (k, kv[k]) in pairs
      {
        assert k in keys;
        var i :| 0 <= i < |keys| && keys[i] == k;
        assert pairs[i] == (k, kv[k]);
      }
    }
    pairs
  }

  function Keys(pairs: Pairs): (keys: seq<string>)
    ensures |keys| == |pairs| && forall i :: 0 <= i < |pairs| ==> keys[i] == pairs[i].0
  {
    seq(|pairs|, i requires 0 <= i < |pairs| => pairs[i].0)
  }

  /** A scan is determined by what it must contain. */
  lemma ScanIsUnique(kv: map<string, string>, prefix: string, pairs: Pairs)
    requires StrictlySorted(Keys(pairs))
    requires forall i :: 0 <= i < |pairs| ==> pairs[i].0 in kv && pairs[i].1 == kv[pairs[i].0] && prefix <= pairs[i].0
    requires forall k :: k in kv && prefix <= k ==> k in Keys(pairs)
    ensures pairs == Scan(kv, prefix)
  {
    var scan := Scan(kv, prefix);
    forall k | k in Keys(pairs)
      ensures k in Keys(scan)
    {
      var i :| 0 <= i < |pairs| && Keys(pairs)[i] == k;
      assert (k, kv[k]) in scan;
      var j :| 0 <= j < |scan| && scan[j] == (k, kv[k]);
      assert Keys(scan)[j] == k;
    }
    forall k | k in Keys(scan)
      ensures k in Keys(pairs)
    {
      var i :| 0 <= i < |scan| && Keys(scan)[i] == k;
      assert scan[i].0 == k;
    }
    SortedIsUnique(Keys(pairs), Keys(scan));
    forall i | 0 <= i < |pairs|
      ensures pairs[i] == scan[i]
    {
      assert Keys(pairs)[i] == Keys(scan)[i];
    }
  }

  class RocksDB {
    var kv: map<string, string>
    var families: map<string, map<string, string>>

    constructor (familyNames: set<string>)
      ensures kv == map[]
      ensures families == map name | name in familyNames :: map[]
    {
      kv := map[];
      families := map name | name in familyNames :: map[];
    }

    method Put(key: string, value: string)
      modifies this`kv
      ensures kv == old(kv)[key := value]
    {
      kv := kv[key := value];
    }

    /** Deletes from a named column family; false stands for the exception that
        an unknown family raises. */
    method Delete(family: string, key: string) returns (known: bool)
      modifies this`families
      ensures known == (family in old(families))
      ensures families == if known then old(families)[family := old(families)[family] - {key}] else old(families)
    {
      known := family in families;
      if known {
        families := families[family := families[family] - {key}];
      }
    }

    /** The least key that is `target` or comes after it. */
    method Seek(target: string) returns (at: Option<string>)
      ensures at.None? ==> forall k :: k in kv ==> Less(k, target)
      ensures at.Some? ==> at.value in kv && AtMost(target, at.value)
      ensures at.Some? ==> forall k :: k in kv && AtMost(target, k) ==> AtMost(at.value, k)
    {
      var ahead := set k | k in kv && AtMost(target, k);
      at := FirstOf(ahead);
      forall k | k in kv && k !in ahead
        ensures Less(k, target)
      {
        LessIsTotal(k, target);
      }
    }

    /** The least key that comes after `key`. */
    method Next(key: string) returns (at: Option<string>)
      ensures at.None? ==> forall k :: k in kv ==> AtMost(k, key)
      ensures at.Some? ==> at.value in kv && Less(key, at.value)
      ensures at.Some? ==> forall k :: k in kv && Less(key, k) ==> AtMost(at.value, k)
    {
      var ahead := set k | k in kv && Less(key, k);
      at := FirstOf(ahead);
      forall k | k in kv && k !in ahead
        ensures AtMost(k, key)
      {
        LessIsTotal(k, key);
      }
    }

    static method FirstOf(keys: set<string>) returns (first: Option<string>)
      ensures first.None? <==> keys == {}
      ensures first.Some? ==> first.value in keys && forall k :: k in keys ==> AtMost(first.value, k)
    {
      if keys == {} {
        return None;
      }
      ghost var least := LeastExists(keys);
      var k :| k in keys && forall x :: x in keys ==> AtMost(k, x);
      return Some(k);
    }

    /** One key per column, in column order; the cells are encoded here. */
    method WriteRow(table: Table, values: seq<Datum>)
      requires Writable(table, |values|)
      modifies this`kv
      ensures kv == PutRow(old(kv), table, EncodeAll(values))
    {
      var pk := GetPkIndex(table.columns);
      ghost var cells := EncodeAll(values);
      for i := 0 to |table.columns|
        invariant pk >= 0 ==> kv == PutCells(old(kv), table.name, cells[pk], cells[..i])
        invariant i == 0 ==> kv == old(kv)
      {
        Put(Key(table.name, Encode(values[pk]), i), Encode(values[i]));
        assert cells[..i + 1][..i] == cells[..i];
      }
    }

    /** As `WriteRow`, for values that arrive already encoded. */
    method WriteRowWire(table: Table, values: seq<string>)
      requires Writable(table, |values|)
      modifies this`kv
      ensures kv == PutRow(old(kv), table, values)
    {
      var pk := GetPkIndex(table.columns);
      for i := 0 to |table.columns|
        invariant pk >= 0 ==> kv == PutCells(old(kv), table.name, values[pk], values[..i])
        invariant i == 0 ==> kv == old(kv)
      {
        Put(Key(table.name, values[pk], i), values[i]);
        assert values[..i + 1][..i] == values[..i];
      }
    }

    /** Seek to the prefix, then walk while keys still start with it. */
    method GetAll(prefix: string) returns (pairs: Pairs)
      ensures pairs == Scan(kv, prefix)
    {
      pairs := [];
      var at := Seek(prefix);
      SeekCovers(kv, prefix, at);
      while at.Some? && prefix <= at.value
        invariant at.Some? ==> at.value in kv && AtMost(prefix, at.value)
        invariant forall i :: 0 <= i < |pairs| ==> pairs[i].0 in kv && pairs[i].1 == kv[pairs[i].0] && prefix <= pairs[i].0
        invariant StrictlySorted(Keys(pairs))
        invariant at.Some? ==> forall i :: 0 <= i < |pairs| ==> Less(pairs[i].0, at.value)
        invariant Covered(kv, prefix, pairs, at)
        decreases Ahead(kv, at)
      {
        ghost var last, before := at.value, pairs;
        pairs := pairs + [(at.value, kv[at.value])];
        at := Next(at.value);
        NextCovers(kv, prefix, before, last, at);
      }
      StopCovers(kv, prefix, pairs, at);
      ScanIsUnique(kv, prefix, pairs);
    }
  }

  /** Every key with the prefix has been collected or still lies ahead. */
  ghost predicate Covered(kv: map<string, string>, prefix: string, pairs: Pairs, at: Option<string>) {
    forall k :: k in kv && prefix <= k ==> k in Keys(pairs) || k in Ahead(kv, at)
  }

  ghost function Ahead(kv: map<string, string>, at: Option<string>): set<string> {
    if at.None? then {} else set k | k in kv && AtMost(at.value, k)
  }

  lemma SeekCovers(kv: map<string, string>, prefix: string, at: Option<string>)
    requires at.None? ==> forall k :: k in kv ==> Less(k, prefix)
    requires at.Some? ==> forall k :: k in kv && AtMost(prefix, k) ==> AtMost(at.value, k)
    ensures Covered(kv, prefix, [], at)
  {
    forall k | k in kv && prefix <= k
      ensures k in Ahead(kv, at)
    {
      PrefixIsFirst(prefix, k);
      LessIsTotal(k, prefix);
    }
  }

  lemma NextCovers(kv: map<string, string>, prefix: string, pairs: Pairs, last: string, at: Option<string>)
    requires last in kv && Covered(kv, prefix, pairs, Some(last))
    requires AtMost(prefix, last)
    requires forall i :: 0 <= i < |pairs| ==> Less(pairs[i].0, last)
    requires at.None? ==> forall k :: k in kv ==> AtMost(k, last)
    requires at.Some? ==> at.value in kv && Less(last, at.value)
    requires at.Some? ==> forall k :: k in kv && Less(last, k) ==> AtMost(at.value, k)
    ensures Covered(kv, prefix, pairs + [(last, kv[last])], at)
    ensures at.Some? ==> AtMost(prefix, at.value)
    ensures at.Some? ==> forall i :: 0 <= i < |pairs| ==> Less(pairs[i].0, at.value)
    ensures Ahead(kv, at) < Ahead(kv, Some(last))
  {
    var more := pairs + [(last, kv[last])];
    assert Keys(more) == Keys(pairs) + [last];
    LessIsTotal(last, last);
    if at.Some? {
      LessIsTotal(last, at.value);
      if prefix != last {
        LessIsTransitive(prefix, last, at.value);
      }
      forall i | 0 <= i < |pairs|
        ensures Less(pairs[i].0, at.value)
      {
        LessIsTransitive(pairs[i].0, last, at.value);
      }
      forall k | k in Ahead(kv, at)
        ensures k in Ahead(kv, Some(last))
      {
        if k != at.value {
          LessIsTransitive(last, at.value, k);
        }
      }
    }
    assert last in Ahead(kv, Some(last)) && last !in Ahead(kv, at);
    forall k | k in kv && prefix <= k
      ensures k in Keys(more) || k in Ahead(kv, at)
    {
      if k in Keys(pairs) {
      } else if k == last {
        assert Keys(more)[|pairs|] == k;
      } else {
        LessIsTotal(k, last);
      }
    }
  }

  /** The walk may stop at the first key without the prefix: none follows it. */
  lemma StopCovers(kv: map<string, string>, prefix: string, pairs: Pairs, at: Option<string>)
    requires Covered(kv, prefix, pairs, at)
    requires at.Some? ==> AtMost(prefix, at.value) && !(prefix <= at.value)
    ensures forall k :: k in kv && prefix <= k ==> k in Keys(pairs)
  {
    forall k | k in kv && prefix <= k
      ensures k !in Ahead(kv, at)
    {
      if k in Ahead(kv, at) {
        PrefixInterval(prefix, prefix, at.value, k);
      }
    }
  }
}
