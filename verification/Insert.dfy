/** Inserts into a list-partitioned table: each row is routed to the one server
    that holds its partition, row by row, until something fails. */
module Insert {
  import opened Wrappers
  import opened ByteOrder
  import opened Decimal
  import opened Schema
  import opened Peers
  import opened Catalogs

  datatype Const = SVal(s: string) | IVal(i: int32) | OtherVal

  type int32 = i: int | INT32_MIN <= i <= INT32_MAX

  datatype Statement = Statement(table: string, columns: seq<string>, rows: seq<seq<Const>>)

  datatype Request = Request(table: string, columnNames: seq<string>, columnValues: seq<string>)

  datatype Call = Call(address: string, request: Request)

  datatype Attempt = Attempt(call: Call, acknowledged: bool)

  datatype Outcome =
    | Done
    | NoSuchTable
    | NotPartitioned
    | NoPartitionColumn
    | NoPartition
    | NoServer
    | ManyServers
    | NotExtracted
    | Refused

  // ---------------------------------------------------------------------
  // The first partition that lists a value
  // ---------------------------------------------------------------------

  ghost predicate Lists(list: Partition, name: string, value: string)
    requires list.ListPartition?
  {
    name in list.partitions && value in list.partitions[name].values
  }

  /** The partitions are searched in the order of their names. */
  ghost predicate FirstListing(list: Partition, name: string, value: string)
    requires list.ListPartition?
  {
    Lists(list, name, value) && forall other :: Lists(list, other, value) ==> AtMost(name, other)
  }

  lemma FirstListingIsUnique(list: Partition, m: string, n: string, value: string)
    requires list.ListPartition?
    requires FirstListing(list, m, value) && FirstListing(list, n, value)
    ensures m == n
  {
    LessIsTotal(m, n);
  }

  lemma FirstListingExists(list: Partition, value: string)
    requires list.ListPartition?
    ensures (exists name :: FirstListing(list, name, value)) <==> (exists name :: Lists(list, name, value))
  {
    var names := set name | name in list.partitions && value in list.partitions[name].values;
    if name :| Lists(list, name, value) {
      assert name in names;
      var least := LeastExists(names);
      assert FirstListing(list, least, value);
    }
  }

  ghost function Find(list: Partition, value: string): Option<SinglePartition>
    requires list.ListPartition?
  {
    if name :| FirstListing(list, name, value) then Some(list.partitions[name]) else None
  }

  method Lookup(list: Partition, value: string) returns (found: Option<SinglePartition>)
    requires list.ListPartition?
    ensures found == Find(list, value)
    ensures found.None? <==> forall name :: !Lists(list, name, value)
  {
    FirstListingExists(list, value);
    var ahead := list.partitions.Keys;
    while ahead != {}
      invariant ahead <= list.partitions.Keys
      invariant forall name :: name in list.partitions.Keys - ahead ==> !Lists(list, name, value)
    {
      var first := Rocks.RocksDB.FirstOf(ahead);
      var name := first.value;
      if value in list.partitions[name].values {
        assert FirstListing(list, name, value);
        forall other | FirstListing(list, other, value)
          ensures other == name
        {
          FirstListingIsUnique(list, other, name, value);
        }
        return Some(list.partitions[name]);
      }
      ahead := ahead - {name};
    }
    return None;
  }

  // ---------------------------------------------------------------------
  // One row
  // ---------------------------------------------------------------------

  function ExtractConst(c: Const): Option<Datum> {
    match c
    case SVal(s) => Some(StringDatum(s))
    case IVal(i) => Some(IntDatum(i))
    case OtherVal => None
  }

  /** The first column of the statement with that name, or -1. */
  function ColumnId(columns: seq<string>, name: string): (id: int)
    ensures -1 <= id < |columns|
    ensures id >= 0 ==> columns[id] == name
    ensures forall i :: 0 <= i < (if id >= 0 then id else |columns|) ==> columns[i] != name
  {
    if columns == [] then -1
    else if columns[0] == name then 0
    else
      var rest := ColumnId(columns[1..], name);
      assert forall i :: 1 <= i < |columns| ==> columns[i] == columns[1..][i - 1];
      if rest >= 0 then rest + 1 else -1
  }

  /** The rows that the source can read: it indexes the items, and takes the
      partition item for a string, without checking. */
  predicate Readable(statement: Statement, column: string) {
    forall r :: 0 <= r < |statement.rows| ==>
      && |statement.rows[r]| >= |statement.columns|
      && (ColumnId(statement.columns, column) >= 0 ==> statement.rows[r][ColumnId(statement.columns, column)].SVal?)
  }

  /** Row `r` of the statement is to be sent by `call`: to the one registered
      server that meets the constraints of the first partition that lists its
      value, with every item in text form. */
  ghost predicate RoutesTo(servers: seq<Server>, list: Partition, statement: Statement, r: nat, call: Call)
    requires list.ListPartition? && Readable(statement, list.columnName)
    requires ColumnId(statement.columns, list.columnName) >= 0 && r < |statement.rows|
  {
    var row := statement.rows[r];
    var value := row[ColumnId(statement.columns, list.columnName)].s;
    && (exists name, i :: FirstListing(list, name, value) &&
          OnlyEligible(servers, list.partitions[name].constraints, i) && servers[i].grpcAddr == call.address)
    && call.request.table == statement.table
    && call.request.columnNames == statement.columns
    && |call.request.columnValues| == |statement.columns|
    && (forall i :: 0 <= i < |statement.columns| ==>
          ExtractConst(row[i]).Some? && call.request.columnValues[i] == Encode(ExtractConst(row[i]).value))
  }

  /** Why row `r` cannot be sent: the first check that fails. */
  ghost predicate FailsWith(servers: seq<Server>, list: Partition, statement: Statement, r: nat, why: Outcome)
    requires list.ListPartition? && Readable(statement, list.columnName)
    requires ColumnId(statement.columns, list.columnName) >= 0 && r < |statement.rows|
  {
    var row := statement.rows[r];
    var value := row[ColumnId(statement.columns, list.columnName)].s;
    match why
    case NoPartition => forall name :: !Lists(list, name, value)
    case NoServer =>
      exists name :: FirstListing(list, name, value) &&
        forall s :: s in servers ==> !Eligible(s, list.partitions[name].constraints)
    case ManyServers =>
      exists name, i, j :: FirstListing(list, name, value) && 0 <= i < j < |servers| &&
        Eligible(servers[i], list.partitions[name].constraints) &&
        Eligible(servers[j], list.partitions[name].constraints)
    case NotExtracted =>
      && (exists name, i :: FirstListing(list, name, value) &&
            OnlyEligible(servers, list.partitions[name].constraints, i))
      && exists i :: 0 <= i < |statement.columns| && ExtractConst(row[i]).None?
    case _ => false
  }

  /** What is sent for a constant: a string as it is, an integer as the canonical text
      that is read back as it. */
  lemma SentValues(servers: seq<Server>, list: Partition, statement: Statement, r: nat, call: Call, i: nat)
    requires list.ListPartition? && Readable(statement, list.columnName)
    requires ColumnId(statement.columns, list.columnName) >= 0 && r < |statement.rows|
    requires RoutesTo(servers, list, statement, r, call) && i < |statement.columns|
    ensures var item, sent := statement.rows[r][i], call.request.columnValues[i];
            && (item.SVal? ==> sent == item.s)
            && (item.IVal? ==> IsCanonical(sent) && Decode(sent, Int64) == Result.Ok(IntDatum(item.i)))
            && !item.OtherVal?
  {
    hide FirstListing, Eligible, Decode;
    var item := statement.rows[r][i];
    if item.IVal? {
      DecodeInvertsEncode(IntDatum(item.i), Int64);
      TextIsCanonical(item.i);
    }
  }

  /** A row fails in extraction exactly if it has a server, and an item that is neither
      a string nor an integer. */
  lemma NotExtractedMeans(servers: seq<Server>, list: Partition, statement: Statement, r: nat)
    requires list.ListPartition? && Readable(statement, list.columnName)
    requires ColumnId(statement.columns, list.columnName) >= 0 && r < |statement.rows|
    ensures FailsWith(servers, list, statement, r, NotExtracted) <==>
            && (exists i :: 0 <= i < |statement.columns| && statement.rows[r][i].OtherVal?)
            && exists name, i :: (FirstListing(list, name, statement.rows[r][ColumnId(statement.columns, list.columnName)].s) &&
                                 OnlyEligible(servers, list.partitions[name].constraints, i))
  {
    hide FirstListing, OnlyEligible;
  }

  /** The call of a row is determined ... */
  lemma CallIsUnique(servers: seq<Server>, list: Partition, statement: Statement, r: nat, c: Call, d: Call)
    requires list.ListPartition? && Readable(statement, list.columnName)
    requires ColumnId(statement.columns, list.columnName) >= 0 && r < |statement.rows|
    requires RoutesTo(servers, list, statement, r, c) && RoutesTo(servers, list, statement, r, d)
    ensures c == d
  {
    hide AtMost, Eligible, Encode, ExtractConst;
    var value := statement.rows[r][ColumnId(statement.columns, list.columnName)].s;
    var m, i :| FirstListing(list, m, value) &&
      OnlyEligible(servers, list.partitions[m].constraints, i) && servers[i].grpcAddr == c.address;
    var n, j :| FirstListing(list, n, value) &&
      OnlyEligible(servers, list.partitions[n].constraints, j) && servers[j].grpcAddr == d.address;
    FirstListingIsUnique(list, m, n, value);
    assert i == j;
    assert c.request.columnValues == d.request.columnValues;
  }

  /** ... and a row that routes does not fail, nor fail in two ways. */
  lemma FailureIsUnique(
      servers: seq<Server>, list: Partition, statement: Statement, r: nat, why: Outcome, c: Call, other: Outcome)
    requires list.ListPartition? && Readable(statement, list.columnName)
    requires ColumnId(statement.columns, list.columnName) >= 0 && r < |statement.rows|
    requires FailsWith(servers, list, statement, r, why)
    ensures !RoutesTo(servers, list, statement, r, c)
    ensures FailsWith(servers, list, statement, r, other) ==> why == other
  {
    hide Eligible, Encode, ExtractConst, AtMost;
    var value := statement.rows[r][ColumnId(statement.columns, list.columnName)].s;
    if name :| FirstListing(list, name, value) {
      forall n | FirstListing(list, n, value)
        ensures n == name
      {
        FirstListingIsUnique(list, n, name, value);
      }
      assert forall i :: OnlyEligible(servers, list.partitions[name].constraints, i) ==> servers[i] in servers;
    }
  }

  /** The registration that alone is eligible, if the picked servers are one. */
  lemma PickedServer(servers: seq<Server>, constraints: map<string, string>)
    ensures EligibleServers(servers, constraints) == [] ==> forall s :: s in servers ==> !Eligible(s, constraints)
    ensures |EligibleServers(servers, constraints)| == 1 ==>
              exists i :: OnlyEligible(servers, constraints, i) && servers[i] == EligibleServers(servers, constraints)[0]
    ensures |EligibleServers(servers, constraints)| > 1 ==>
              exists i, j :: 0 <= i < j < |servers| && Eligible(servers[i], constraints) && Eligible(servers[j], constraints)
  {
    hide Eligible, EligibleServers;
    var picked := EligibleServers(servers, constraints);
    NonePicked(servers, constraints);
    if |picked| == 1 {
      assert picked == [picked[0]];
      OnePicked(servers, constraints, picked[0]);
    } else if |picked| > 1 {
      TwoPicked(servers, constraints);
    }
  }

  lemma {:induction false} TwoPicked(servers: seq<Server>, constraints: map<string, string>)
    requires |EligibleServers(servers, constraints)| > 1
    ensures exists i, j :: 0 <= i < j < |servers| && Eligible(servers[i], constraints) && Eligible(servers[j], constraints)
  {
    hide Eligible, EligibleServers;
    if servers == [] {
      NonePicked(servers, constraints);
    } else {
      var n := |servers| - 1;
      var init, last := servers[..n], servers[n];
      assert servers == init + [last];
      OneMoreServer(init, constraints, last);
      if |EligibleServers(init, constraints)| > 1 {
        TwoPicked(init, constraints);
        var i, j :| 0 <= i < j < n && Eligible(init[i], constraints) && Eligible(init[j], constraints);
        assert servers[i] == init[i] && servers[j] == init[j];
      } else {
        NonePicked(init, constraints);
        var i :| 0 <= i < n && Eligible(init[i], constraints);
        assert servers[i] == init[i] && Eligible(servers[n], constraints);
      }
    }
  }

  // ---------------------------------------------------------------------
  // The whole statement
  // ---------------------------------------------------------------------

  /** The remote servers: which of the calls they acknowledge is not known. */
  class Network {
    var sent: seq<Attempt>
    const acknowledges: nat -> bool

    constructor (acknowledges: nat -> bool)
      ensures sent == [] && this.acknowledges == acknowledges
    {
      sent := [];
      this.acknowledges := acknowledges;
    }

    method Send(call: Call) returns (ok: bool)
      modifies this
      ensures sent == old(sent) + [Attempt(call, ok)]
      ensures ok == acknowledges(|old(sent)|)
    {
      ok := acknowledges(|sent|);
      sent := sent + [Attempt(call, ok)];
    }
  }

  /** What was attempted for a statement, and how it ended: rows from the first
      on, each sent once, in order; all but the last attempt acknowledged; and
      nothing attempted after a failure. */
  ghost predicate Delivered(
      servers: seq<Server>, list: Partition, statement: Statement, attempts: seq<Attempt>, outcome: Outcome)
    requires list.ListPartition? && Readable(statement, list.columnName)
    requires ColumnId(statement.columns, list.columnName) >= 0
  {
    var n := |attempts|;
    && n <= |statement.rows|
    && (forall r :: 0 <= r < n ==> RoutesTo(servers, list, statement, r, attempts[r].call))
    && (forall r :: 0 <= r < n ==> (attempts[r].acknowledged <==> !(outcome == Refused && r == n - 1)))
    && (outcome == Refused ==> n > 0)
    && (outcome == Done ==> n == |statement.rows|)
    && (outcome != Refused && outcome != Done ==>
          n < |statement.rows| && FailsWith(servers, list, statement, n, outcome))
  }

  method RouteRow(registry: Registry, list: Partition, statement: Statement, r: nat)
      returns (outcome: Outcome, call: Call)
    requires list.ListPartition? && Readable(statement, list.columnName)
    requires ColumnId(statement.columns, list.columnName) >= 0 && r < |statement.rows|
    ensures outcome == Done ==> RoutesTo(registry.peers, list, statement, r, call)
    ensures outcome != Done ==> outcome != Refused && FailsWith(registry.peers, list, statement, r, outcome)
  {
    hide AtMost, Encode, Eligible, EligibleServers;
    call := Call("", Request("", [], []));
    var row := statement.rows[r];
    var value := row[ColumnId(statement.columns, list.columnName)].s;
    var found := Lookup(list, value);
    if found.None? {
      return NoPartition, call;
    }
    ghost var name :| FirstListing(list, name, value) && found.value == list.partitions[name];
    var servers := registry.GetServers(found.value.constraints);
    PickedServer(registry.peers, found.value.constraints);
    if |servers| == 0 {
      return NoServer, call;
    }
    if |servers| > 1 {
      return ManyServers, call;
    }
    var names, values := [], [];
    for i := 0 to |statement.columns|
      invariant names == statement.columns[..i] && |values| == i
      invariant forall k :: 0 <= k < i ==> ExtractConst(row[k]).Some? && values[k] == Encode(ExtractConst(row[k]).value)
    {
      var datum := ExtractConst(row[i]);
      if datum.None? {
        return NotExtracted, call;
      }
      names := names + [statement.columns[i]];
      values := values + [Encode(datum.value)];
    }
    call := Call(servers[0].grpcAddr, Request(statement.table, names, values));
    return Done, call;
  }

  method GetColumnId(columns: seq<string>, name: string) returns (id: int)
    ensures id == ColumnId(columns, name)
  {
    for i := 0 to |columns|
      invariant forall k :: 0 <= k < i ==> columns[k] != name
    {
      if columns[i] == name {
        return i;
      }
    }
    return -1;
  }

  /** The list partition that a statement goes through, if it gets that far. */
  function ListFor(tables: map<string, Table>, statement: Statement): Result<Partition, Outcome> {
    if statement.table !in tables then Err(NoSuchTable)
    else
      var partition := tables[statement.table].partition;
      if partition.NullPartition? then Err(NotPartitioned)
      else if ColumnId(statement.columns, partition.columnName) == -1 then Err(NoPartitionColumn)
      else Result.Ok(partition)
  }

  /** The early ways out, and the list that rows go through otherwise. */
  lemma ListForMeans(tables: map<string, Table>, statement: Statement)
    ensures var found := ListFor(tables, statement);
            && (found == Err(NoSuchTable) <==> statement.table !in tables)
            && (statement.table in tables ==>
                  var partition := tables[statement.table].partition;
                  && (found == Err(NotPartitioned) <==> partition.NullPartition?)
                  && (partition.ListPartition? ==>
                        if partition.columnName in statement.columns then found == Result.Ok(partition)
                        else found == Err(NoPartitionColumn)))
  {
  }

  method Execute(catalog: Catalog, registry: Registry, network: Network, statement: Statement)
      returns (outcome: Outcome)
    requires statement.table in catalog.tables && catalog.tables[statement.table].partition.ListPartition? ==>
               Readable(statement, catalog.tables[statement.table].partition.columnName)
    modifies network
    ensures old(network.sent) <= network.sent
    ensures ListFor(catalog.tables, statement).Err? ==>
              network.sent == old(network.sent) && outcome == ListFor(catalog.tables, statement).error
    ensures ListFor(catalog.tables, statement).Ok? ==>
              Delivered(registry.peers, ListFor(catalog.tables, statement).value, statement,
                        network.sent[|old(network.sent)|..], outcome)
  {
    var found := catalog.GetTable(statement.table);
    if found.None? {
      return NoSuchTable;
    }
    var list := found.value.partition;
    if list.NullPartition? {
      return NotPartitioned;
    }
    var id := GetColumnId(statement.columns, list.columnName);
    if id == -1 {
      return NoPartitionColumn;
    }
    ghost var before, attempts: seq<Attempt> := network.sent, [];
    for r := 0 to |statement.rows|
      invariant network.sent == before + attempts && |attempts| == r
      invariant forall i :: 0 <= i < r ==>
                  attempts[i].acknowledged && RoutesTo(registry.peers, list, statement, i, attempts[i].call)
    {
      hide RoutesTo, FailsWith;
      var why, call := RouteRow(registry, list, statement, r);
      if why != Done {
        assert network.sent[|before|..] == attempts;
        return why;
      }
      var ok := network.Send(call);
      attempts := attempts + [Attempt(call, ok)];
      assert network.sent[|before|..] == attempts;
      if !ok {
        return Refused;
      }
    }
    return Done;
  }

  /** A statement succeeds exactly when every row was acknowledged by the server
      its partition names; a failure at row r leaves exactly the rows before it
      acknowledged. */
  lemma OutcomeTellsWhatWasKept(
      servers: seq<Server>, list: Partition, statement: Statement, attempts: seq<Attempt>, outcome: Outcome)
    requires list.ListPartition? && Readable(statement, list.columnName)
    requires ColumnId(statement.columns, list.columnName) >= 0
    requires Delivered(servers, list, statement, attempts, outcome)
    ensures outcome == Done <==>
            |attempts| == |statement.rows| && forall a :: a in attempts ==> a.acknowledged
    ensures forall r :: 0 <= r < |attempts| && !attempts[r].acknowledged ==> r == |attempts| - 1
  {
    hide RoutesTo, FailsWith;
    if outcome == Refused {
      assert attempts[|attempts| - 1] in attempts;
    }
  }

  /** Given which calls are acknowledged, there is one way to deliver. */
  lemma DeliveryIsUnique(
      servers: seq<Server>, list: Partition, statement: Statement, acknowledges: nat -> bool,
      a: seq<Attempt>, x: Outcome, b: seq<Attempt>, y: Outcome)
    requires list.ListPartition? && Readable(statement, list.columnName)
    requires ColumnId(statement.columns, list.columnName) >= 0
    requires Delivered(servers, list, statement, a, x) && Delivered(servers, list, statement, b, y)
    requires forall r :: 0 <= r < |a| ==> a[r].acknowledged == acknowledges(r)
    requires forall r :: 0 <= r < |b| ==> b[r].acknowledged == acknowledges(r)
    ensures a == b && x == y
  {
    hide RoutesTo, FailsWith, Readable, ColumnId;
    NoLongerDelivery(servers, list, statement, acknowledges, a, x, b, y);
    NoLongerDelivery(servers, list, statement, acknowledges, b, y, a, x);
    forall r | 0 <= r < |a|
      ensures a[r] == b[r]
    {
      CallIsUnique(servers, list, statement, r, a[r].call, b[r].call);
    }
    assert |a| > 0 ==> a[|a| - 1] == b[|a| - 1];
    if x != y && |a| < |statement.rows| && x != Refused && y != Refused {
      FailureIsUnique(servers, list, statement, |a|, x, Call("", Request("", [], [])), y);
    }
  }

  lemma NoLongerDelivery(
      servers: seq<Server>, list: Partition, statement: Statement, acknowledges: nat -> bool,
      a: seq<Attempt>, x: Outcome, b: seq<Attempt>, y: Outcome)
    requires list.ListPartition? && Readable(statement, list.columnName)
    requires ColumnId(statement.columns, list.columnName) >= 0
    requires Delivered(servers, list, statement, a, x) && Delivered(servers, list, statement, b, y)
    requires forall r :: 0 <= r < |a| ==> a[r].acknowledged == acknowledges(r)
    requires forall r :: 0 <= r < |b| ==> b[r].acknowledged == acknowledges(r)
    ensures |b| <= |a|
  {
    hide RoutesTo, FailsWith, Readable, ColumnId;
    if x == Refused {
      assert !acknowledges(|a| - 1);
    }
    if |a| < |b| && x != Refused {
      FailureIsUnique(servers, list, statement, |a|, x, b[|a|].call, x);
    }
  }

  /** A constraint added to a partition of the catalog never widens its servers. */
  lemma AddedConstraintNarrows(servers: seq<Server>, s: State, e: Event)
    requires Enabled(s, e) && e.Constrained?
    ensures var before := s.tables[Target(s, e).value].partition.partitions[e.p].constraints;
            EligibleServers(servers, NewSingle(s, e).constraints) ==
            if e.key in before then EligibleServers(servers, before)
            else EligibleServers(EligibleServers(servers, before), map[e.key := e.value])
  {
    var before := s.tables[Target(s, e).value].partition.partitions[e.p].constraints;
    if e.key !in before {
      MoreConstraintsFilter(servers, before, e.key, e.value);
    }
  }
}
