/** Backend messages as the PostgreSQL 17 frontend/backend protocol lays them out
    (chapter "Frontend/Backend Protocol", section "Message Formats"), and a
    frontend that takes a byte stream apart again. */
module PgFrontend {
  import opened Wrappers
  import opened WireBytes

  datatype FieldDescription = FieldDescription(
    name: Text, tableOid: int, attribute: int, typeOid: int, typeSize: int, modifier: int, format: int)

  datatype Packet =
    | Authentication(code: int)
    | EmptyQuery
    | RowDescription(fields: seq<FieldDescription>)
    | DataRow(cells: seq<Text>)
    | CommandComplete(tag: Text)
    | ErrorReport(items: seq<(byte, Text)>)
    | Parameter(name: Text, setting: Text)
    | KeyData(pid: int, secret: int)
    | Ready(status: byte)

  function Kind(p: Packet): byte {
    match p
    case Authentication(_) => 'R' as int
    case EmptyQuery => 'I' as int
    case RowDescription(_) => 'T' as int
    case DataRow(_) => 'D' as int
    case CommandComplete(_) => 'C' as int
    case ErrorReport(_) => 'E' as int
    case Parameter(_, _) => 'S' as int
    case KeyData(_, _) => 'K' as int
    case Ready(_) => 'Z' as int
  }

  function FieldBytes(f: FieldDescription): seq<byte> {
    CString(f.name) + (Int32(f.tableOid) + (Int16(f.attribute) + (Int32(f.typeOid) +
      (Int16(f.typeSize) + (Int32(f.modifier) + Int16(f.format))))))
  }

  function AllFieldBytes(fields: seq<FieldDescription>): (parts: seq<seq<byte>>)
    ensures |parts| == |fields|
  {
    seq(|fields|, i requires 0 <= i < |fields| => FieldBytes(fields[i]))
  }

  function CellBytes(cell: Text): seq<byte> {
    Int32(|cell|) + cell
  }

  function AllCellBytes(cells: seq<Text>): (parts: seq<seq<byte>>)
    ensures |parts| == |cells|
  {
    seq(|cells|, i requires 0 <= i < |cells| => CellBytes(cells[i]))
  }

  function AllItemBytes(items: seq<(byte, Text)>): (parts: seq<seq<byte>>)
    ensures |parts| == |items|
  {
    seq(|items|, i requires 0 <= i < |items| => [items[i].0] + CString(items[i].1))
  }

  function Body(p: Packet): seq<byte> {
    match p
    case Authentication(code) => Int32(code)
    case EmptyQuery => []
    case RowDescription(fields) => Int16(|fields|) + Concat(AllFieldBytes(fields))
    case DataRow(cells) => Int16(|cells|) + Concat(AllCellBytes(cells))
    case CommandComplete(tag) => CString(tag)
    case ErrorReport(items) => Concat(AllItemBytes(items)) + [NUL]
    case Parameter(name, setting) => CString(name) + CString(setting)
    case KeyData(pid, secret) => Int32(pid) + Int32(secret)
    case Ready(status) => [status]
  }

  /** One byte of type, then the length of everything that follows it. */
  function Wire(p: Packet): seq<byte> {
    [Kind(p)] + (Int32(4 + |Body(p)|) + Body(p))
  }

  function AllWire(ps: seq<Packet>): (parts: seq<seq<byte>>)
    ensures |parts| == |ps|
  {
    seq(|ps|, i requires 0 <= i < |ps| => Wire(ps[i]))
  }

  function Stream(ps: seq<Packet>): seq<byte> {
    Concat(AllWire(ps))
  }

  lemma StreamAppend(a: seq<Packet>, b: seq<Packet>)
    ensures Stream(a + b) == Stream(a) + Stream(b)
  {
    assert AllWire(a + b) == AllWire(a) + AllWire(b);
    ConcatAppend(AllWire(a), AllWire(b));
  }

  lemma StreamOfOne(p: Packet)
    ensures Stream([p]) == Wire(p)
  {
    hide Wire;
    assert AllWire([p]) == [Wire(p)];
    assert Concat([Wire(p)]) == [] + Wire(p);
  }

  // ---------------------------------------------------------------------
  // Reading
  // ---------------------------------------------------------------------

  function ReadField(b: seq<byte>): Option<(FieldDescription, seq<byte>)> {
    var (name, b1) :- ReadCString(b);
    var (tableOid, b2) :- ReadInt32(b1);
    var (attribute, b3) :- ReadInt16(b2);
    var (typeOid, b4) :- ReadInt32(b3);
    var (typeSize, b5) :- ReadInt16(b4);
    var (modifier, b6) :- ReadInt32(b5);
    var (format, b7) :- ReadInt16(b6);
    Some((FieldDescription(name, tableOid, attribute, typeOid, typeSize, modifier, format), b7))
  }

  function ReadFields(n: nat, b: seq<byte>): Option<(seq<FieldDescription>, seq<byte>)> {
    if n == 0 then Some(([], b))
    else
      var (field, b1) :- ReadField(b);
      var (fields, rest) :- ReadFields(n - 1, b1);
      Some(([field] + fields, rest))
  }

  function ReadCells(n: nat, b: seq<byte>): Option<(seq<Text>, seq<byte>)> {
    if n == 0 then Some(([], b))
    else
      var (size, b1) :- ReadInt32(b);
      var (cell, b2) :- ReadBytes(b1, size);
      var (cells, rest) :- ReadCells(n - 1, b2);
      Some(([cell] + cells, rest))
  }

  /** Items up to a zero byte, which must end the message. */
  function ReadItems(b: seq<byte>): Option<seq<(byte, Text)>>
    decreases |b|
  {
    if b == [] then None
    else if b[0] == NUL then (if |b| == 1 then Some([]) else None)
    else
      match ReadCString(b[1..])
      case None => None
      case Some((text, rest)) =>
        if |rest| >= |b| then None
        else
          var items :- ReadItems(rest);
          Some([(b[0], text)] + items)
  }

  function ReadBody(kind: byte, b: seq<byte>): Option<Packet> {
    if kind == 'R' as int then
      var (code, rest) :- ReadInt32(b);
      if rest == [] then Some(Authentication(code)) else None
    else if kind == 'I' as int then
      if b == [] then Some(EmptyQuery) else None
    else if kind == 'T' as int then
      var (n, b1) :- ReadInt16(b);
      if n < 0 then None else
      var (fields, rest) :- ReadFields(n, b1);
      if rest == [] then Some(RowDescription(fields)) else None
    else if kind == 'D' as int then
      var (n, b1) :- ReadInt16(b);
      if n < 0 then None else
      var (cells, rest) :- ReadCells(n, b1);
      if rest == [] then Some(DataRow(cells)) else None
    else if kind == 'C' as int then
      var (tag, rest) :- ReadCString(b);
      if rest == [] then Some(CommandComplete(tag)) else None
    else if kind == 'E' as int then
      var items :- ReadItems(b);
      Some(ErrorReport(items))
    else if kind == 'S' as int then
      var (name, b1) :- ReadCString(b);
      var (setting, rest) :- ReadCString(b1);
      if rest == [] then Some(Parameter(name, setting)) else None
    else if kind == 'K' as int then
      var (pid, b1) :- ReadInt32(b);
      var (secret, rest) :- ReadInt32(b1);
      if rest == [] then Some(KeyData(pid, secret)) else None
    else if kind == 'Z' as int then
      if |b| == 1 then Some(Ready(b[0])) else None
    else None
  }

  /** Walks the stream by type byte and length. */
  function ReadStream(b: seq<byte>): Option<seq<Packet>>
    decreases |b|
  {
    if b == [] then Some([])
    else
      var (size, b1) :- ReadInt32(b[1..]);
      var (body, rest) :- ReadBytes(b1, size - 4);
      if |rest| >= |b| then None else
      var p :- ReadBody(b[0], body);
      var ps :- ReadStream(rest);
      Some([p] + ps)
  }

  // ---------------------------------------------------------------------
  // The reader inverts the layout
  // ---------------------------------------------------------------------

  predicate NulFree(s: Text) {
    NUL !in s
  }

  /** Counts, lengths and numbers fit their fields. */
  predicate Fits(p: Packet) {
    && FitsInt32(4 + |Body(p)|)
    && match p
       case Authentication(code) => FitsInt32(code)
       case RowDescription(fields) =>
         |fields| < 0x8000 && forall i :: 0 <= i < |fields| ==> FieldFits(fields[i])
       case DataRow(cells) =>
         |cells| < 0x8000 && forall i :: 0 <= i < |cells| ==> FitsInt32(|cells[i]|)
       case ErrorReport(items) => forall i :: 0 <= i < |items| ==> items[i].0 != NUL
       case KeyData(pid, secret) => FitsInt32(pid) && FitsInt32(secret)
       case _ => true
  }

  predicate FieldFits(f: FieldDescription) {
    && FitsInt32(f.tableOid) && FitsInt16(f.attribute) && FitsInt32(f.typeOid)
    && FitsInt16(f.typeSize) && FitsInt32(f.modifier) && FitsInt16(f.format)
  }

  /** The strings that travel NUL-terminated hold no NUL. */
  predicate StringsNulFree(p: Packet) {
    match p
    case RowDescription(fields) => CleanNames(fields)
    case CommandComplete(tag) => NulFree(tag)
    case ErrorReport(items) => forall i :: 0 <= i < |items| ==> NulFree(items[i].1)
    case Parameter(name, setting) => NulFree(name) && NulFree(setting)
    case _ => true
  }

  lemma ReadFieldInverts(f: FieldDescription, rest: seq<byte>)
    requires FieldFits(f)
    ensures NulFree(f.name) ==> ReadField(FieldBytes(f) + rest) == Some((f, rest))
    ensures !NulFree(f.name) && ReadField(FieldBytes(f) + rest).Some? ==>
              ReadField(FieldBytes(f) + rest).value.0.name != f.name
  {
    hide Int16, Int32, CString, ReadInt16, ReadInt32, ReadCString;
    var b6 := Int16(f.format) + rest;
    var b5 := Int32(f.modifier) + b6;
    var b4 := Int16(f.typeSize) + b5;
    var b3 := Int32(f.typeOid) + b4;
    var b2 := Int16(f.attribute) + b3;
    var b1 := Int32(f.tableOid) + b2;
    assert FieldBytes(f) + rest == CString(f.name) + b1;
    ReadCStringInverts(f.name, b1);
    if NulFree(f.name) {
      ReadInt32Inverts(f.tableOid, b2);
      ReadInt16Inverts(f.attribute, b3);
      ReadInt32Inverts(f.typeOid, b4);
      ReadInt16Inverts(f.typeSize, b5);
      ReadInt32Inverts(f.modifier, b6);
      ReadInt16Inverts(f.format, rest);
    }
  }

  predicate CleanNames(fields: seq<FieldDescription>) {
    forall i :: 0 <= i < |fields| ==> NulFree(fields[i].name)
  }

  lemma CleanNamesHead(fields: seq<FieldDescription>)
    requires fields != []
    ensures CleanNames(fields) <==> NulFree(fields[0].name) && CleanNames(fields[1..])
  {
    hide NulFree;
    assert forall i :: 1 <= i < |fields| ==> fields[i] == fields[1..][i - 1];
  }

  lemma {:induction false} ReadFieldsInverts(fields: seq<FieldDescription>, rest: seq<byte>)
    requires forall i :: 0 <= i < |fields| ==> FieldFits(fields[i])
    ensures var r := ReadFields(|fields|, Concat(AllFieldBytes(fields)) + rest);
            (CleanNames(fields) ==> r == Some((fields, rest))) &&
            (!CleanNames(fields) && r.Some? ==> r.value.0 != fields)
  {
    hide FieldBytes, ReadField, NulFree, FieldFits;
    if fields == [] {
      assert [] + rest == rest;
    } else {
      var tail := fields[1..];
      ConcatHead(AllFieldBytes(fields));
      assert AllFieldBytes(fields)[1..] == AllFieldBytes(tail);
      var b1 := Concat(AllFieldBytes(tail)) + rest;
      assert Concat(AllFieldBytes(fields)) + rest == FieldBytes(fields[0]) + b1;
      ReadFieldInverts(fields[0], b1);
      ReadFieldsInverts(tail, rest);
      CleanNamesHead(fields);
      assert fields == [fields[0]] + tail;
    }
  }

  lemma {:induction false} ReadCellsInverts(cells: seq<Text>, rest: seq<byte>)
    requires forall i :: 0 <= i < |cells| ==> FitsInt32(|cells[i]|)
    ensures ReadCells(|cells|, Concat(AllCellBytes(cells)) + rest) == Some((cells, rest))
  {
    hide Int32, ReadInt32, ReadBytes;
    if cells == [] {
      assert [] + rest == rest;
    } else {
      var tail := cells[1..];
      ConcatHead(AllCellBytes(cells));
      assert AllCellBytes(cells)[1..] == AllCellBytes(tail);
      var b2 := Concat(AllCellBytes(tail)) + rest;
      assert Concat(AllCellBytes(cells)) + rest == Int32(|cells[0]|) + (cells[0] + b2);
      ReadInt32Inverts(|cells[0]|, cells[0] + b2);
      ReadBytesInverts(cells[0], b2);
      ReadCellsInverts(tail, rest);
      assert cells == [cells[0]] + tail;
    }
  }

  lemma {:induction false} ReadItemsInverts(items: seq<(byte, Text)>)
    requires forall i :: 0 <= i < |items| ==> items[i].0 != NUL
    ensures var r := ReadItems(Concat(AllItemBytes(items)) + [NUL]);
            var clean := forall i :: 0 <= i < |items| ==> NulFree(items[i].1);
            (clean ==> r == Some(items)) && (!clean && r.Some? ==> r.value != items)
  {
    hide CString, ReadCString, NulFree;
    if items != [] {
      var tail := items[1..];
      ConcatHead(AllItemBytes(items));
      assert AllItemBytes(items)[1..] == AllItemBytes(tail);
      var rest := Concat(AllItemBytes(tail)) + [NUL];
      var b := Concat(AllItemBytes(items)) + [NUL];
      assert b == [items[0].0] + (CString(items[0].1) + rest);
      assert b[1..] == CString(items[0].1) + rest;
      ReadCStringInverts(items[0].1, rest);
      CleanString(items[0].1);
      ReadItemsInverts(tail);
      assert items == [items[0]] + tail;
      assert forall i :: 0 <= i < |tail| ==> tail[i] == items[i + 1];
    }
  }

  lemma CleanString(s: Text)
    ensures NulFree(s) <==> NUL !in s
  {
  }

  /** A message body is read back exactly when its strings hold no NUL. */
  lemma ReadBodyInverts(p: Packet)
    requires Fits(p)
    ensures ReadBody(Kind(p), Body(p)) == Some(p) <==> StringsNulFree(p)
  {
    hide Int16, Int32, CString, ReadInt16, ReadInt32, ReadCString, ReadFields, ReadCells, ReadItems;
    match p
    case Authentication(code) =>
      ReadInt32Inverts(code, []);
      assert Body(p) == Int32(code) + [];
    case EmptyQuery =>
    case RowDescription(fields) =>
      var rest := Concat(AllFieldBytes(fields));
      ReadInt16Inverts(|fields|, rest);
      ReadFieldsInverts(fields, []);
      assert rest + [] == rest;
    case DataRow(cells) =>
      var rest := Concat(AllCellBytes(cells));
      ReadInt16Inverts(|cells|, rest);
      ReadCellsInverts(cells, []);
      assert rest + [] == rest;
    case CommandComplete(tag) =>
      ReadCStringInverts(tag, []);
      assert CString(tag) + [] == CString(tag);
    case ErrorReport(items) =>
      ReadItemsInverts(items);
    case Parameter(name, setting) =>
      ReadCStringInverts(name, CString(setting));
      ReadCStringInverts(setting, []);
      assert CString(setting) + [] == CString(setting);
    case KeyData(pid, secret) =>
      ReadInt32Inverts(pid, Int32(secret));
      ReadInt32Inverts(secret, []);
      assert Int32(secret) + [] == Int32(secret);
    case Ready(_) =>
  }

  /** Walking the stream of any messages by type byte and length gives back exactly
      those messages, if and only if their strings hold no NUL. */
  lemma {:induction false} ReadStreamInverts(ps: seq<Packet>)
    requires forall i :: 0 <= i < |ps| ==> Fits(ps[i])
    ensures ReadStream(Stream(ps)) == Some(ps) <==> forall i :: 0 <= i < |ps| ==> StringsNulFree(ps[i])
  {
    hide Kind, Body, Fits, StringsNulFree, ReadBody, Int32, ReadInt32, ReadBytes;
    if ps != [] {
      var tail := ps[1..];
      ConcatHead(AllWire(ps));
      assert AllWire(ps)[1..] == AllWire(tail);
      var rest := Stream(tail);
      ReadPacket(ps[0], rest);
      ReadBodyInverts(ps[0]);
      ReadStreamInverts(tail);
      assert ps == [ps[0]] + tail;
      assert forall i :: 0 <= i < |tail| ==> tail[i] == ps[i + 1];
    }
  }

  lemma ReadPacket(p: Packet, rest: seq<byte>)
    requires Fits(p)
    ensures ReadStream(Wire(p) + rest) ==
            if ReadBody(Kind(p), Body(p)).None? || ReadStream(rest).None? then None
            else Some([ReadBody(Kind(p), Body(p)).value] + ReadStream(rest).value)
  {
    hide Kind, Body, ReadBody, Int32, ReadInt32, ReadBytes;
    var b := Wire(p) + rest;
    var n := 4 + |Body(p)|;
    assert b[1..] == Int32(n) + (Body(p) + rest);
    ReadInt32Inverts(n, Body(p) + rest);
    ReadBytesInverts(Body(p), rest);
  }
}
