/** The server's side of the wire: message objects that append themselves to one
    shared buffer, some with their length patched in afterwards and some with it
    computed before. */
module PgWire {
  import opened Wrappers
  import opened WireBytes
  import opened PgFrontend
  import opened Arithmetic
  import Schema
  import Decimal

  class Buffer {
    var bytes: seq<byte>

    constructor ()
      ensures bytes == []
    {
      bytes := [];
    }

    method AppendByte(value: byte)
      modifies this
      ensures bytes == old(bytes) + [value]
    {
      bytes := bytes + [value];
    }

    method AppendInt16(value: int)
      modifies this
      ensures bytes == old(bytes) + Int16(value)
    {
      bytes := bytes + Int16(value);
    }

    method AppendInt32(value: int)
      modifies this
      ensures bytes == old(bytes) + Int32(value)
    {
      bytes := bytes + Int32(value);
    }

    /** Overwrites four bytes in place. */
    method WriteInt32(value: int, offset: nat)
      requires offset + 4 <= |bytes|
      modifies this
      ensures bytes == old(bytes)[..offset] + Int32(value) + old(bytes)[offset + 4..]
    {
      bytes := bytes[..offset] + Int32(value) + bytes[offset + 4..];
    }

    method AppendCString(value: Text)
      modifies this
      ensures bytes == old(bytes) + CString(value)
    {
      bytes := bytes + value;
      bytes := bytes + [NUL];
      assert old(bytes) + value + [NUL] == old(bytes) + CString(value);
    }

    method AppendVector(value: seq<byte>)
      modifies this
      ensures bytes == old(bytes) + value
    {
      bytes := bytes + value;
    }

    /** Sets the length word, written as a placeholder between `head` and `body`, to
        the number of bytes from it to the end of the buffer. */
    method PatchLength(offset: nat, ghost head: seq<byte>, ghost body: seq<byte>)
      requires offset == |head| && bytes == head + Int32(0) + body
      modifies this
      ensures bytes == head + Int32(4 + |body|) + body
    {
      var messageLength := |bytes| - offset;
      assert bytes[..offset] == head && bytes[offset + 4..] == body;
      WriteInt32(messageLength, offset);
    }
  }

  lemma Assoc(a: seq<byte>, b: seq<byte>, c: seq<byte>)
    ensures a + b + c == a + (b + c)
  {
  }

  lemma AssocWire(s: seq<byte>, kind: byte, length: seq<byte>, body: seq<byte>)
    ensures s + [kind] + length + body == s + ([kind] + (length + body))
  {
  }

  /** A column of a result set, by the name its Arrow type prints. */
  datatype Field = Field(name: Text, typeName: string)

  /** Columns of cells; every column has `numRows` of them. */
  datatype Batch = Batch(fields: seq<Field>, numRows: nat, columns: seq<seq<Text>>)

  datatype Severity = ERROR | FATAL | PANIC | WARNING | NOTICE | DEBUG | INFO | LOG

  datatype Message =
    | AuthenticationOk
    | EmptyQueryResponse
    | RowDescriptionResponse(fields: seq<Field>)
    | DataRowResponse(batch: Batch)
    | CommandCompleteResponse
    | ErrorResponse(severity: Severity, message: Text)
    | ParameterStatus(key: Text, value: Text)
    | BackendKeyData(processId: int, secretKey: int)
    | ReadyForQuery

  function TypeFromString(name: string): Option<Schema.Type> {
    if name == "int4" then Some(Schema.Int64)
    else if name == "string" then Some(Schema.String)
    else None
  }

  function ToPgwireOid(ty: Schema.Type): int {
    match ty
    case Int64 => 20
    case String => 25
  }

  function GetPgwireSize(ty: Schema.Type): int {
    match ty
    case Int64 => 8
    case String => -1
  }

  /** The name that a type has in the catalog. */
  function TypeName(ty: Schema.Type): string {
    match ty
    case Int64 => "int4"
    case String => "string"
  }

  lemma TypeNamesInvert(name: string, ty: Schema.Type)
    ensures TypeFromString(name) == Some(ty) <==> name == TypeName(ty)
  {
    assert "int4"[0] != "string"[0];
  }

  function FromPgwireOid(oid: int): Option<Schema.Type> {
    if oid == 20 then Some(Schema.Int64)
    else if oid == 25 then Some(Schema.String)
    else None
  }

  /** Type OIDs and types determine each other. */
  lemma OidsInvert(oid: int, ty: Schema.Type)
    ensures FromPgwireOid(oid) == Some(ty) <==> oid == ToPgwireOid(ty)
  {
  }

  /** A type of fixed size has the number of bytes of its values, any other -1. */
  lemma SizesAreWidths(ty: Schema.Type)
    ensures match ty
            case Int64 =>
              GetPgwireSize(ty) == 4 + 4 &&
              Decimal.INT64_MAX - Decimal.INT64_MIN + 1 == 0x1_0000_0000 * 0x1_0000_0000
            case String => GetPgwireSize(ty) == -1
  {
  }

  function SeverityText(severity: Severity): Option<string> {
    match severity
    case DEBUG => Some("DEBUG")
    case INFO => Some("INFO")
    case ERROR => Some("ERROR")
    case _ => None
  }

  // ---------------------------------------------------------------------
  // What each message object says, in the terms of the protocol
  // ---------------------------------------------------------------------

  /** Encoding raises an exception for an unknown column type or severity. */
  predicate Encodable(m: Message) {
    match m
    case RowDescriptionResponse(fields) =>
      forall i :: 0 <= i < |fields| ==> TypeFromString(fields[i].typeName).Some?
    case ErrorResponse(severity, _) => SeverityText(severity).Some?
    case _ => true
  }

  /** The source counts fields in a 16-bit integer; a batch has all its cells. */
  predicate WellShaped(m: Message) {
    match m
    case RowDescriptionResponse(fields) => |fields| < 0x8000
    case DataRowResponse(batch) => forall j :: 0 <= j < |batch.columns| ==> |batch.columns[j]| == batch.numRows
    case _ => true
  }

  function Describe(f: Field): FieldDescription
    requires TypeFromString(f.typeName).Some?
  {
    var ty := TypeFromString(f.typeName).value;
    FieldDescription(f.name, 0, 0, ToPgwireOid(ty), GetPgwireSize(ty), 0, 0)
  }

  function DescribeAll(fields: seq<Field>): seq<FieldDescription>
    requires forall i :: 0 <= i < |fields| ==> TypeFromString(fields[i].typeName).Some?
  {
    seq(|fields|, i requires 0 <= i < |fields| => Describe(fields[i]))
  }

  function RowCells(batch: Batch, row: nat): (cells: seq<Text>)
    requires row < batch.numRows
    requires forall j :: 0 <= j < |batch.columns| ==> |batch.columns[j]| == batch.numRows
    ensures |cells| == |batch.columns|
  {
    seq(|batch.columns|, j requires 0 <= j < |batch.columns| => batch.columns[j][row])
  }

  function RowPackets(batch: Batch, n: nat): (ps: seq<Packet>)
    requires n <= batch.numRows
    requires forall j :: 0 <= j < |batch.columns| ==> |batch.columns[j]| == batch.numRows
    ensures |ps| == n
  {
    seq(n, i requires 0 <= i < n => DataRow(RowCells(batch, i)))
  }

  /** The protocol messages that one message object stands for. */
  function Packets(m: Message): seq<Packet>
    requires Encodable(m) && WellShaped(m)
  {
    match m
    case AuthenticationOk => [Authentication(0)]
    case EmptyQueryResponse => [EmptyQuery]
    case RowDescriptionResponse(fields) => [RowDescription(DescribeAll(fields))]
    case DataRowResponse(batch) => RowPackets(batch, batch.numRows)
    case CommandCompleteResponse => [CommandComplete(Ascii("SELECT 0"))]
    case ErrorResponse(severity, message) =>
      [ErrorReport([('S' as int, Ascii(SeverityText(severity).value)), ('M' as int, message)])]
    case ParameterStatus(key, value) => [Parameter(key, value)]
    case BackendKeyData(processId, secretKey) => [KeyData(processId, secretKey)]
    case ReadyForQuery => [Ready('I' as int)]
  }

  function AllPackets(ms: seq<Message>): seq<Packet>
    requires forall i :: 0 <= i < |ms| ==> Encodable(ms[i]) && WellShaped(ms[i])
  {
    if ms == [] then [] else AllPackets(ms[..|ms| - 1]) + Packets(ms[|ms| - 1])
  }

  // ---------------------------------------------------------------------
  // Encoding
  // ---------------------------------------------------------------------

  method EncodeField(f: Field, ty: Schema.Type, buffer: Buffer)
    requires TypeFromString(f.typeName) == Some(ty)
    modifies buffer
    ensures buffer.bytes == old(buffer.bytes) + FieldBytes(Describe(f))
  {
    hide Int16, Int32, CString, TypeFromString;
    buffer.AppendCString(f.name);
    // table OID, column attribute number
    buffer.AppendInt32(0);
    buffer.AppendInt16(0);
    buffer.AppendInt32(ToPgwireOid(ty));
    buffer.AppendInt16(GetPgwireSize(ty));
    // type modifier, format code
    buffer.AppendInt32(0);
    buffer.AppendInt16(0);
    AssocField(old(buffer.bytes), CString(f.name), Int32(0), Int16(0), Int32(ToPgwireOid(ty)),
               Int16(GetPgwireSize(ty)), Int32(0), Int16(0));
  }

  lemma AssocField(
      s: seq<byte>, a: seq<byte>, b: seq<byte>, c: seq<byte>, d: seq<byte>, e: seq<byte>, f: seq<byte>, g: seq<byte>)
    ensures s + a + b + c + d + e + f + g == s + (a + (b + (c + (d + (e + (f + g))))))
  {
    Assoc(s + a + b + c + d + e, f, g);
    Assoc(s + a + b + c + d, e, f + g);
    Assoc(s + a + b + c, d, e + (f + g));
    Assoc(s + a + b, c, d + (e + (f + g)));
    Assoc(s + a, b, c + (d + (e + (f + g))));
    Assoc(s, a, b + (c + (d + (e + (f + g)))));
  }

  /** The 16-bit counter of the source: what it holds of a number of fields ... */
  function Counted(n: nat): int {
    Signed(n % 0x1_0000, 0x1_0000)
  }

  /** ... and the fields that it lets through. */
  function Shown(fields: seq<Field>): (shown: seq<Field>)
    ensures shown <= fields
    ensures |shown| == if Counted(|fields|) > 0 then Counted(|fields|) else 0
  {
    if Counted(|fields|) > 0 then fields[..Counted(|fields|)] else []
  }

  function DescriptionBytes(fields: seq<Field>): seq<byte>
    requires Encodable(RowDescriptionResponse(Shown(fields)))
  {
    var body := Int16(|fields|) + Concat(AllFieldBytes(DescribeAll(Shown(fields))));
    ['T' as int] + (Int32(4 + |body|) + body)
  }

  /** T: fields one by one, then the length patched in. */
  method EncodeRowDescription(fields: seq<Field>, buffer: Buffer) returns (ok: bool)
    modifies buffer
    ensures ok <==> Encodable(RowDescriptionResponse(Shown(fields)))
    ensures ok ==> buffer.bytes == old(buffer.bytes) + DescriptionBytes(fields)
  {
    hide Int16, Int32, Concat, AllFieldBytes, TypeFromString, Describe, Counted;
    buffer.AppendByte('T' as int);
    var preBytes := |buffer.bytes|;
    ghost var head := buffer.bytes;
    buffer.AppendInt32(0);
    var numFields := Counted(|fields|);
    CountedIsSame(|fields|);
    buffer.AppendInt16(numFields);
    ghost var done: seq<FieldDescription> := [];
    NoFields(head + Int32(0), Int16(|fields|));
    var i := 0;
    while i < numFields
      invariant |done| == i <= |Shown(fields)|
      invariant forall k :: 0 <= k < i ==> TypeFromString(fields[k].typeName).Some? && done[k] == Describe(fields[k])
      invariant buffer.bytes == head + Int32(0) + (Int16(|fields|) + Concat(AllFieldBytes(done)))
    {
      assert Shown(fields)[i] == fields[i];
      var ty := TypeFromString(fields[i].typeName);
      if ty.None? {
        return false;
      }
      EncodeField(fields[i], ty.value, buffer);
      ghost var f := Describe(fields[i]);
      Assoc(head + Int32(0), Int16(|fields|) + Concat(AllFieldBytes(done)), FieldBytes(f));
      Assoc(Int16(|fields|), Concat(AllFieldBytes(done)), FieldBytes(f));
      FieldsAppend(done, f);
      done := done + [f];
      i := i + 1;
    }
    assert done == DescribeAll(Shown(fields));
    ghost var body := Int16(|fields|) + Concat(AllFieldBytes(done));
    buffer.PatchLength(preBytes, head, body);
    AssocWire(old(buffer.bytes), 'T' as int, Int32(4 + |body|), body);
    return true;
  }

  lemma CountedIsSame(n: nat)
    ensures Int16(Counted(n)) == Int16(n)
    ensures Counted(n) <= n
    ensures Counted(n) == n <==> n < 0x8000
  {
    var q, r := n / 0x1_0000, n % 0x1_0000;
    assert n == q * 0x1_0000 + r;
    assert Counted(n) == r || Counted(n) == r - 0x1_0000;
    Int16Wraps(n, q);
    Int16Wraps(n, q + 1);
  }

  lemma Int16Wraps(n: int, q: int)
    ensures Int16(n - q * 0x1_0000) == Int16(n)
  {
    var w: nat :| w == 0x100;
    assert q * 0x1_0000 == (q * w) * w;
    DivisionParts(w, n);
    assert n - q * 0x1_0000 == (n / w - q * w) * w + n % w;
    DivisionIsUnique(w, n - q * 0x1_0000, n / w - q * w, n % w);
    CongruentBy(w, n / w - q * w, n / w, -q);
  }

  /** Fewer than 32768 fields are all shown, as one well-formed message. */
  lemma FewFieldsAreShown(fields: seq<Field>)
    requires |fields| < 0x8000 && Encodable(RowDescriptionResponse(fields))
    ensures Shown(fields) == fields
    ensures DescriptionBytes(fields) == Wire(RowDescription(DescribeAll(fields)))
  {
    hide Int16, Int32, Concat, TypeFromString;
    CountedIsSame(|fields|);
  }

  lemma NoFields(s: seq<byte>, count: seq<byte>)
    ensures s + count == s + (count + Concat(AllFieldBytes([])))
  {
    assert AllFieldBytes([]) == [];
  }

  lemma FieldsAppend(fields: seq<FieldDescription>, f: FieldDescription)
    ensures Concat(AllFieldBytes(fields + [f])) == Concat(AllFieldBytes(fields)) + FieldBytes(f)
  {
    assert AllFieldBytes(fields + [f])[..|fields|] == AllFieldBytes(fields);
  }

  lemma CellsAppend(cells: seq<Text>, cell: Text)
    ensures Concat(AllCellBytes(cells + [cell])) == Concat(AllCellBytes(cells)) + CellBytes(cell)
  {
    assert AllCellBytes(cells + [cell])[..|cells|] == AllCellBytes(cells);
  }

  /** One D message: the cells of a row across the columns, then the length. */
  method EncodeRow(batch: Batch, row: nat, buffer: Buffer)
    requires WellShaped(DataRowResponse(batch)) && row < batch.numRows
    modifies buffer
    ensures buffer.bytes == old(buffer.bytes) + Wire(DataRow(RowCells(batch, row)))
  {
    hide Int16, Int32, Concat, AllCellBytes;
    buffer.AppendByte('D' as int);
    var preBytes := |buffer.bytes|;
    ghost var head := buffer.bytes;
    buffer.AppendInt32(0);
    buffer.AppendInt16(|batch.columns|);
    ghost var count := Int16(|batch.columns|);
    ghost var done: seq<Text> := [];
    NoCells(head + Int32(0), count);
    for j := 0 to |batch.columns|
      invariant |done| == j && forall k :: 0 <= k < j ==> done[k] == batch.columns[k][row]
      invariant buffer.bytes == head + Int32(0) + (count + Concat(AllCellBytes(done)))
    {
      var cell := batch.columns[j][row];
      buffer.AppendInt32(|cell|);
      buffer.AppendVector(cell);
      Assoc(head + Int32(0) + (count + Concat(AllCellBytes(done))), Int32(|cell|), cell);
      Assoc(head + Int32(0), count + Concat(AllCellBytes(done)), CellBytes(cell));
      Assoc(count, Concat(AllCellBytes(done)), CellBytes(cell));
      CellsAppend(done, cell);
      done := done + [cell];
    }
    assert done == RowCells(batch, row);
    ghost var body := count + Concat(AllCellBytes(done));
    buffer.PatchLength(preBytes, head, body);
    AssocWire(old(buffer.bytes), 'D' as int, Int32(4 + |body|), body);
  }

  lemma NoCells(s: seq<byte>, count: seq<byte>)
    ensures s + count == s + (count + Concat(AllCellBytes([])))
  {
    assert AllCellBytes([]) == [];
  }

  method EncodeRows(batch: Batch, buffer: Buffer)
    requires WellShaped(DataRowResponse(batch))
    modifies buffer
    ensures buffer.bytes == old(buffer.bytes) + Stream(RowPackets(batch, batch.numRows))
  {
    hide Wire, Concat, AllWire, RowCells;
    NoPackets(old(buffer.bytes));
    assert RowPackets(batch, 0) == [];
    for i := 0 to batch.numRows
      invariant buffer.bytes == old(buffer.bytes) + Stream(RowPackets(batch, i))
    {
      EncodeRow(batch, i, buffer);
      ghost var p := DataRow(RowCells(batch, i));
      assert RowPackets(batch, i + 1) == RowPackets(batch, i) + [p];
      StreamAppend(RowPackets(batch, i), [p]);
      StreamOfOne(p);
      Assoc(old(buffer.bytes), Stream(RowPackets(batch, i)), Wire(p));
    }
  }

  lemma NoPackets(s: seq<byte>)
    ensures s == s + Stream([])
  {
    assert AllWire([]) == [];
  }

  /** E: the two fields are built first, so the length is known before it is written. */
  method EncodeError(severity: Severity, message: Text, buffer: Buffer) returns (ok: bool)
    modifies buffer
    ensures ok <==> Encodable(ErrorResponse(severity, message))
    ensures ok ==> buffer.bytes == old(buffer.bytes) +
                     Wire(ErrorReport([('S' as int, Ascii(SeverityText(severity).value)), ('M' as int, message)]))
  {
    hide Int32, CString, Ascii, Body;
    buffer.AppendByte('E' as int);
    var text := SeverityText(severity);
    if text.None? {
      return false;
    }
    var fieldSeverity := EncodeErrorField('S' as int, Ascii(text.value));
    var fieldMessage := EncodeErrorField('M' as int, message);
    var messageLength := 4 + |fieldSeverity| + |fieldMessage| + 1;
    buffer.AppendInt32(messageLength);
    buffer.AppendVector(fieldSeverity);
    buffer.AppendVector(fieldMessage);
    buffer.AppendByte(NUL);
    ghost var body := fieldSeverity + fieldMessage + [NUL];
    TwoItems('S' as int, Ascii(text.value), 'M' as int, message);
    ghost var head := old(buffer.bytes) + ['E' as int] + Int32(messageLength);
    Assoc(head + fieldSeverity, fieldMessage, [NUL]);
    Assoc(head, fieldSeverity, fieldMessage + [NUL]);
    Assoc(fieldSeverity, fieldMessage, [NUL]);
    AssocWire(old(buffer.bytes), 'E' as int, Int32(messageLength), body);
    return true;
  }

  method EncodeErrorField(kind: byte, text: Text) returns (bytes: seq<byte>)
    ensures bytes == [kind] + CString(text)
  {
    var buffer := new Buffer();
    buffer.AppendByte(kind);
    buffer.AppendCString(text);
    return buffer.bytes;
  }

  lemma TwoItems(a: byte, s: Text, b: byte, t: Text)
    ensures Body(ErrorReport([(a, s), (b, t)])) == [a] + CString(s) + ([b] + CString(t)) + [NUL]
  {
    hide CString;
    var items: seq<(byte, Text)> := [(a, s), (b, t)];
    var parts: seq<seq<byte>> := AllItemBytes(items);
    var first := parts[..1];
    assert first[..0] == [];
    assert Concat(first) == [] + parts[0];
    assert Concat(parts) == parts[0] + parts[1];
  }

  method EncodeParameterStatus(key: Text, value: Text, buffer: Buffer)
    modifies buffer
    ensures buffer.bytes == old(buffer.bytes) + Wire(Parameter(key, value))
  {
    hide Int32;
    buffer.AppendByte('S' as int);
    buffer.AppendInt32(4 + |key| + 1 + |value| + 1);
    buffer.AppendCString(key);
    buffer.AppendCString(value);
    ghost var length := Int32(4 + |key| + 1 + |value| + 1);
    Assoc(old(buffer.bytes) + ['S' as int] + length, CString(key), CString(value));
    AssocWire(old(buffer.bytes), 'S' as int, length, CString(key) + CString(value));
  }

  method EncodeBackendKeyData(processId: int, secretKey: int, buffer: Buffer)
    modifies buffer
    ensures buffer.bytes == old(buffer.bytes) + Wire(KeyData(processId, secretKey))
  {
    hide Int32;
    buffer.AppendByte('K' as int);
    buffer.AppendInt32(12);
    buffer.AppendInt32(processId);
    buffer.AppendInt32(secretKey);
    Assoc(old(buffer.bytes) + ['K' as int] + Int32(12), Int32(processId), Int32(secretKey));
    AssocWire(old(buffer.bytes), 'K' as int, Int32(12), Int32(processId) + Int32(secretKey));
  }

  method EncodeCommandComplete(buffer: Buffer)
    modifies buffer
    ensures buffer.bytes == old(buffer.bytes) + Wire(CommandComplete(Ascii("SELECT 0")))
  {
    hide Int32, Ascii;
    buffer.AppendByte('C' as int);
    var preBytes := |buffer.bytes|;
    ghost var head := buffer.bytes;
    buffer.AppendInt32(0);
    buffer.AppendCString(Ascii("SELECT 0"));
    ghost var body := CString(Ascii("SELECT 0"));
    buffer.PatchLength(preBytes, head, body);
    AssocWire(old(buffer.bytes), 'C' as int, Int32(4 + |body|), body);
  }

  /** Messages whose whole content is fixed. */
  method EncodeFixed(m: Message, buffer: Buffer)
    requires m.AuthenticationOk? || m.EmptyQueryResponse? || m.ReadyForQuery?
    modifies buffer
    ensures buffer.bytes == old(buffer.bytes) + Wire(Packets(m)[0])
  {
    hide Int32;
    ghost var s := old(buffer.bytes);
    match m {
      case AuthenticationOk =>
        buffer.AppendByte('R' as int);
        buffer.AppendInt32(8);
        buffer.AppendInt32(0);
        AssocWire(s, 'R' as int, Int32(8), Int32(0));
      case EmptyQueryResponse =>
        buffer.AppendByte('I' as int);
        buffer.AppendInt32(4);
        AssocWire(s, 'I' as int, Int32(4), []);
        assert s + ['I' as int] + Int32(4) + [] == s + ['I' as int] + Int32(4);
      case ReadyForQuery =>
        buffer.AppendByte('Z' as int);
        buffer.AppendInt32(5);
        buffer.AppendByte('I' as int);
        AssocWire(s, 'Z' as int, Int32(5), ['I' as int]);
    }
  }

  /** Any message object appends exactly its protocol messages, or raises. */
  method Encode(m: Message, buffer: Buffer) returns (ok: bool)
    requires WellShaped(m)
    modifies buffer
    ensures ok <==> Encodable(m)
    ensures ok ==> buffer.bytes == old(buffer.bytes) + Stream(Packets(m))
  {
    hide Wire, Stream, Ascii, RowPackets, DescribeAll, TypeFromString, SeverityText;
    ok := true;
    if !m.DataRowResponse? && Encodable(m) {
      StreamOfOne(Packets(m)[0]);
    }
    match m {
      case RowDescriptionResponse(fields) =>
        CountedIsSame(|fields|);
        ok := EncodeRowDescription(fields, buffer);
        if ok {
          FewFieldsAreShown(fields);
        }
      case DataRowResponse(batch) =>
        EncodeRows(batch, buffer);
      case CommandCompleteResponse =>
        EncodeCommandComplete(buffer);
      case ErrorResponse(severity, message) =>
        ok := EncodeError(severity, message, buffer);
      case ParameterStatus(key, value) =>
        EncodeParameterStatus(key, value, buffer);
      case BackendKeyData(processId, secretKey) =>
        EncodeBackendKeyData(processId, secretKey, buffer);
      case _ =>
        EncodeFixed(m, buffer);
    }
  }

  /** A package: all messages into one buffer. None stands for an exception. */
  method SendAll(messages: seq<Message>) returns (sent: Option<seq<byte>>)
    requires forall i :: 0 <= i < |messages| ==> WellShaped(messages[i])
    ensures sent.Some? <==> forall i :: 0 <= i < |messages| ==> Encodable(messages[i])
    ensures sent.Some? ==> sent.value == Stream(AllPackets(messages))
  {
    hide Stream, Encodable, WellShaped, Packets;
    var buffer := new Buffer();
    assert messages[..0] == [];
    NoPackets([]);
    for i := 0 to |messages|
      invariant forall k :: 0 <= k < i ==> Encodable(messages[k])
      invariant buffer.bytes == Stream(AllPackets(messages[..i]))
    {
      var ok := Encode(messages[i], buffer);
      if !ok {
        return None;
      }
      assert messages[..i + 1][..i] == messages[..i];
      StreamAppend(AllPackets(messages[..i]), Packets(messages[i]));
    }
    assert messages[..|messages|] == messages;
    return Some(buffer.bytes);
  }

  /** T, one D per row, C and Z. */
  function BatchPackets(batch: Batch): seq<Packet>
    requires Encodable(RowDescriptionResponse(batch.fields)) && WellShaped(DataRowResponse(batch))
  {
    [RowDescription(DescribeAll(batch.fields))] + RowPackets(batch, batch.numRows) +
      [CommandComplete(Ascii("SELECT 0"))] + [Ready('I' as int)]
  }

  ghost predicate IsRow(p: Packet, batch: Batch, r: nat) {
    && p.DataRow? && |p.cells| == |batch.columns|
    && forall c :: 0 <= c < |batch.columns| ==> r < |batch.columns[c]| && p.cells[c] == batch.columns[c][r]
  }

  ghost predicate IsRowAt(ps: seq<Packet>, batch: Batch, r: nat) {
    1 + r < |ps| && IsRow(ps[1 + r], batch, r)
  }

  /** What the frontend should see of a result set: the column names and types in
      order, the cell of column c in row r as cell c of the r-th row, and the end. */
  ghost predicate ShowsBatch(ps: seq<Packet>, batch: Batch)
    requires WellShaped(DataRowResponse(batch))
  {
    && |ps| == batch.numRows + 3
    && ps[0].RowDescription? && |ps[0].fields| == |batch.fields|
    && (forall j :: 0 <= j < |batch.fields| ==> DescribesField(ps[0].fields[j], batch.fields[j]))
    && (forall r :: 0 <= r < batch.numRows ==> IsRowAt(ps, batch, r))
    && ps[batch.numRows + 1] == CommandComplete(Ascii("SELECT 0"))
    && ps[batch.numRows + 2] == Ready('I' as int)
  }

  predicate DescribesField(d: FieldDescription, f: Field) {
    && d.name == f.name && FromPgwireOid(d.typeOid) == TypeFromString(f.typeName)
    && d.tableOid == 0 && d.attribute == 0 && d.modifier == 0 && d.format == 0
  }

  lemma BatchPacketsShow(batch: Batch)
    requires Encodable(RowDescriptionResponse(batch.fields)) && WellShaped(DataRowResponse(batch))
    ensures ShowsBatch(BatchPackets(batch), batch)
  {
    hide TypeFromString, Ascii;
    var ps := BatchPackets(batch);
    forall j | 0 <= j < |batch.fields|
      ensures DescribesField(ps[0].fields[j], batch.fields[j])
    {
      OidsInvert(ps[0].fields[j].typeOid, TypeFromString(batch.fields[j].typeName).value);
    }
    forall r | 0 <= r < batch.numRows
      ensures IsRowAt(ps, batch, r)
    {
      assert ps[1 + r] == RowPackets(batch, batch.numRows)[r];
    }
  }

  /** The bytes sent show the frontend the result set, if the sizes fit their fields
      and no column name holds a NUL. */
  method SendBatch(batch: Batch) returns (sent: Option<seq<byte>>)
    requires WellShaped(RowDescriptionResponse(batch.fields)) && WellShaped(DataRowResponse(batch))
    ensures sent.Some? <==> Encodable(RowDescriptionResponse(batch.fields))
    ensures sent.Some? ==> sent.value == Stream(BatchPackets(batch))
    ensures sent.Some? && (forall i :: 0 <= i < |BatchPackets(batch)| ==> Fits(BatchPackets(batch)[i])) &&
            (forall j :: 0 <= j < |batch.fields| ==> NulFree(batch.fields[j].name)) ==>
              ReadStream(sent.value).Some? && ShowsBatch(ReadStream(sent.value).value, batch)
  {
    hide ShowsBatch, ReadStream, Fits, NulFree;
    var messages := [RowDescriptionResponse(batch.fields), DataRowResponse(batch), CommandCompleteResponse, ReadyForQuery];
    sent := SendAll(messages);
    if sent.Some? {
      FourMessages(messages[0], messages[1], messages[2], messages[3]);
      BatchPacketsShow(batch);
      if forall i :: 0 <= i < |BatchPackets(batch)| ==> Fits(BatchPackets(batch)[i]) {
        BatchIsUnderstood(batch);
      }
    } else {
      assert !Encodable(messages[0]);
    }
  }

  lemma FourMessages(a: Message, b: Message, c: Message, d: Message)
    requires Encodable(a) && Encodable(b) && Encodable(c) && Encodable(d)
    requires WellShaped(a) && WellShaped(b) && WellShaped(c) && WellShaped(d)
    ensures AllPackets([a, b, c, d]) == Packets(a) + Packets(b) + Packets(c) + Packets(d)
  {
    hide Encodable, WellShaped, Packets;
    var ms := [a, b, c, d];
    assert ms[..3] == [a, b, c] && ms[..3][..2] == [a, b] && [a, b][..1] == [a] && [a][..0] == [];
    assert AllPackets([a]) == [] + Packets(a);
    assert AllPackets([a, b]) == Packets(a) + Packets(b);
    assert AllPackets([a, b, c]) == AllPackets([a, b]) + Packets(c) by {
      assert [a, b, c][..2] == [a, b];
    }
  }

  // ---------------------------------------------------------------------
  // The frontend reads back what was said
  // ---------------------------------------------------------------------

  /** A package is understood exactly when no NUL-terminated string in it holds a NUL. */
  lemma PackageIsUnderstood(messages: seq<Message>)
    requires forall i :: 0 <= i < |messages| ==> Encodable(messages[i]) && WellShaped(messages[i])
    requires forall i :: 0 <= i < |AllPackets(messages)| ==> Fits(AllPackets(messages)[i])
    ensures ReadStream(Stream(AllPackets(messages))) == Some(AllPackets(messages)) <==>
            forall i :: 0 <= i < |AllPackets(messages)| ==> StringsNulFree(AllPackets(messages)[i])
  {
    ReadStreamInverts(AllPackets(messages));
  }

  /** A result set of field names without NUL is read back with its cells unchanged,
      whatever bytes the cells hold. */
  lemma BatchIsUnderstood(batch: Batch)
    requires Encodable(RowDescriptionResponse(batch.fields)) && WellShaped(DataRowResponse(batch))
    requires forall i :: 0 <= i < |BatchPackets(batch)| ==> Fits(BatchPackets(batch)[i])
    ensures ReadStream(Stream(BatchPackets(batch))) == Some(BatchPackets(batch)) <==>
            forall j :: 0 <= j < |batch.fields| ==> NulFree(batch.fields[j].name)
  {
    hide TypeFromString, ReadStream, Stream, Fits;
    var ps := BatchPackets(batch);
    ReadStreamInverts(ps);
    var described := DescribeAll(batch.fields);
    assert ps[0] == RowDescription(described);
    assert forall j :: 0 <= j < |batch.fields| ==> described[j].name == batch.fields[j].name;
    assert StringsNulFree(ps[0]) <==> forall j :: 0 <= j < |batch.fields| ==> NulFree(batch.fields[j].name);
    assert NulFree(Ascii("SELECT 0"));
    assert forall i :: 1 <= i < |ps| ==> StringsNulFree(ps[i]);
  }

  /** A description of columns with NUL-free names is understood exactly when there
      are fewer than 32768 of them: beyond that the counter of the source wraps. */
  lemma DescriptionIsUnderstood(fields: seq<Field>)
    requires Encodable(RowDescriptionResponse(fields))
    requires Fits(RowDescription(DescribeAll(Shown(fields))))
    requires forall j :: 0 <= j < |fields| ==> NulFree(fields[j].name)
    ensures ReadStream(DescriptionBytes(fields)) == Some([RowDescription(DescribeAll(fields))]) <==> |fields| < 0x8000
  {
    hide TypeFromString, ReadStream, Int16, Int32, Counted, Concat, Fits, NulFree;
    CountedIsSame(|fields|);
    var shown := DescribeAll(Shown(fields));
    if Counted(|fields|) < 0 {
      NegativeCount(fields);
    } else {
      ShownIsWire(fields);
      assert DescriptionBytes(fields) == Wire(RowDescription(shown));
      StreamOfOne(RowDescription(shown));
      assert forall j :: 0 <= j < |shown| ==> shown[j].name == fields[j].name;
      ReadStreamInverts([RowDescription(shown)]);
      assert |shown| == |fields| ==> shown == DescribeAll(fields);
    }
  }

  lemma ShownIsWire(fields: seq<Field>)
    requires Encodable(RowDescriptionResponse(Shown(fields))) && Counted(|fields|) >= 0
    ensures DescriptionBytes(fields) == Wire(RowDescription(DescribeAll(Shown(fields))))
  {
    hide Int16, Int32, Concat, TypeFromString, Counted;
    CountedIsSame(|fields|);
  }

  lemma NegativeCount(fields: seq<Field>)
    requires Encodable(RowDescriptionResponse(Shown(fields))) && Counted(|fields|) < 0
    ensures ReadStream(DescriptionBytes(fields)) == None
  {
    hide Int16, Int32, ReadInt16, ReadInt32, Unsigned16;
    var n := |fields|;
    assert AllFieldBytes([]) == [];
    assert DescribeAll(Shown(fields)) == [];
    var body := Int16(n) + [];
    var b := DescriptionBytes(fields);
    assert b == ['T' as int] + (Int32(6) + body) && b[1..] == Int32(6) + body;
    ReadInt32Inverts(6, body);
    ReadBytesInverts(body, []);
    assert body + [] == body;
    CountIsRead(n);
    assert ReadBody('T' as int, body).None?;
  }

  lemma CountIsRead(n: nat)
    ensures ReadInt16(Int16(n) + []) == Some((Counted(n), []))
  {
    hide Int16, Unsigned16;
    TwoBytes(n, []);
    assert (Int16(n) + [])[2..] == [];
  }

  /** What the frontend should see of a message object. */
  ghost predicate Says(ps: seq<Packet>, m: Message) {
    match m
    case AuthenticationOk => |ps| == 1 && ps[0].Authentication? && ps[0].code == 0
    case EmptyQueryResponse => |ps| == 1 && ps[0].EmptyQuery?
    case RowDescriptionResponse(fields) =>
      && |ps| == 1 && ps[0].RowDescription? && |ps[0].fields| == |fields|
      && forall j :: 0 <= j < |fields| ==> DescribesField(ps[0].fields[j], fields[j])
    case DataRowResponse(batch) =>
      && |ps| == batch.numRows
      && forall r :: 0 <= r < batch.numRows ==> IsRow(ps[r], batch, r)
    case CommandCompleteResponse => |ps| == 1 && ps[0].CommandComplete? && ps[0].tag == Ascii("SELECT 0")
    case ErrorResponse(severity, message) =>
      && |ps| == 1 && ps[0].ErrorReport? && |ps[0].items| == 2
      && SeverityText(severity).Some? && ('S' as int, Ascii(SeverityText(severity).value)) in ps[0].items
      && ('M' as int, message) in ps[0].items
    case ParameterStatus(key, value) => |ps| == 1 && ps[0].Parameter? && ps[0].name == key && ps[0].setting == value
    case BackendKeyData(processId, secretKey) =>
      |ps| == 1 && ps[0].KeyData? && ps[0].pid == processId && ps[0].secret == secretKey
    case ReadyForQuery => |ps| == 1 && ps[0].Ready? && ps[0].status == 'I' as int
  }

  /** The frontend sees of every message object what it says. */
  lemma MessageIsUnderstood(m: Message)
    requires Encodable(m) && WellShaped(m)
    requires forall i :: 0 <= i < |Packets(m)| ==> Fits(Packets(m)[i]) && StringsNulFree(Packets(m)[i])
    ensures ReadStream(Stream(Packets(m))).Some? && Says(ReadStream(Stream(Packets(m))).value, m)
  {
    PacketsSay(m);
    hide Says, Packets, Fits, StringsNulFree, ReadStream, Encodable, WellShaped;
    ReadStreamInverts(Packets(m));
  }

  lemma PacketsSay(m: Message)
    requires Encodable(m) && WellShaped(m)
    ensures Says(Packets(m), m)
  {
    hide TypeFromString, SeverityText, Ascii;
    match m
    case RowDescriptionResponse(fields) =>
      forall j | 0 <= j < |fields|
        ensures DescribesField(Describe(fields[j]), fields[j])
      {
        OidsInvert(Describe(fields[j]).typeOid, TypeFromString(fields[j].typeName).value);
      }
    case _ =>
  }

  // ---------------------------------------------------------------------
  // Some messages, byte by byte
  // ---------------------------------------------------------------------

  lemma NumbersOnTheWire()
    ensures Int16(0x0102) == [1, 2] && Int32(0x01020304) == [1, 2, 3, 4] && Int16(-1) == [255, 255]
  {
  }

  lemma SmallNumbers()
    ensures Int16(0) == [0, 0] && Int16(1) == [0, 1] && Int16(-1) == [255, 255]
    ensures Int32(0) == [0, 0, 0, 0] && Int32(1) == [0, 0, 0, 1] && Int32(25) == [0, 0, 0, 25]
  {
  }

  lemma SmallLengths()
    ensures Int32(4) == [0, 0, 0, 4] && Int32(5) == [0, 0, 0, 5] && Int32(8) == [0, 0, 0, 8]
    ensures Int32(12) == [0, 0, 0, 12] && Int32(26) == [0, 0, 0, 26]
  {
  }

  lemma FixedMessagesOnTheWire()
    ensures Wire(Authentication(0)) == [82, 0, 0, 0, 8, 0, 0, 0, 0]
    ensures Wire(EmptyQuery) == [73, 0, 0, 0, 4]
    ensures Wire(Ready('I' as int)) == [90, 0, 0, 0, 5, 73]
  {
    SmallNumbers();
    SmallLengths();
    hide Int16, Int32;
  }

  lemma KeyDataOnTheWire()
    ensures Wire(KeyData(1, 0)) == [75, 0, 0, 0, 12, 0, 0, 0, 1, 0, 0, 0, 0]
  {
    SmallNumbers();
    SmallLengths();
    hide Int16, Int32;
    assert Body(KeyData(1, 0)) == [0, 0, 0, 1, 0, 0, 0, 0];
  }

  /** Three severities have a text, which is their name. */
  lemma TextsOnTheWire(severity: Severity)
    ensures SeverityText(severity).Some? <==> severity in {DEBUG, INFO, ERROR}
    ensures Ascii(SeverityText(ERROR).value) == [69, 82, 82, 79, 82]
    ensures Ascii(SeverityText(DEBUG).value) == [68, 69, 66, 85, 71]
    ensures Ascii(SeverityText(INFO).value) == [73, 78, 70, 79]
    ensures Ascii("SELECT 0") == [83, 69, 76, 69, 67, 84, 32, 48]
  {
  }

  lemma TextMessagesOnTheWire()
    ensures Wire(Parameter([97], [98])) == [83, 0, 0, 0, 8, 97, 0, 98, 0]
    ensures Wire(CommandComplete([79, 75, 33])) == [67, 0, 0, 0, 8, 79, 75, 33, 0]
  {
    SmallLengths();
    hide Int32;
    assert Body(Parameter([97], [98])) == [97, 0, 98, 0];
    assert Body(CommandComplete([79, 75, 33])) == [79, 75, 33, 0];
  }

  lemma ErrorOnTheWire()
    ensures Wire(ErrorReport([(83, [88]), (77, [89, 90])])) == [69, 0, 0, 0, 12, 83, 88, 0, 77, 89, 90, 0, 0]
  {
    SmallLengths();
    hide Int32;
    TwoItems(83, [88], 77, [89, 90]);
  }

  lemma RowOnTheWire()
    ensures Wire(DataRow([[120, 121]])) == [68, 0, 0, 0, 12, 0, 1, 0, 0, 0, 2, 120, 121]
  {
    SmallLengths();
    var parts := AllCellBytes([[120, 121]]);
    assert parts == [CellBytes([120, 121])] && parts[..0] == [];
    assert Concat(parts) == [] + CellBytes([120, 121]);
  }

  lemma FieldOnTheWire(f: FieldDescription)
    requires f == FieldDescription([97], 0, 0, 25, -1, 0, 0)
    ensures FieldBytes(f) == [97, 0, 0, 0, 0, 0, 0, 0, 0, 0, 0, 25, 255, 255, 0, 0, 0, 0, 0, 0]
  {
    SmallNumbers();
    hide Int16, Int32;
    var b5 := Int32(0) + Int16(0);
    assert b5 == [0, 0, 0, 0, 0, 0];
    var b4 := Int16(-1) + b5;
    assert b4 == [255, 255, 0, 0, 0, 0, 0, 0];
    var b3 := Int32(25) + b4;
    assert b3 == [0, 0, 0, 25, 255, 255, 0, 0, 0, 0, 0, 0];
    var b2 := Int16(0) + b3;
    assert b2 == [0, 0, 0, 0, 0, 25, 255, 255, 0, 0, 0, 0, 0, 0];
    var b1 := Int32(0) + b2;
    assert b1 == [0, 0, 0, 0, 0, 0, 0, 0, 0, 25, 255, 255, 0, 0, 0, 0, 0, 0];
    assert FieldBytes(f) == CString([97]) + b1;
  }

  lemma OneFieldBody(f: FieldDescription, bytes: seq<byte>)
    requires FieldBytes(f) == bytes
    ensures Body(RowDescription([f])) == [0, 1] + bytes
  {
    SmallNumbers();
    hide FieldBytes, Int16, Int32;
    var parts := AllFieldBytes([f]);
    assert parts == [bytes] && parts[..0] == [];
    assert Concat(parts) == [] + bytes;
  }

  lemma DescriptionOnTheWire()
    ensures Wire(RowDescription([Describe(Field([97], "string"))])) ==
            [84, 0, 0, 0, 26] + ([0, 1] + [97, 0, 0, 0, 0, 0, 0, 0, 0, 0, 0, 25, 255, 255, 0, 0, 0, 0, 0, 0])
  {
    IntegerNamesDiffer();
    hide TypeFromString, FieldBytes, Body, Int32;
    var f := Describe(Field([97], "string"));
    FieldOnTheWire(f);
    OneFieldBody(f, FieldBytes(f));
    SmallLengths();
  }

  // ---------------------------------------------------------------------
  // The result of a query
  // ---------------------------------------------------------------------

  /** How Arrow prints the type that a result column has. */
  function ArrowName(ty: Schema.Type): string {
    match ty
    case Int64 => "int64"
    case String => "string"
  }

  function ResultFields(columns: seq<Schema.Column>): seq<Field> {
    seq(|columns|, i requires 0 <= i < |columns| => Field(Ascii(columns[i].name), ArrowName(columns[i].ty)))
  }

  /** The two names for integers do not meet: a query result can be described to
      the client exactly when it has no integer column. */
  lemma ResultIsDescribable(columns: seq<Schema.Column>)
    ensures Encodable(RowDescriptionResponse(ResultFields(columns))) <==>
            forall i :: 0 <= i < |columns| ==> columns[i].ty == Schema.String
  {
    var fields := ResultFields(columns);
    IntegerNamesDiffer();
    assert forall i :: 0 <= i < |columns| ==> fields[i].typeName == ArrowName(columns[i].ty);
    assert forall i :: 0 <= i < |columns| ==>
      (columns[i].ty == Schema.String <==> TypeFromString(fields[i].typeName).Some?);
  }

  lemma IntegerNamesDiffer()
    ensures TypeFromString(ArrowName(Schema.Int64)).None?
    ensures TypeFromString(ArrowName(Schema.String)) == Some(Schema.String)
  {
    assert "int64"[3] != "int4"[3];
    assert "int64"[0] != "string"[0];
    assert "string"[0] != "int4"[0];
  }
}
