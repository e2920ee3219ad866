/** Column types, datums, tables and their list partitions, with the text
    encoding that datums have in the store. */
module Schema {
  import opened Wrappers
  import opened Decimal

  datatype Type = Int64 | String

  type int64 = i: int | INT64_MIN <= i <= INT64_MAX

  datatype Datum = IntDatum(i: int64) | StringDatum(s: string)

  datatype Column = Column(name: string, ty: Type, isPrimaryKey: bool)

  /** A list partition: the values it lists and its placement constraints. */
  datatype SinglePartition = SinglePartition(values: seq<string>, constraints: map<string, string>)

  datatype Partition =
    | NullPartition
    | ListPartition(columnName: string, partitions: map<string, SinglePartition>)

  datatype Table = Table(name: string, columns: seq<Column>, partition: Partition)

  function Encode(d: Datum): string {
    match d
    case IntDatum(i) => ToString(i)
    case StringDatum(s) => s
  }

  function Decode(text: string, ty: Type): Result<Datum, ParseError> {
    match ty
    case Int64 =>
      (match Stoll(text)
       case Ok(i) => if INT64_MIN <= i <= INT64_MAX then Ok(IntDatum(i)) else Err(OutOfRange)
       case Err(e) => Err(e))
    case String => Ok(StringDatum(text))
  }

  function EncodeAll(row: seq<Datum>): (cells: seq<string>)
    ensures |cells| == |row| && forall i :: 0 <= i < |row| ==> cells[i] == Encode(row[i])
  {
    seq(|row|, i requires 0 <= i < |row| => Encode(row[i]))
  }

  predicate HasType(d: Datum, ty: Type) {
    match d
    case IntDatum(_) => ty == Int64
    case StringDatum(_) => ty == String
  }

  lemma DecodeInvertsEncode(d: Datum, ty: Type)
    ensures Decode(Encode(d), ty) == Ok(d) <==> HasType(d, ty)
  {
    if d.IntDatum? {
      ParseInvertsPrint(d.i, INT64_MIN, INT64_MAX);
    }
  }

  /** The first primary-key column, or -1. */
  function PkIndex(columns: seq<Column>): (p: int)
    ensures -1 <= p < |columns|
    ensures p >= 0 ==> columns[p].isPrimaryKey
    ensures forall i :: 0 <= i < (if p >= 0 then p else |columns|) ==> !columns[i].isPrimaryKey
  {
    if columns == [] then -1
    else if columns[0].isPrimaryKey then 0
    else
      var rest := PkIndex(columns[1..]);
      assert forall i :: 1 <= i < |columns| ==> columns[i] == columns[1..][i - 1];
      if rest >= 0 then rest + 1 else -1
  }

  method GetPkIndex(columns: seq<Column>) returns (p: int)
    ensures p == PkIndex(columns)
  {
    for i := 0 to |columns|
      invariant forall k :: 0 <= k < i ==> !columns[k].isPrimaryKey
    {
      if columns[i].isPrimaryKey {
        return i;
      }
    }
    return -1;
  }
}
