/** Bytes on the wire: network-order integers, NUL-terminated strings, and how a
    receiver reads them back. */
module WireBytes {
  import opened Wrappers

  type byte = b: int | 0 <= b < 256

  type Text = seq<byte>

  const NUL: byte := 0

  function Ascii(s: string): (t: Text)
    ensures |t| == |s|
  {
    seq(|s|, i requires 0 <= i < |s| => s[i] as int % 256)
  }

  /** Two's complement in network byte order; wider values lose their high bits. */
  function Int16(v: int): (b: seq<byte>)
    ensures |b| == 2
  {
    [v / 0x100 % 0x100, v % 0x100]
  }

  function Int32(v: int): (b: seq<byte>)
    ensures |b| == 4
  {
    Int16(v / 0x1_0000) + Int16(v)
  }

  function CString(s: Text): Text {
    s + [NUL]
  }

  predicate FitsInt16(v: int) {
    -0x8000 <= v < 0x8000
  }

  predicate FitsInt32(v: int) {
    -0x8000_0000 <= v < 0x8000_0000
  }

  function Signed(v: int, width: nat): int {
    if 2 * v < width then v else v - width
  }

  function Unsigned16(b: seq<byte>): nat
    requires |b| >= 2
  {
    b[0] as int * 0x100 + b[1] as int
  }

  function ReadInt16(b: seq<byte>): Option<(int, seq<byte>)> {
    if |b| < 2 then None else Some((Signed(Unsigned16(b), 0x1_0000), b[2..]))
  }

  function ReadInt32(b: seq<byte>): Option<(int, seq<byte>)> {
    if |b| < 4 then None
    else Some((Signed(Unsigned16(b) * 0x1_0000 + Unsigned16(b[2..]), 0x1_0000_0000), b[4..]))
  }

  function ReadBytes(b: seq<byte>, n: int): Option<(seq<byte>, seq<byte>)> {
    if 0 <= n <= |b| then Some((b[..n], b[n..])) else None
  }

  /** Up to the first NUL, which is consumed. */
  function ReadCString(b: seq<byte>): Option<(Text, seq<byte>)> {
    if b == [] then None
    else if b[0] == NUL then Some(([], b[1..]))
    else
      var (s, rest) :- ReadCString(b[1..]);
      Some(([b[0]] + s, rest))
  }

  lemma TwoBytes(v: int, rest: seq<byte>)
    ensures Unsigned16(Int16(v) + rest) == v % 0x1_0000
  {
    var b := Int16(v) + rest;
    assert b[0] == Int16(v)[0] && b[1] == Int16(v)[1];
    assert v == v / 0x100 * 0x100 + v % 0x100;
    assert v / 0x100 == v / 0x100 / 0x100 * 0x100 + v / 0x100 % 0x100;
  }

  lemma ReadInt16Inverts(v: int, rest: seq<byte>)
    ensures ReadInt16(Int16(v) + rest).Some?
    ensures ReadInt16(Int16(v) + rest).value.1 == rest
    ensures ReadInt16(Int16(v) + rest).value.0 == v <==> FitsInt16(v)
  {
    hide Int16, Unsigned16;
    TwoBytes(v, rest);
    assert (Int16(v) + rest)[2..] == rest;
  }

  lemma ReadInt32Inverts(v: int, rest: seq<byte>)
    ensures ReadInt32(Int32(v) + rest).Some?
    ensures ReadInt32(Int32(v) + rest).value.1 == rest
    ensures ReadInt32(Int32(v) + rest).value.0 == v <==> FitsInt32(v)
  {
    hide Int16, Unsigned16;
    var b, low := Int32(v) + rest, Int16(v) + rest;
    var high := v / 0x1_0000;
    assert b == Int16(high) + low && b[2..] == low && b[4..] == rest;
    TwoBytes(high, low);
    TwoBytes(v, rest);
    assert v == high * 0x1_0000 + v % 0x1_0000;
    assert high == high / 0x1_0000 * 0x1_0000 + high % 0x1_0000;
  }

  /** A string is read back exactly when it holds no NUL. */
  lemma {:induction false} ReadCStringInverts(s: Text, rest: seq<byte>)
    ensures ReadCString(CString(s) + rest).Some?
    ensures NUL !in s ==> ReadCString(CString(s) + rest).value == (s, rest)
    ensures NUL in s ==> ReadCString(CString(s) + rest).value.0 != s
  {
    var b := CString(s) + rest;
    if s == [] {
      assert b[1..] == rest;
    } else {
      assert b[1..] == CString(s[1..]) + rest;
      assert s == [s[0]] + s[1..];
      ReadCStringInverts(s[1..], rest);
    }
  }

  lemma ReadBytesInverts(s: seq<byte>, rest: seq<byte>)
    ensures ReadBytes(s + rest, |s|) == Some((s, rest))
  {
    assert (s + rest)[..|s|] == s && (s + rest)[|s|..] == rest;
  }

  function Concat(parts: seq<seq<byte>>): seq<byte> {
    if parts == [] then [] else Concat(parts[..|parts| - 1]) + parts[|parts| - 1]
  }

  lemma {:induction false} ConcatHead(parts: seq<seq<byte>>)
    requires parts != []
    ensures Concat(parts) == parts[0] + Concat(parts[1..])
  {
    var n := |parts| - 1;
    if n > 0 {
      ConcatHead(parts[..n]);
      assert parts[..n][1..] == parts[1..][..n - 1];
    }
  }

  lemma {:induction false} ConcatAppend(a: seq<seq<byte>>, b: seq<seq<byte>>)
    ensures Concat(a + b) == Concat(a) + Concat(b)
  {
    if b == [] {
      assert a + b == a;
    } else {
      var n := |b| - 1;
      assert (a + b)[..|a| + n] == a + b[..n];
      ConcatAppend(a, b[..n]);
    }
  }
}
