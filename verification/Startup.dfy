/** The startup packet: NUL-separated keys and values after the length and the
    protocol version. */
module Startup {
  import opened WireBytes

  type Params = map<Text, Text>

  const VERSION_END := 8

  /** Up to the first NUL, or to the end. */
  function Piece(b: seq<byte>): (t: Text)
    ensures |t| <= |b|
  {
    if b == [] || b[0] == NUL then [] else [b[0]] + Piece(b[1..])
  }

  /** What follows the piece and its NUL. */
  function AfterPiece(b: seq<byte>): (rest: seq<byte>)
    ensures |rest| <= |b| && (b != [] ==> |rest| < |b|)
  {
    if |Piece(b)| < |b| then b[|Piece(b)| + 1..] else []
  }

  /** Keys and values in turn; pairs without a key are dropped, later ones win. */
  function ReadParams(b: seq<byte>, params: Params): Params
    decreases |b|
  {
    if b == [] then params
    else
      var key, rest := Piece(b), AfterPiece(b);
      ReadParams(AfterPiece(rest), if key == [] then params else params[key := Piece(rest)])
  }

  lemma OneByte(b: seq<byte>)
    requires b != [] && b[0] != NUL
    ensures Piece(b) == [b[0]] + Piece(b[1..]) && AfterPiece(b) == AfterPiece(b[1..])
  {
    assert |Piece(b)| < |b| ==> b[|Piece(b)| + 1..] == b[1..][|Piece(b[1..])| + 1..];
  }

  /** The received bytes from a position on. */
  ghost function Left(buffer: array<byte>, received: nat, pos: nat): seq<byte>
    requires received <= buffer.Length
    reads buffer
  {
    if pos < received then buffer[pos..received] else []
  }

  method ReadPiece(buffer: array<byte>, received: nat, start: nat) returns (text: Text, pos: nat)
    requires received <= buffer.Length
    ensures text == Piece(Left(buffer, received, start))
    ensures start < pos && Left(buffer, received, pos) == AfterPiece(Left(buffer, received, start))
  {
    hide Piece, AfterPiece;
    text, pos := [], start;
    while pos < received && buffer[pos] != NUL
      invariant start <= pos
      invariant Piece(Left(buffer, received, start)) == text + Piece(Left(buffer, received, pos))
      invariant AfterPiece(Left(buffer, received, start)) == AfterPiece(Left(buffer, received, pos))
    {
      ghost var left, tail := Left(buffer, received, pos), Left(buffer, received, pos + 1);
      assert left[1..] == tail;
      OneByte(left);
      assert text + ([left[0]] + Piece(tail)) == text + [left[0]] + Piece(tail);
      text := text + [buffer[pos]];
      pos := pos + 1;
    }
    PieceEnds(Left(buffer, received, pos));
    assert pos < received ==> Left(buffer, received, pos)[1..] == Left(buffer, received, pos + 1);
    pos := pos + 1;
  }

  lemma PieceEnds(b: seq<byte>)
    requires b == [] || b[0] == NUL
    ensures Piece(b) == [] && AfterPiece(b) == if b == [] then [] else b[1..]
  {
  }

  // ---------------------------------------------------------------------
  // The printer that a client has
  // ---------------------------------------------------------------------

  function Print(pairs: seq<(Text, Text)>): seq<byte> {
    if pairs == [] then [] else CString(pairs[0].0) + CString(pairs[0].1) + Print(pairs[1..])
  }

  function LastWins(pairs: seq<(Text, Text)>, params: Params): Params {
    if pairs == [] then params
    else LastWins(pairs[1..], if pairs[0].0 == [] then params else params[pairs[0].0 := pairs[0].1])
  }

  predicate NulFree(pairs: seq<(Text, Text)>) {
    forall i :: 0 <= i < |pairs| ==> NUL !in pairs[i].0 && NUL !in pairs[i].1
  }

  lemma {:induction false} PieceInverts(t: Text, rest: seq<byte>)
    requires NUL !in t
    ensures Piece(CString(t) + rest) == t
    ensures AfterPiece(CString(t) + rest) == rest
  {
    var b := CString(t) + rest;
    if t == [] {
      assert b[1..] == rest;
    } else {
      assert b[1..] == CString(t[1..]) + rest;
      PieceInverts(t[1..], rest);
      assert t == [t[0]] + t[1..];
      assert b[|t| + 1..] == rest;
    }
  }

  /** The loop undoes the printer, with or without the closing NUL. */
  lemma {:induction false} StartupInverts(pairs: seq<(Text, Text)>, params: Params)
    requires NulFree(pairs)
    ensures ReadParams(Print(pairs), params) == LastWins(pairs, params)
    ensures ReadParams(Print(pairs) + [NUL], params) == LastWins(pairs, params)
  {
    hide Piece, CString, ReadParams;
    if pairs == [] {
      ClosingNul(params);
      Nothing(params);
      assert Print(pairs) + [NUL] == [NUL];
    } else {
      var (key, value) := pairs[0];
      var more := if key == [] then params else params[key := value];
      OnePair(key, value, Print(pairs[1..]), params);
      OnePair(key, value, Print(pairs[1..]) + [NUL], params);
      assert Print(pairs) + [NUL] == CString(key) + CString(value) + (Print(pairs[1..]) + [NUL]);
      StartupInverts(pairs[1..], more);
    }
  }

  lemma Nothing(params: Params)
    ensures ReadParams([], params) == params
  {
  }

  lemma ClosingNul(params: Params)
    ensures ReadParams([NUL], params) == params
  {
    assert Piece([NUL]) == [] && AfterPiece([NUL]) == [];
  }

  lemma OnePair(key: Text, value: Text, tail: seq<byte>, params: Params)
    requires NUL !in key && NUL !in value
    ensures ReadParams(CString(key) + CString(value) + tail, params) ==
            ReadParams(tail, if key == [] then params else params[key := value])
  {
    hide Piece, AfterPiece;
    var b := CString(key) + CString(value) + tail;
    assert b == CString(key) + (CString(value) + tail);
    PieceInverts(key, CString(value) + tail);
    PieceInverts(value, tail);
  }

  /** What is kept for a key is the value of its last pair. */
  lemma {:induction false} LastWinsValue(pairs: seq<(Text, Text)>, params: Params, i: nat)
    requires i < |pairs| && pairs[i].0 != []
    requires forall j :: i < j < |pairs| ==> pairs[j].0 != pairs[i].0
    ensures pairs[i].0 in LastWins(pairs, params) && LastWins(pairs, params)[pairs[i].0] == pairs[i].1
  {
    var more := if pairs[0].0 == [] then params else params[pairs[0].0 := pairs[0].1];
    if i > 0 {
      LastWinsValue(pairs[1..], more, i - 1);
    } else {
      Untouched(pairs[1..], more, pairs[0].0);
    }
  }

  lemma {:induction false} Untouched(pairs: seq<(Text, Text)>, params: Params, key: Text)
    requires forall j :: 0 <= j < |pairs| ==> pairs[j].0 != key
    ensures key in LastWins(pairs, params) <==> key in params
    ensures key in params ==> LastWins(pairs, params)[key] == params[key]
  {
    if pairs != [] {
      Untouched(pairs[1..], if pairs[0].0 == [] then params else params[pairs[0].0 := pairs[0].1], key);
    }
  }

  /** The packet of a client: its length and the protocol version, four bytes each,
      then the pairs and a closing NUL. */
  ghost predicate IsPacket(packet: seq<byte>, pairs: seq<(Text, Text)>) {
    exists version: seq<byte> :: |version| == 4 && packet == Int32(|packet|) + version + (Print(pairs) + [NUL])
  }

  lemma PacketIsRead(buffer: array<byte>, received: nat, pairs: seq<(Text, Text)>)
    requires received <= buffer.Length && IsPacket(buffer[..received], pairs) && NulFree(pairs)
    ensures ReadParams(Left(buffer, received, VERSION_END), map[]) == LastWins(pairs, map[])
  {
    hide Int32, Print, NulFree, ReadParams;
    var packet := buffer[..received];
    var version: seq<byte> :| |version| == 4 && packet == Int32(|packet|) + version + (Print(pairs) + [NUL]);
    assert packet[8..] == Print(pairs) + [NUL];
    assert Left(buffer, received, VERSION_END) == packet[8..];
    StartupInverts(pairs, map[]);
  }

  /** The loop over the received part of the buffer; it depends on nothing else. */
  method ReadStartup(buffer: array<byte>, received: nat) returns (params: Params)
    requires received <= buffer.Length
    ensures params == ReadParams(Left(buffer, received, VERSION_END), map[])
    ensures forall pairs :: IsPacket(buffer[..received], pairs) && NulFree(pairs) ==> params == LastWins(pairs, map[])
  {
    hide Piece, AfterPiece, IsPacket, NulFree;
    forall pairs | IsPacket(buffer[..received], pairs) && NulFree(pairs)
      ensures ReadParams(Left(buffer, received, VERSION_END), map[]) == LastWins(pairs, map[])
    {
      PacketIsRead(buffer, received, pairs);
    }
    params := map[];
    var pos := VERSION_END;
    while pos < received
      invariant pos >= VERSION_END
      invariant ReadParams(Left(buffer, received, VERSION_END), map[]) == ReadParams(Left(buffer, received, pos), params)
    {
      var key, middle := ReadPiece(buffer, received, pos);
      var value, after := ReadPiece(buffer, received, middle);
      if key != [] {
        params := params[key := value];
      }
      pos := after;
    }
  }
}
