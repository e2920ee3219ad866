/** Decimal text of machine integers: `std::to_string`, and the number that
    `std::stoi` and `std::stoll` read off the front of a string. */
module Decimal {
  import opened Wrappers

  const INT32_MIN := -0x8000_0000
  const INT32_MAX := 0x7fff_ffff
  const INT64_MIN := -0x8000_0000_0000_0000
  const INT64_MAX := 0x7fff_ffff_ffff_ffff

  predicate IsDigit(c: char) {
    '0' <= c <= '9'
  }

  function Digit(d: nat): char
    requires d < 10
  {
    ('0' as int + d) as char
  }

  function NatToString(n: nat): string {
    if n < 10 then [Digit(n)] else NatToString(n / 10) + [Digit(n % 10)]
  }

  function ToString(i: int): string {
    if i < 0 then "-" + NatToString(-i) else NatToString(i)
  }

  /** The characters that `isspace` accepts in the C locale. */
  predicate IsSpace(c: char) {
    c == ' ' || '\U{09}' <= c <= '\U{0D}'
  }

  function SkipSpaces(s: string): string {
    if s != "" && IsSpace(s[0]) then SkipSpaces(s[1..]) else s
  }

  function LeadingDigits(s: string): (n: nat)
    ensures n <= |s| && forall k :: 0 <= k < n ==> IsDigit(s[k])
    ensures n < |s| ==> !IsDigit(s[n])
  {
    if s != "" && IsDigit(s[0]) then 1 + LeadingDigits(s[1..]) else 0
  }

  function Value(digits: string): nat
    requires forall k :: 0 <= k < |digits| ==> IsDigit(digits[k])
  {
    if digits == "" then 0
    else
      assert IsDigit(digits[|digits| - 1]);
      Value(digits[..|digits| - 1]) * 10 + (digits[|digits| - 1] as int - '0' as int)
  }

  datatype ParseError = InvalidArgument | OutOfRange

  /** Leading white space, an optional sign and at least one digit; whatever
      follows the digits is ignored. */
  function ParseInteger(s: string, min: int, max: int): Result<int, ParseError> {
    var t := SkipSpaces(s);
    var negative := t != "" && t[0] == '-';
    var u := if t != "" && (t[0] == '-' || t[0] == '+') then t[1..] else t;
    var n := LeadingDigits(u);
    if n == 0 then Err(InvalidArgument)
    else
      var magnitude: int := Value(u[..n]);
      var v := if negative then -magnitude else magnitude;
      if min <= v <= max then Ok(v) else Err(OutOfRange)
  }

  function Stoi(s: string): Result<int, ParseError> {
    ParseInteger(s, INT32_MIN, INT32_MAX)
  }

  function Stoll(s: string): Result<int, ParseError> {
    ParseInteger(s, INT64_MIN, INT64_MAX)
  }

  lemma {:induction false} NatToStringIsDigits(n: nat)
    ensures NatToString(n) != ""
    ensures forall k :: 0 <= k < |NatToString(n)| ==> IsDigit(NatToString(n)[k])
    ensures Value(NatToString(n)) == n
  {
    if n >= 10 {
      NatToStringIsDigits(n / 10);
      var s := NatToString(n);
      assert s[..|s| - 1] == NatToString(n / 10);
    } else {
      assert NatToString(n)[..0] == "";
    }
  }

  lemma {:induction false} AllDigits(s: string)
    requires forall k :: 0 <= k < |s| ==> IsDigit(s[k])
    ensures LeadingDigits(s) == |s|
  {
    if s != "" {
      assert forall k :: 0 <= k < |s[1..]| ==> s[1..][k] == s[k + 1];
      AllDigits(s[1..]);
    }
  }

  /** Reading back a printed integer gives it, exactly when it fits the width. */
  lemma ParseInvertsPrint(i: int, min: int, max: int)
    ensures ParseInteger(ToString(i), min, max) == if min <= i <= max then Ok(i) else Err(OutOfRange)
  {
    var n := if i < 0 then -i else i;
    var s := NatToString(n);
    NatToStringIsDigits(n);
    AllDigits(s);
    assert s[..|s|] == s;
    assert IsDigit(s[0]);
    var t := ToString(i);
    assert SkipSpaces(t) == t;
    assert i < 0 ==> t[1..] == s;
  }

  /** Digits without a leading zero. */
  predicate IsCanonicalNat(s: string) {
    && s != "" && (forall k :: 0 <= k < |s| ==> IsDigit(s[k]))
    && (|s| > 1 ==> s[0] != '0')
  }

  /** The texts that `std::to_string` makes: no leading zero, no minus zero. */
  predicate IsCanonical(s: string) {
    if s != "" && s[0] == '-' then IsCanonicalNat(s[1..]) && s != "-0" else IsCanonicalNat(s)
  }

  lemma {:induction false} NatTextIsCanonical(n: nat)
    ensures IsCanonicalNat(NatToString(n))
    ensures NatToString(n)[0] == '0' ==> n == 0
  {
    NatToStringIsDigits(n);
    if n >= 10 {
      NatTextIsCanonical(n / 10);
    }
  }

  lemma AnotherDigit(n: nat, d: nat)
    requires d < 10
    ensures n > 0 ==> NatToString(n * 10 + d) == NatToString(n) + [Digit(d)]
    ensures NatToString(d) == [Digit(d)]
  {
    assert (n * 10 + d) / 10 == n && (n * 10 + d) % 10 == d;
  }

  lemma {:induction false} NatTextIsUnique(s: string)
    requires IsCanonicalNat(s)
    ensures NatToString(Value(s)) == s
    ensures |s| > 1 ==> Value(s) >= 10
    ensures Value(s) == 0 ==> s == "0"
  {
    hide NatToString;
    var n := |s| - 1;
    assert IsDigit(s[n]);
    var d := s[n] as int - '0' as int;
    AnotherDigit(Value(s[..n]), d);
    assert s == s[..n] + [Digit(d)];
    if n == 0 {
      assert s[..0] == "";
    } else {
      assert s[..n][0] == s[0];
      NatTextIsUnique(s[..n]);
    }
  }

  /** The text of an integer is canonical ... */
  lemma TextIsCanonical(i: int)
    ensures IsCanonical(ToString(i))
  {
    var n := if i < 0 then -i else i;
    NatTextIsCanonical(n);
    NatToStringIsDigits(n);
    assert i < 0 ==> ToString(i)[1..] == NatToString(n);
  }

  /** ... and the only canonical text that is read as that integer. */
  lemma CanonicalTextIsUnique(s: string, i: int)
    requires IsCanonical(s) && ParseInteger(s, i, i) == Ok(i)
    ensures s == ToString(i)
  {
    hide NatToString, Value, LeadingDigits;
    var u := if s[0] == '-' then s[1..] else s;
    assert SkipSpaces(s) == s by {
      assert s[0] == '-' || IsDigit(s[0]);
    }
    AllDigits(u);
    assert u[..|u|] == u;
    NatTextIsUnique(u);
    if s[0] == '-' {
      assert s == "-" + u;
    }
  }

  /** The text of an integer holds digits and a sign only. */
  lemma PrintedHasNoSlash(i: int)
    ensures '/' !in ToString(i)
  {
    NatToStringIsDigits(if i < 0 then -i else i);
  }

  lemma {:induction false} SlashEndsSpaces(s: string, x: string)
    ensures SkipSpaces(s + "/" + x) == SkipSpaces(s) + "/" + x
  {
    if s != "" && IsSpace(s[0]) {
      assert (s + "/" + x)[1..] == s[1..] + "/" + x;
      SlashEndsSpaces(s[1..], x);
    }
  }

  lemma {:induction false} SlashEndsDigits(s: string, x: string)
    ensures LeadingDigits(s + "/" + x) == LeadingDigits(s)
  {
    if s != "" && IsDigit(s[0]) {
      assert (s + "/" + x)[1..] == s[1..] + "/" + x;
      SlashEndsDigits(s[1..], x);
    }
  }

  /** Nothing from a slash on is read. */
  lemma SlashEndsNumber(s: string, x: string, min: int, max: int)
    ensures ParseInteger(s + "/" + x, min, max) == ParseInteger(s, min, max)
  {
    hide SkipSpaces, LeadingDigits, Value;
    SlashEndsSpaces(s, x);
    var t, long := SkipSpaces(s), SkipSpaces(s + "/" + x);
    assert long == t + "/" + x;
    assert t != "" ==> long[0] == t[0] && long[1..] == t[1..] + "/" + x;
    var u := if t != "" && (t[0] == '-' || t[0] == '+') then t[1..] else t;
    SlashEndsDigits(u, x);
    var n := LeadingDigits(u);
    assert (u + "/" + x)[..n] == u[..n];
  }

  lemma PrintIsInjective(i: int, j: int)
    requires ToString(i) == ToString(j)
    ensures i == j
  {
    var m := if i < 0 then -i else i;
    var n := if j < 0 then -j else j;
    ParseInvertsPrint(i, -m, m);
    ParseInvertsPrint(j, -m, m);
  }
}
