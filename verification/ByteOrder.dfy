/** The order in which the key/value store iterates: byte by byte, a proper
    prefix first. A byte string is modelled as a `string`; the lemmas hold for
    any character alphabet, so in particular for the 256 byte values. */
module ByteOrder {

  predicate Less(a: string, b: string) {
    if |b| == 0 then false
    else if |a| == 0 then true
    else if a[0] != b[0] then a[0] < b[0]
    else Less(a[1..], b[1..])
  }

  predicate AtMost(a: string, b: string) {
    a == b || Less(a, b)
  }

  lemma {:induction false} LessIsTotal(a: string, b: string)
    ensures a == b || Less(a, b) || Less(b, a)
    ensures !(Less(a, b) && Less(b, a))
    ensures !Less(a, a)
  {
    if a != "" {
      if b != "" {
        LessIsTotal(a[1..], b[1..]);
        assert a[0] == b[0] && a[1..] == b[1..] ==> a == b by {
          assert a == [a[0]] + a[1..] && b == [b[0]] + b[1..];
        }
      } else {
        LessIsTotal(a[1..], b);
      }
    }
  }

  lemma {:induction false} LessIsTransitive(a: string, b: string, c: string)
    requires Less(a, b) && Less(b, c)
    ensures Less(a, c)
  {
    if a != "" && a[0] == b[0] && b[0] == c[0] {
      LessIsTransitive(a[1..], b[1..], c[1..]);
    }
  }

  /** The order is decided at the first position where the strings differ. */
  lemma {:induction false} LessIsFirstDifference(a: string, b: string)
    ensures Less(a, b) <==> exists k :: DiffersFirstAt(a, b, k)
  {
    if a != "" && b != "" && a[0] == b[0] {
      LessIsFirstDifference(a[1..], b[1..]);
      if k :| DiffersFirstAt(a[1..], b[1..], k) {
        assert a[..k + 1] == [a[0]] + a[1..][..k] && b[..k + 1] == [b[0]] + b[1..][..k];
        assert DiffersFirstAt(a, b, k + 1);
      }
      if k :| DiffersFirstAt(a, b, k) {
        assert a[1..][..k - 1] == a[..k][1..] && b[1..][..k - 1] == b[..k][1..];
        assert DiffersFirstAt(a[1..], b[1..], k - 1);
      }
    } else {
      assert Less(a, b) ==> DiffersFirstAt(a, b, 0);
      if k :| DiffersFirstAt(a, b, k) {
        assert k > 0 ==> a[..k][0] == b[..k][0];
      }
    }
  }

  /** `a` ends, or has the smaller byte, at the first position where they differ. */
  ghost predicate DiffersFirstAt(a: string, b: string, k: int) {
    0 <= k <= |a| && k < |b| && a[..k] == b[..k] && (k < |a| ==> a[k] < b[k])
  }

  /** A common prefix does not matter to the order. */
  lemma {:induction false} CommonPrefix(p: string, a: string, b: string)
    ensures Less(p + a, p + b) <==> Less(a, b)
  {
    if p == "" {
      assert p + a == a && p + b == b;
    } else {
      assert (p + a)[1..] == p[1..] + a && (p + b)[1..] == p[1..] + b;
      CommonPrefix(p[1..], a, b);
    }
  }

  /** Where neither string is a prefix of the other, what follows them does not matter. */
  lemma {:induction false} SuffixesDoNotMatter(a: string, b: string, x: string, y: string)
    requires !(a <= b) && !(b <= a)
    ensures Less(a + x, b + y) <==> Less(a, b)
  {
    assert a != "" && b != "";
    if a[0] == b[0] {
      assert a == [a[0]] + a[1..] && b == [b[0]] + b[1..];
      assert (a + x)[1..] == a[1..] + x && (b + y)[1..] == b[1..] + y;
      SuffixesDoNotMatter(a[1..], b[1..], x, y);
    }
  }

  /** The strings that share a prefix form one interval of the order, and the
      prefix itself is its lower end. */
  lemma {:induction false} PrefixInterval(p: string, a: string, b: string, c: string)
    requires p <= a && p <= c
    requires AtMost(a, b) && AtMost(b, c)
    ensures p <= b
  {
    if p != "" {
      if a != b && b != c {
        assert a[0] == p[0] && c[0] == p[0];
        assert b != "" && b[0] == p[0];
        PrefixInterval(p[1..], a[1..], b[1..], c[1..]);
        assert p == [p[0]] + p[1..] && b == [b[0]] + b[1..];
      }
    }
  }

  /** So in a sorted sequence they stand next to each other. */
  lemma PrefixBlock(p: string, s: seq<string>, i: nat, j: nat, l: nat)
    requires StrictlySorted(s) && i <= j <= l < |s|
    requires p <= s[i] && p <= s[l]
    ensures p <= s[j]
  {
    PrefixInterval(p, s[i], s[j], s[l]);
  }

  lemma {:induction false} PrefixIsFirst(p: string, a: string)
    requires p <= a
    ensures AtMost(p, a)
  {
    if p != "" {
      PrefixIsFirst(p[1..], a[1..]);
      assert p == [p[0]] + p[1..] && a == [a[0]] + a[1..];
    }
  }

  ghost predicate StrictlySorted(s: seq<string>) {
    forall i, j :: 0 <= i < j < |s| ==> Less(s[i], s[j])
  }

  /** A strictly sorted sequence is determined by its elements. */
  lemma {:induction false} SortedIsUnique(s: seq<string>, t: seq<string>)
    requires StrictlySorted(s) && StrictlySorted(t)
    requires forall x :: x in s <==> x in t
    ensures s == t
  {
    assert forall i :: 0 <= i < |s| ==> s[i] in t;
    assert forall i :: 0 <= i < |t| ==> t[i] in s;
    if s != [] && t != [] {
      FirstIsLeast(s, t[0]);
      FirstIsLeast(t, s[0]);
      LessIsTotal(s[0], t[0]);
      TailElements(s);
      TailElements(t);
      SortedIsUnique(s[1..], t[1..]);
      assert s == [s[0]] + s[1..] && t == [t[0]] + t[1..];
    }
  }

  lemma FirstIsLeast(s: seq<string>, x: string)
    requires StrictlySorted(s) && x in s
    ensures AtMost(s[0], x)
  {
    var i :| 0 <= i < |s| && s[i] == x;
    assert i > 0 ==> Less(s[0], s[i]);
  }

  lemma TailElements(s: seq<string>)
    requires s != [] && StrictlySorted(s)
    ensures forall x :: x in s[1..] <==> x in s && x != s[0]
  {
    forall x
      ensures x in s[1..] <==> x in s && x != s[0]
    {
      LessIsTotal(s[0], s[0]);
      if x in s[1..] {
        var i :| 0 <= i < |s[1..]| && s[1..][i] == x;
        assert s[i + 1] == x && Less(s[0], s[i + 1]);
      }
    }
  }

  /** Every nonempty finite set of strings has a least element. */
  lemma {:induction false} LeastExists(keys: set<string>) returns (least: string)
    requires keys != {}
    ensures least in keys
    ensures forall k :: k in keys ==> AtMost(least, k)
    decreases |keys|
  {
    var x :| x in keys;
    if keys == {x} {
      least := x;
    } else {
      assert x in keys && keys - {x} != {};
      var rest := LeastExists(keys - {x});
      LessIsTotal(x, rest);
      least := if Less(x, rest) then x else rest;
      forall k | k in keys
        ensures AtMost(least, k)
      {
        if k != x {
          assert k in keys - {x};
          if least == x && rest != k {
            LessIsTransitive(x, rest, k);
          }
        }
      }
    }
  }

  /** The elements of a set in increasing order. */
  ghost function InOrder(keys: set<string>): (s: seq<string>)
    ensures StrictlySorted(s)
    ensures forall k :: k in s <==> k in keys
    decreases |keys|
  {
    if keys == {} then []
    else
      assert exists k :: IsLeast(k, keys) by {
        var k := LeastExists(keys);
        assert IsLeast(k, keys);
      }
      var k :| IsLeast(k, keys);
      var rest := InOrder(keys - {k});
      assert forall j :: 0 <= j < |rest| ==> rest[j] in rest && rest[j] in keys - {k};
      [k] + rest
  }

  ghost predicate IsLeast(k: string, keys: set<string>) {
    k in keys && forall x :: x in keys ==> AtMost(k, x)
  }
}
