/** Facts about division that the solver does not find by itself. */
module Arithmetic {

  lemma {:induction false} WholeTurns(w: nat, c: int, d: int)
    requires c < d
    ensures c * w + w <= d * w
    decreases d - c
  {
    assert d * w == (d - 1) * w + w;
    if c + 1 < d {
      WholeTurns(w, c, d - 1);
    }
  }

  /** A number between two neighbouring multiples of `w` has the lower one as quotient. */
  lemma DivisionIsUnique(w: nat, t: int, c: int, i: int)
    requires 0 <= i < w && t == c * w + i
    ensures t / w == c && t % w == i
  {
    var d, j := t / w, t % w;
    assert t == d * w + j;
    if c < d {
      WholeTurns(w, c, d);
    } else if d < c {
      WholeTurns(w, d, c);
    }
  }

  /** Close numbers with the same remainder are equal. */
  lemma SameRemainder(w: nat, a: int, b: int)
    requires w > 0 && b - w < a < b + w
    ensures a % w == b % w <==> a == b
  {
    var c, d := a / w, b / w;
    assert a == c * w + a % w && b == d * w + b % w;
    if c < d {
      WholeTurns(w, c, d);
    } else if d < c {
      WholeTurns(w, d, c);
    }
  }

  lemma {:induction false} ProductIsMonotone(a: nat, m: nat, b: nat)
    requires a <= m
    ensures 0 <= a * b <= m * b
    decreases b
  {
    if b > 0 {
      ProductIsMonotone(a, m, b - 1);
      assert a * b == a * (b - 1) + a && m * b == m * (b - 1) + m;
    }
  }

  /** Congruence, given and taken as a multiple. */
  lemma CongruentBy(m: nat, x: int, y: int, k: int)
    requires m > 0 && x == y + k * m
    ensures x % m == y % m
  {
    assert y == y / m * m + y % m;
    assert (y / m + k) * m == y / m * m + k * m;
    DivisionIsUnique(m, x, y / m + k, y % m);
  }

  lemma CongruenceGap(m: nat, x: int, y: int) returns (k: int)
    requires m > 0 && x % m == y % m
    ensures x == y + k * m
  {
    k := x / m - y / m;
    assert x == x / m * m + x % m && y == y / m * m + y % m;
    assert k * m == x / m * m - y / m * m;
  }

  /** Multiplying by a number that has an inverse loses nothing modulo `m`. */
  lemma CoprimeFactor(m: nat, f: int, g: int, a: int, b: int, c: int)
    requires m > 1 && (g * f) % m == 1
    requires (f * a + c) % m == (f * b + c) % m
    ensures a % m == b % m
  {
    var k := CongruenceGap(m, f * a + c, f * b + c);
    var q := g * f / m;
    DivisionParts(m, g * f);
    assert f * (a - b) == k * m + 0;
    UndoFactor(m, f, g, q, a - b, k, 0);
    assert (g * k - q * (a - b)) * m == -((q * (a - b) - g * k) * m);
    CongruentBy(m, a, b, g * k - q * (a - b));
  }

  lemma SmallRemainder(m: nat, x: int)
    requires 0 <= x < m
    ensures x % m == x
  {
  }

  /** Remainders differ as the numbers do. */
  lemma RemaindersDiffer(m: nat, x: int, y: int)
    requires m > 0
    ensures (y % m - x % m) % m == (y - x) % m
  {
    DivisionParts(m, x);
    DivisionParts(m, y);
    CongruentBy(m, y % m - x % m, y - x, x / m - y / m);
  }

  lemma StepsApart(m: nat, x: int, s: nat)
    requires s < m
    ensures ((x + s) % m - x % m) % m == s
  {
    var y := x + s;
    RemaindersDiffer(m, x, y);
    assert y - x == s;
    SmallRemainder(m, s);
  }

  lemma DivisionParts(m: nat, x: int)
    requires m > 0
    ensures x == x / m * m + x % m
  {
  }

  /** If f undoes g modulo `m`, then g undoes f, up to a known multiple. */
  lemma UndoFactor(m: int, f: int, g: int, q: int, t: int, k: int, r: int)
    requires g * f == q * m + 1
    requires f * t == k * m + r
    ensures g * r == t + (q * t - g * k) * m
  {
    assert g * (f * t) == (g * f) * t;
    assert (q * m + 1) * t == (q * t) * m + t;
    assert g * (k * m + r) == (g * k) * m + g * r;
    assert (q * t - g * k) * m == (q * t) * m - (g * k) * m;
  }

  /** Affine maps modulo `m` with inverse factors undo each other. */
  lemma AffineInverse(m: nat, f: int, g: int, shift: int, x: int)
    requires m > 1 && (g * f) % m == 1 && 0 <= x < m
    ensures (g * ((f * x + shift) % m - shift)) % m == x
    ensures (f * ((g * (x - shift)) % m) + shift) % m == x
  {
    UndoAffine(m, f, g, shift, x);
    UndoInverse(m, f, g, shift, x);
    SmallRemainder(m, x);
  }

  lemma UndoAffine(m: nat, f: int, g: int, shift: int, x: int)
    requires m > 1 && (g * f) % m == 1
    ensures (g * ((f * x + shift) % m - shift)) % m == x % m
  {
    DivisionParts(m, g * f);
    DivisionParts(m, f * x + shift);
    UndoAffineAt(m, f, g, shift, x, g * f / m, (f * x + shift) / m, (f * x + shift) % m);
  }

  lemma UndoAffineAt(m: nat, f: int, g: int, shift: int, x: int, q: int, k: int, rest: int)
    requires m > 1 && g * f == q * m + 1
    requires f * x + shift == k * m + rest
    ensures (g * (rest - shift)) % m == x % m
  {
    UndoFactor(m, f, g, q, x, k, rest - shift);
    CongruentBy(m, g * (rest - shift), x, q * x - g * k);
  }

  lemma UndoInverse(m: nat, f: int, g: int, shift: int, x: int)
    requires m > 1 && (g * f) % m == 1
    ensures (f * ((g * (x - shift)) % m) + shift) % m == x % m
  {
    var t := x - shift;
    var k, r, q := g * t / m, (g * t) % m, g * f / m;
    DivisionParts(m, g * t);
    DivisionParts(m, g * f);
    assert f * g == g * f;
    UndoFactor(m, g, f, q, t, k, r);
    CongruentBy(m, f * r + shift, x, q * t - f * k);
  }

  /** A step by a factor with an inverse is injective on fewer than `m` neighbours. */
  lemma FactorIsInjective(m: nat, f: int, g: int, a: int, b: int, c: int)
    requires m > 1 && (g * f) % m == 1
    requires (f * a + c) % m == (f * b + c) % m
    requires b - m < a < b + m
    ensures a == b
  {
    CoprimeFactor(m, f, g, a, b, c);
    SameRemainder(m, a, b);
  }
}
