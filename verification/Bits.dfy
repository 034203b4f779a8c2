/** Powers of two, shifts and bitwise or on unsigned words, and little-endian numbers. */
module Bits {
  import opened Words

  function Pow2(n: nat): (r: nat)
    ensures r > 0
  {
    if n == 0 then 1 else 2 * Pow2(n - 1)
  }

  lemma {:induction false} Pow2Add(a: nat, b: nat)
    ensures Pow2(a + b) == Pow2(a) * Pow2(b)
  {
    if a > 0 {
      Pow2Add(a - 1, b);
      assert 2 * Pow2(a - 1) * Pow2(b) == 2 * (Pow2(a - 1) * Pow2(b));
    }
  }

  lemma Pow2Byte(n: nat)
    requires n == 8
    ensures Pow2(n) == 256
  {
  }

  // The exponents are parameters so that the powers are not computed step by step.

  lemma Pow2Short(n: nat)
    requires n == 16
    ensures Pow2(n) == 0x1_0000
  {
    Pow2Byte(n / 2);
    Pow2Half(n, n / 2);
  }

  lemma Pow2Int(n: nat)
    requires n == 32
    ensures Pow2(n) == 0x1_0000_0000
  {
    Pow2Short(n / 2);
    Pow2Half(n, n / 2);
  }

  lemma Pow2Word(n: nat)
    requires n == 64
    ensures Pow2(n) == WORD
  {
    Pow2Int(n / 2);
    Pow2Half(n, n / 2);
  }

  lemma Pow2Double(n: nat)
    requires n == 128
    ensures Pow2(n) == WORD * WORD
  {
    Pow2Word(n / 2);
    Pow2Half(n, n / 2);
  }

  lemma Pow2Half(n: nat, m: nat)
    requires n == 2 * m
    ensures Pow2(n) == Pow2(m) * Pow2(m)
  {
    Pow2Add(m, m);
  }

  /** Left shift of a 64-bit word; shifting by 64 or more is undefined in C. */
  function Shl(x: U64, n: nat): U64
    requires n < 64
  {
    x * Pow2(n) % WORD
  }

  function Shr(x: U64, n: nat): (r: U64)
    requires n < 64
    ensures r <= x
  {
    DivSmaller(x, Pow2(n));
    x / Pow2(n)
  }

  lemma DivSmaller(x: nat, p: nat)
    requires p > 0
    ensures 0 <= x / p <= x
  {
    var q := x / p;
    assert x == q * p + x % p;
    assert q >= 0;
    MulAtLeast(p, q);
  }

  /** A positive factor does not make a number smaller. */
  lemma MulAtLeast(a: nat, b: nat)
    requires a >= 1
    ensures a * b >= b
  {
    assert (a - 1) * b >= 0;
    assert a * b == (a - 1) * b + b;
  }

  /** Bitwise or. */
  function Or(a: nat, b: nat): nat
    decreases a + b
  {
    if a == 0 then b
    else if b == 0 then a
    else (if a % 2 == 1 || b % 2 == 1 then 1 else 0) + 2 * Or(a / 2, b / 2)
  }

  /** The bits of a multiple of a power of two and those of a smaller number do not meet. */
  lemma {:induction false} OrDisjoint(e: nat, k: nat, c: nat)
    requires c < Pow2(k)
    ensures Or(e * Pow2(k), c) == e * Pow2(k) + c
    decreases k
  {
    if k > 0 && e > 0 && c > 0 {
      var a := e * Pow2(k);
      assert a == 2 * (e * Pow2(k - 1));
      OrDisjoint(e, k - 1, c / 2);
    }
  }

  lemma {:induction false} OrCommutes(a: nat, b: nat)
    ensures Or(a, b) == Or(b, a)
    decreases a + b
  {
    if a > 0 && b > 0 {
      OrCommutes(a / 2, b / 2);
    }
  }

  // ---------------------------------------------------------------- division

  lemma SameQuotient(d: int, q: int, r: int, q': int, r': int)
    requires d > 0 && 0 <= r < d && 0 <= r' < d && q * d + r == q' * d + r'
    ensures q == q'
  {
    assert (q - q') * d == q * d - q' * d && (q' - q) * d == q' * d - q * d;
    if q > q' {
      MulAtLeast(q - q', d);
    } else if q < q' {
      MulAtLeast(q' - q, d);
    }
  }

  /** Quotient and remainder are what they should be. */
  lemma DivModUnique(n: int, d: int, q: int, r: int)
    requires d > 0 && n == q * d + r && 0 <= r < d
    ensures n / d == q && n % d == r
  {
    var q', r' := n / d, n % d;
    assert n == q' * d + r';
    SameQuotient(d, q, r, q', r');
  }

  /** A remainder is unchanged by a multiple of the divisor. */
  lemma ModAdd(n: int, d: int, k: int)
    requires d > 0
    ensures (n + k * d) % d == n % d
  {
    DivModUnique(n + k * d, d, n / d + k, n % d);
  }

  lemma MulLess(a: int, b: int, c: int)
    requires a <= b - 1 && c > 0
    ensures a * c <= b * c - c
  {
    assert (b - 1 - a) * c >= 0;
    assert (b - 1 - a) * c == b * c - c - a * c;
  }

  lemma MulMonotone(a: nat, b: nat, c: nat)
    requires a <= b
    ensures a * c <= b * c
  {
    assert (b - a) * c >= 0;
    assert (b - a) * c == b * c - a * c;
  }

  /** (x mod (a * b)) div a is (x div a) mod b. */
  lemma ModDiv(x: nat, a: nat, b: nat)
    requires a > 0 && b > 0 && a * b > 0
    ensures x % (a * b) / a == x / a % b
  {
    var q, r := x / (a * b), x % (a * b);
    var s, t := r / a, r % a;
    assert r == s * a + t;
    assert (s - b) * a == s * a - a * b;
    assert s - b >= 0 ==> (s - b) * a >= 0;
    assert x == q * (a * b) + s * a + t;
    assert q * (a * b) == (q * b) * a;
    assert x == (q * b + s) * a + t;
    DivModUnique(x, a, q * b + s, t);
    DivModUnique(q * b + s, b, q, s);
  }

  lemma Scale(q: nat, c: nat, r: nat, a: nat)
    requires a > 0 && r < c
    ensures (q * c + r) * a == q * (a * c) + a * r && 0 <= a * r < a * c
  {
    assert (q * c + r) * a == (q * c) * a + r * a;
    assert (q * c) * a == q * (a * c);
    MulLess(r, c, a);
  }

  /** (x * a) mod (a * b) is a * (x mod b). */
  lemma MulMod(x: nat, a: nat, b: nat)
    requires a > 0 && b > 0 && a * b > 0
    ensures x * a % (a * b) == a * (x % b)
  {
    var q, r := x / b, x % b;
    Scale(q, b, r, a);
    DivModUnique(x * a, a * b, q, a * r);
  }

  /** (x * a) div (a * c) is x div c. */
  lemma MulDiv(x: nat, a: nat, c: nat)
    requires a > 0 && c > 0 && a * c > 0
    ensures x * a / (a * c) == x / c
  {
    var q, r := x / c, x % c;
    Scale(q, c, r, a);
    DivModUnique(x * a, a * c, q, a * r);
  }

  // ---------------------------------------------------------------- little-endian numbers

  function LE(s: seq<Byte>): nat {
    if s == [] then 0 else s[0] + 256 * LE(s[1..])
  }

  lemma {:induction false} LEBound(s: seq<Byte>)
    ensures LE(s) < Pow2(8 * |s|)
  {
    if s != [] {
      LEBound(s[1..]);
      Pow2Bytes(|s[1..]|);
    }
  }

  lemma Pow2Bytes(n: nat)
    ensures Pow2(8 * (n + 1)) == 256 * Pow2(8 * n)
  {
    Pow2Byte(8);
    Pow2Add(8, 8 * n);
  }

  lemma Distribute(a: int, b: int, p: int, n: int)
    ensures a + 256 * (b + p * n) == (a + 256 * b) + (256 * p) * n
  {
  }

  lemma {:induction false} LEAppend(s: seq<Byte>, t: seq<Byte>)
    ensures LE(s + t) == LE(s) + Pow2(8 * |s|) * LE(t)
  {
    if s == [] {
      assert s + t == t;
    } else {
      var s', p, n := s[1..], Pow2(8 * |s[1..]|), LE(t);
      LEAppend(s', t);
      assert (s + t)[1..] == s' + t && (s + t)[0] == s[0];
      Pow2Bytes(|s'|);
      Distribute(s[0], LE(s'), p, n);
    }
  }
}
