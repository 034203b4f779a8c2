/** Little-endian base 128 numbers (section 7.6 of DWARF 5), and what the readers for 64-bit words make of them. */
module Leb128 {
  import opened Bits
  import opened Words

  /** `Overflow` stands for an arithmetic overflow: a shift by 64 bits or more, or a negative unsigned number. */
  datatype Outcome = Truncated | Overflow | Done(value: int, count: nat)

  /** The number of leading bytes that announce another byte. */
  function Run(s: seq<Byte>): (n: nat)
    ensures n <= |s| && (n < |s| ==> s[n] < 128) && forall i :: 0 <= i < n ==> s[i] >= 128
  {
    if s == [] || s[0] < 128 then 0 else 1 + Run(s[1..])
  }

  /** The number that groups of seven bits stand for. */
  function Value(s: seq<Byte>): nat {
    if s == [] then 0 else s[0] % 128 + 128 * Value(s[1..])
  }

  /** The number in two's complement: bit 6 of the last byte is the sign. */
  function SignedValue(s: seq<Byte>): int
    requires s != []
  {
    if |s| == 1 then
      if s[0] % 128 >= 64 then s[0] % 128 - 128 else s[0] % 128
    else
      s[0] % 128 + 128 * SignedValue(s[1..])
  }

  /** Reading an unsigned number: ten bytes at most, and bits beyond the 64th are dropped. */
  function DecodeU(s: seq<Byte>): Outcome {
    var n := Run(s);
    if n < |s| && n < 10 then Done(Value(s[..n + 1]) % WORD, n + 1)
    else if n == |s| && n <= 10 then Truncated
    else Overflow
  }

  /** Reading a signed number: nine bytes at most. */
  function DecodeI(s: seq<Byte>): Outcome {
    match DecodeU(s)
    case Done(_, n) => if n < 10 && 0 < n <= |s| then Done(SignedValue(s[..n]), n) else Overflow
    case other => other
  }

  // ---------------------------------------------------------------- groups of seven bits

  lemma Pow2Group(n: nat)
    ensures Pow2(7 * (n + 1)) == 128 * Pow2(7 * n)
  {
    Pow2Seven(7);
    Pow2Add(7, 7 * n);
  }

  lemma Pow2Seven(n: nat)
    requires n == 7
    ensures Pow2(n) == 128
  {
  }

  lemma {:induction false} ValueBound(s: seq<Byte>)
    ensures Value(s) < Pow2(7 * |s|)
  {
    if s != [] {
      ValueBound(s[1..]);
      Pow2Group(|s[1..]|);
    }
  }

  lemma Distribute(a: int, b: int, p: int, n: int)
    ensures a + 128 * (b + p * n) == (a + 128 * b) + (128 * p) * n
  {
  }

  lemma {:induction false} ValueAppend(s: seq<Byte>, b: Byte)
    ensures Value(s + [b]) == Value(s) + Pow2(7 * |s|) * (b % 128)
  {
    if s == [] {
      assert (s + [b])[1..] == [];
    } else {
      var s' := s[1..];
      ValueAppend(s', b);
      assert (s + [b])[1..] == s' + [b];
      Pow2Group(|s'|);
      Distribute(s[0] % 128, Value(s'), Pow2(7 * |s'|), b % 128);
    }
  }

  /** `v` keeps its place below the part of `p * g` that fits. */
  lemma SumModulo(v: nat, p: nat, q: nat, g: nat, w: nat)
    requires v < p && q > 0 && p * q == w && w > 0
    ensures g * p % w == (g % q) * p && (v + p * g) % w == v + (g % q) * p
  {
    var d, r := g / q, g % q;
    MulMod(g, p, q);
    MulLess(r, q, p);
    Regroup(p, q, d, r, w);
    DivModUnique(v + p * g, w, d, v + r * p);
  }

  lemma Regroup(p: int, q: int, d: int, r: int, w: int)
    requires p * q == w
    ensures p * (d * q + r) == d * w + r * p
  {
    assert p * (d * q + r) == p * (d * q) + p * r;
    assert p * (d * q) == d * (p * q);
  }

  /** One step of the loop: or-ing the next group into place adds it, up to the bits that do not fit. */
  lemma OrGroup(v: nat, value: U64, g: nat, shift: nat, word: nat)
    requires shift < word == 64 && v < Pow2(shift) && value == v % WORD && g < 128
    ensures Or(value, Shl(g, shift)) == (v + Pow2(shift) * g) % WORD
  {
    var p, q := Pow2(shift), Pow2(word - shift);
    Pow2Word(word);
    Pow2Add(shift, word - shift);
    FactorBelow(p, q);
    DivModUnique(v, WORD, 0, v);
    SumModulo(v, p, q, g, WORD);
    OrDisjoint(g % q, shift, value);
    OrCommutes(value, Shl(g, shift));
  }

  lemma FactorBelow(p: nat, q: nat)
    requires q > 0
    ensures p <= p * q
  {
    MulAtLeast(q, p);
  }

  // ---------------------------------------------------------------- the sign

  /** A sign extension from bit `7 * |s| - 1`. */
  lemma {:induction false} SignedIsExtended(s: seq<Byte>)
    requires s != []
    ensures 2 * Pow2(7 * |s| - 1) == Pow2(7 * |s|)
    ensures SignedValue(s) == if Value(s) >= Pow2(7 * |s| - 1) then Value(s) - Pow2(7 * |s|) else Value(s)
  {
    if |s| == 1 {
      Pow2Seven(7);
      assert Value(s[1..]) == 0;
    } else {
      var s' := s[1..];
      SignedIsExtended(s');
      Pow2Group(|s'|);
    }
  }

  function AsSigned(x: U64): int { if x >= WORD / 2 then x - WORD else x }

  /** `((x as i64) << n) >> n`: the arithmetic shift rounds down. */
  function ExtendSign(x: U64, n: nat): int
    requires n < 64
  {
    AsSigned(Shl(x, n)) / Pow2(n)
  }

  /** Shifting the sign up and back down is the sign extension. */
  lemma ExtendSignMeaning(x: U64, width: nat, word: nat)
    requires 0 < width <= word == 64 && x < Pow2(width)
    ensures ExtendSign(x, word - width) == if x >= Pow2(width - 1) then x - Pow2(width) else x
  {
    var h, q := Pow2(width - 1), Pow2(word - width);
    Pow2Word(word);
    Pow2Add(width, word - width);
    Pow2Add(width - 1, word - width);
    if x >= h {
      NegativeSign(x, h, q);
    } else {
      PositiveSign(x, h, q);
    }
  }

  lemma NegativeSign(x: U64, h: nat, q: nat)
    requires h <= x < 2 * h && q > 0 && h * q == WORD / 2
    ensures AsSigned(x * q % WORD) / q == x - 2 * h
  {
    MulMonotone(h, x, q);
    MulLess(x, 2 * h, q);
    DivModUnique(x * q, WORD, 0, x * q);
    assert (x - 2 * h) * q == x * q - WORD;
    DivModUnique(x * q - WORD, q, x - 2 * h, 0);
  }

  lemma PositiveSign(x: U64, h: nat, q: nat)
    requires x < h && q > 0 && h * q == WORD / 2
    ensures AsSigned(x * q % WORD) / q == x
  {
    MulLess(x, h, q);
    DivModUnique(x * q, WORD, 0, x * q);
    DivModUnique(x * q, q, x, 0);
  }

  // ---------------------------------------------------------------- round trips

  function EncodeU(v: nat): (s: seq<Byte>)
    ensures s != []
  {
    if v < 128 then [v] else [v % 128 + 128] + EncodeU(v / 128)
  }

  function EncodeI(v: int): (s: seq<Byte>)
    ensures s != []
    decreases if v >= 0 then v else -v
  {
    var b, rest := v % 128, v / 128;
    if (rest == 0 && b < 64) || (rest == -1 && b >= 64) then [b] else [b + 128] + EncodeI(rest)
  }

  /** The bytes of one encoding: only the last one is below 128. */
  predicate IsWhole(s: seq<Byte>) { s != [] && Run(s) == |s| - 1 }

  lemma {:induction false} RunWhole(s: seq<Byte>, tail: seq<Byte>)
    requires IsWhole(s)
    ensures Run(s + tail) == |s| - 1
  {
    assert (s + tail)[0] == s[0];
    if |s| > 1 {
      assert (s + tail)[1..] == s[1..] + tail;
      RunWhole(s[1..], tail);
    }
  }

  lemma WholeCons(b: Byte, s: seq<Byte>)
    requires IsWhole(s) && b >= 128
    ensures IsWhole([b] + s)
  {
    assert ([b] + s)[1..] == s;
  }

  lemma {:induction false} EncodedU(v: nat)
    ensures IsWhole(EncodeU(v)) && Value(EncodeU(v)) == v
  {
    if v < 128 {
      assert Value(EncodeU(v)[1..]) == 0;
    } else {
      EncodedU(v / 128);
      WholeCons(v % 128 + 128, EncodeU(v / 128));
      assert EncodeU(v)[1..] == EncodeU(v / 128);
    }
  }

  lemma {:induction false} LengthU(v: nat, n: nat)
    requires n > 0
    ensures |EncodeU(v)| <= n <==> v < Pow2(7 * n)
    decreases n
  {
    Pow2Group(n - 1);
    if v >= 128 && n > 1 {
      LengthU(v / 128, n - 1);
    }
  }

  lemma {:induction false} EncodedI(v: int)
    ensures IsWhole(EncodeI(v)) && SignedValue(EncodeI(v)) == v
    decreases if v >= 0 then v else -v
  {
    var b, rest := v % 128, v / 128;
    if !((rest == 0 && b < 64) || (rest == -1 && b >= 64)) {
      EncodedI(rest);
      WholeCons(b + 128, EncodeI(rest));
      SignedCons(b, EncodeI(rest));
      assert EncodeI(v) == [b + 128] + EncodeI(rest);
    }
  }

  lemma SignedCons(b: nat, s: seq<Byte>)
    requires b < 128 && s != []
    ensures SignedValue([b + 128] + s) == b + 128 * SignedValue(s)
  {
    assert ([b + 128] + s)[1..] == s;
  }

  lemma {:induction false} LengthI(v: int, n: nat)
    requires n > 0
    ensures |EncodeI(v)| <= n <==> -(Pow2(7 * n - 1) as int) <= v < Pow2(7 * n - 1)
    decreases n
  {
    var b, rest := v % 128, v / 128;
    if n == 1 {
      Pow2Six(6);
    } else {
      Pow2Seven(7);
      Pow2Add(7, 7 * (n - 1) - 1);
      LengthI(rest, n - 1);
    }
  }

  lemma Pow2Six(n: nat)
    requires n == 6
    ensures Pow2(n) == 64
  {
  }

  /** Every 64-bit number is read back, whatever follows it. */
  lemma RoundTripU(v: U64, tail: seq<Byte>, word: nat)
    requires word == 64
    ensures DecodeU(EncodeU(v) + tail) == Done(v, |EncodeU(v)|)
  {
    var s := EncodeU(v);
    EncodedU(v);
    RunWhole(s, tail);
    assert (s + tail)[..|s|] == s;
    Pow2Word(word);
    Pow2Add(word, 6);
    FactorBelow(WORD, Pow2(6));
    LengthU(v, 10);
    DivModUnique(v, WORD, 0, v);
  }

  /**
   * A signed 64-bit number is read back exactly when 63 bits are enough for it; the ten bytes of any other
   * one make the reader overflow.
   */
  lemma RoundTripI(v: int, tail: seq<Byte>)
    requires -(WORD / 2) <= v < WORD / 2
    ensures DecodeI(EncodeI(v) + tail) ==
      if -(WORD / 4) <= v < WORD / 4 then Done(v, |EncodeI(v)|) else Overflow
  {
    var s := EncodeI(v);
    EncodedI(v);
    RunWhole(s, tail);
    assert (s + tail)[..|s|] == s;
    SixtyTwo(62, 64);
    LengthI(v, 9);
    SixtyNine(69, 64);
    LengthI(v, 10);
  }

  lemma SixtyTwo(n: nat, word: nat)
    requires n == 62 && word == 64
    ensures Pow2(n) == WORD / 4
  {
    Pow2Word(word);
    assert Pow2(n + 2) == 2 * Pow2(n + 1) && Pow2(n + 1) == 2 * Pow2(n);
  }

  lemma SixtyNine(n: nat, word: nat)
    requires n == 69 && word == 64
    ensures Pow2(n) >= WORD
  {
    Pow2Word(word);
    Pow2Add(word, n - word);
    FactorBelow(WORD, Pow2(n - word));
  }

  lemma {:induction false} TenBytes(s: seq<Byte>, nine: nat, word: nat)
    requires |s| == nine + 1 && nine == 9 && word == 64
    ensures Value(s) < WORD <==> s[nine] % 128 < 2
  {
    var front, b, p := s[..nine], s[nine] % 128, Pow2(7 * nine);
    assert s == front + [s[nine]];
    ValueAppend(front, s[nine]);
    ValueBound(front);
    Pow2Word(word);
    Pow2Add(1, 7 * nine);
    assert 2 * p == WORD;
    if b < 2 {
      MulMonotone(b, 1, p);
    } else {
      MulMonotone(2, b, p);
    }
  }

  lemma NineBytes(s: seq<Byte>, word: nat)
    requires |s| <= 9 && word == 64
    ensures Value(s) < WORD
  {
    ValueBound(s);
    Pow2Word(word);
    Pow2Add(7 * |s|, word - 7 * |s|);
    FactorBelow(Pow2(7 * |s|), Pow2(word - 7 * |s|));
  }

  /** What was read is the number that the bytes stand for, unless a tenth byte holds more than the 64th bit. */
  lemma ExactIff(s: seq<Byte>, nine: nat, word: nat)
    requires DecodeU(s).Done? && nine == 9 && word == 64
    ensures DecodeU(s).count <= |s|
    ensures DecodeU(s).value == Value(s[..DecodeU(s).count]) <==> (DecodeU(s).count == 10 ==> s[nine] % 128 < 2)
  {
    var t := s[..Run(s) + 1];
    if |t| <= 9 {
      NineBytes(t, word);
    } else {
      TenBytes(t, nine, word);
    }
    if Value(t) < WORD {
      DivModUnique(Value(t), WORD, 0, Value(t));
    }
  }
}
