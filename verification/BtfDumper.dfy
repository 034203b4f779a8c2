/** Extraction of bit fields from 128 bits by shifts of two 64-bit words, on a little-endian host. */
module BtfDumper {
  import opened Bits
  import opened Options
  import opened Words

  const BITS_PER_BYTE := 8

  function RoundDownBytes(bits: nat): nat { bits / BITS_PER_BYTE }

  function RoundUpBytes(bits: nat): nat { bits / BITS_PER_BYTE + if bits % BITS_PER_BYTE != 0 then 1 else 0 }

  /** The bits `[offset, offset + nrBits)` of a little-endian number. */
  function Field(n: nat, offset: nat, nrBits: nat): nat { n / Pow2(offset) % Pow2(nrBits) }

  /** BTF_INT_OFFSET and BTF_INT_BITS. */
  function IntOffset(intType: nat): nat { intType / 0x1_0000 % 0x100 }
  function IntBits(intType: nat): nat { intType % 0x100 }

  /** The word of an integer type: encoding, offset, an unused byte, and the number of bits, from top to bottom. */
  lemma IntParts(encoding: nat, offset: Byte, unused: Byte, bits: Byte)
    ensures var intType := 0x100_0000 * encoding + 0x1_0000 * offset + 0x100 * unused + bits;
      IntOffset(intType) == offset && IntBits(intType) == bits
  {
    var intType := 0x100_0000 * encoding + 0x1_0000 * offset + 0x100 * unused + bits;
    assert intType / 0x1_0000 == 0x100 * encoding + offset;
  }

  // ---------------------------------------------------------------- one shift of two words

  /** The two words as one number. */
  function Wide(lower: U64, upper: U64): nat { lower + WORD * upper }

  function LeftLower(lower: U64, n: nat): U64
    requires n < 128
  {
    if n >= 64 then 0 else Shl(lower, n)
  }

  function LeftUpper(lower: U64, upper: U64, n: nat): nat
    requires 0 < n < 128
  {
    if n >= 64 then Shl(lower, n - 64) else Or(Shl(upper, n), Shr(lower, 64 - n))
  }

  function RightLower(lower: U64, upper: U64, n: nat): nat
    requires 0 < n < 128
  {
    if n >= 64 then Shr(upper, n - 64) else Or(Shr(lower, n), Shl(upper, 64 - n))
  }

  function RightUpper(upper: U64, n: nat): U64
    requires n < 128
  {
    if n >= 64 then 0 else Shr(upper, n)
  }

  lemma CarryBound(x: U64, p: nat, q: nat)
    requires p > 0 && q > 0 && p * q == WORD
    ensures x / q < p
  {
    var c := x / q;
    assert x == c * q + x % q;
    assert c >= p ==> c * q >= p * q by {
      if c >= p {
        MulMonotone(p, c, q);
      }
    }
  }

  /** What stays in the upper word is a multiple of `p`, and what comes from the lower word fits below it. */
  lemma UpperWord(lower: U64, upper: U64, p: nat, q: nat)
    requires p > 0 && q > 0 && p * q == WORD
    ensures lower / q < p && upper * p % WORD == (upper % q) * p && upper * p % WORD + lower / q < WORD
  {
    CarryBound(lower, p, q);
    MulMod(upper, p, q);
    MulLess(upper % q, q, p);
  }

  lemma LowerWord(lower: U64, p: nat, q: nat)
    requires p > 0 && q > 0 && p * q == WORD
    ensures lower * p == (lower / q) * WORD + lower * p % WORD
  {
    var c, r := lower / q, lower % q;
    assert lower == c * q + r;
    Scale(c, q, r, p);
    DivModUnique(lower * p, WORD, c, p * r);
  }

  /** Multiplying both words, with the carry, multiplies the number that they hold modulo 2^128. */
  lemma LeftCarry(lower: U64, upper: U64, p: nat, q: nat)
    requires p > 0 && q > 0 && p * q == WORD
    ensures upper * p % WORD + lower / q < WORD
    ensures Wide(lower, upper) * p % (WORD * WORD) == Wide(lower * p % WORD, upper * p % WORD + lower / q)
  {
    UpperWord(lower, upper, p, q);
    LowerWord(lower, p, q);
    Recombine(lower, upper, p, lower / q, lower * p % WORD, upper * p / WORD, upper * p % WORD);
  }

  lemma Recombine(lower: nat, upper: nat, p: nat, c: nat, l: nat, k: nat, m: nat)
    requires lower * p == c * WORD + l && upper * p == k * WORD + m && l < WORD && m + c < WORD
    ensures (lower + WORD * upper) * p % (WORD * WORD) == l + WORD * (m + c)
  {
    assert (lower + WORD * upper) * p == lower * p + WORD * (upper * p) by {
      assert (WORD * upper) * p == WORD * (upper * p);
    }
    DivModUnique((lower + WORD * upper) * p, WORD * WORD, k, l + WORD * (m + c));
  }

  /** A left shift multiplies the number that the words hold, modulo 2^128. */
  lemma LeftShiftMeaning(lower: U64, upper: U64, n: nat)
    requires 0 < n < 128
    ensures LeftUpper(lower, upper, n) < WORD
    ensures Wide(LeftLower(lower, n), LeftUpper(lower, upper, n)) == Wide(lower, upper) * Pow2(n) % (WORD * WORD)
  {
    if n < 64 {
      ShortLeft(lower, upper, n);
    } else {
      LongLeft(lower, upper, n);
    }
  }

  lemma ShortLeft(lower: U64, upper: U64, n: nat)
    requires 0 < n < 64
    ensures LeftUpper(lower, upper, n) < WORD
    ensures Wide(LeftLower(lower, n), LeftUpper(lower, upper, n)) == Wide(lower, upper) * Pow2(n) % (WORD * WORD)
  {
    var p, q := Pow2(n), Pow2(64 - n);
    Complement(n);
    LeftCarry(lower, upper, p, q);
    OrWords(lower, upper, n, p, q);
  }

  lemma Complement(n: nat)
    requires n < 64
    ensures Pow2(n) * Pow2(64 - n) == WORD
  {
    Pow2Word(n + (64 - n));
    Pow2Add(n, 64 - n);
  }

  /** The two parts that are combined by or have no bit in common, so or adds them. */
  lemma OrWords(lower: U64, upper: U64, n: nat, p: nat, q: nat)
    requires p == Pow2(n) && q > 0 && p * q == WORD
    ensures Or(upper * p % WORD, lower / q) == upper * p % WORD + lower / q
    ensures Or(lower / q, upper * p % WORD) == upper * p % WORD + lower / q
  {
    UpperWord(lower, upper, p, q);
    var e, c, m := upper % q, lower / q, upper * p % WORD;
    assert m == e * Pow2(n);
    OrDisjoint(e, n, c);
    OrCommutes(c, m);
  }

  lemma LongLeft(lower: U64, upper: U64, n: nat)
    requires 64 <= n < 128
    ensures Wide(0, Shl(lower, n - 64)) == Wide(lower, upper) * Pow2(n) % (WORD * WORD)
  {
    var w := n - (n - 64);
    var p := Pow2(n - 64);
    Pow2Word(w);
    Pow2Add(w, n - 64);
    TimesWord(lower, upper, p);
    ModAdd((lower * p) * WORD, WORD * WORD, upper * p);
    MulMod(lower * p, WORD, WORD);
  }

  lemma TimesWord(lower: nat, upper: nat, p: nat)
    ensures (lower + WORD * upper) * (WORD * p) == (lower * p) * WORD + (upper * p) * (WORD * WORD)
  {
    assert (lower + WORD * upper) * (WORD * p) == lower * (WORD * p) + (WORD * upper) * (WORD * p);
    assert lower * (WORD * p) == (lower * p) * WORD;
    assert (WORD * upper) * (WORD * p) == (upper * p) * (WORD * WORD);
  }

  lemma RightCarry(lower: U64, upper: U64, p: nat, q: nat)
    requires p > 0 && q > 0 && p * q == WORD
    ensures upper * q % WORD + lower / p < WORD
    ensures Wide(lower, upper) / p == Wide(upper * q % WORD + lower / p, upper / p)
  {
    UpperWord(lower, upper, q, p);
    var a, b := upper / p, upper % p;
    var c, r := lower / p, lower % p;
    assert upper == a * p + b && lower == c * p + r;
    Split(a, b, c, r, p, q);
    DivModUnique(Wide(lower, upper), p, c + WORD * a + b * q, r);
  }

  lemma Split(a: nat, b: nat, c: nat, r: nat, p: nat, q: nat)
    requires p * q == WORD
    ensures (c * p + r) + WORD * (a * p + b) == (c + WORD * a + b * q) * p + r
  {
    assert (c + WORD * a + b * q) * p == c * p + (WORD * a) * p + (b * q) * p;
    assert (WORD * a) * p == WORD * (a * p);
    assert (b * q) * p == b * (p * q);
  }

  /** A right shift divides the number that the words hold. */
  lemma RightShiftMeaning(lower: U64, upper: U64, n: nat)
    requires 0 < n < 128
    ensures RightLower(lower, upper, n) < WORD
    ensures Wide(RightLower(lower, upper, n), RightUpper(upper, n)) == Wide(lower, upper) / Pow2(n)
  {
    if n < 64 {
      ShortRight(lower, upper, n);
    } else {
      var w := n - (n - 64);
      Pow2Word(w);
      Pow2Add(w, n - 64);
      DivTwice(lower, upper, Pow2(n - 64));
    }
  }

  lemma ShortRight(lower: U64, upper: U64, n: nat)
    requires 0 < n < 64
    ensures RightLower(lower, upper, n) < WORD
    ensures Wide(RightLower(lower, upper, n), RightUpper(upper, n)) == Wide(lower, upper) / Pow2(n)
  {
    var p, q := Pow2(n), Pow2(64 - n);
    Complement(n);
    RightCarry(lower, upper, p, q);
    OrWords(lower, upper, 64 - n, q, p);
  }

  lemma DivTwice(lower: U64, upper: U64, p: nat)
    requires p > 0
    ensures WORD * p > 0 && Wide(lower, upper) / (WORD * p) == upper / p
  {
    var a, b := upper / p, upper % p;
    assert upper == a * p + b;
    MulAtLeast(WORD, p);
    assert Wide(lower, upper) == a * (WORD * p) + (WORD * b + lower) by {
      assert WORD * (a * p) == a * (WORD * p);
    }
    assert WORD * b <= WORD * (p - 1);
    DivModUnique(Wide(lower, upper), WORD * p, a, WORD * b + lower);
  }

  // ---------------------------------------------------------------- both shifts

  /** Shifting the field to the top and then down to the bottom leaves the field. */
  lemma ShiftsExtract(n: nat, offset: nat, nrBits: nat)
    requires nrBits >= 1 && offset + nrBits < 128
    ensures n * Pow2(128 - (offset + nrBits)) % (WORD * WORD) / Pow2(128 - nrBits) == Field(n, offset, nrBits)
  {
    var l := 128 - (offset + nrBits);
    Pow2Double(128);
    Pow2Add(l, offset + nrBits);
    Pow2Add(l, offset);
    Pow2Add(offset, nrBits);
    var p, q, b := Pow2(l), Pow2(offset), Pow2(nrBits);
    MulMod(n, p, q * b);
    assert p * (n % (q * b)) == (n % (q * b)) * p;
    MulDiv(n % (q * b), p, q);
    ModDiv(n, q, b);
  }

  /** By how much single words are shifted to shift both by `n`, in either direction. */
  function Counts(n: nat): seq<nat> { if n >= 64 then [n - 64] else [n, 64 - n] }

  /** No word is shifted by its whole width or more, which is undefined in C. */
  predicate Defined(n: nat) { forall i :: 0 <= i < |Counts(n)| ==> Counts(n)[i] < 64 }

  /** Both shifts are defined exactly for fields that are not empty and end before bit 128. */
  lemma DefinedIff(bitOffset: nat, nrBits: nat)
    requires bitOffset + nrBits <= 128
    ensures Defined(128 - (bitOffset + nrBits)) && Defined(128 - nrBits) <==> nrBits >= 1 && bitOffset + nrBits < 128
  {
    CountsBelow(128 - (bitOffset + nrBits));
    CountsBelow(128 - nrBits);
  }

  lemma CountsBelow(n: nat)
    ensures Defined(n) <==> 0 < n < 128
  {
    if n >= 64 {
      assert Counts(n)[0] == n - 64;
    } else {
      assert Counts(n)[1] == 64 - n;
    }
  }

  /** The shifts in place, unless one of them is undefined. */
  method Int128Shift(printNum: array<U64>, leftShiftBits: nat, rightShiftBits: nat) returns (defined: bool)
    requires printNum.Length == 2
    modifies printNum
    ensures defined <==> Defined(leftShiftBits) && Defined(rightShiftBits)
    ensures defined ==>
      Wide(printNum[0], printNum[1]) ==
      Wide(old(printNum[0]), old(printNum[1])) * Pow2(leftShiftBits) % (WORD * WORD) / Pow2(rightShiftBits)
  {
    CountsBelow(leftShiftBits);
    CountsBelow(rightShiftBits);
    if !(0 < leftShiftBits < 128 && 0 < rightShiftBits < 128) {
      return false;
    }
    var upperNum, lowerNum := printNum[1], printNum[0];
    LeftShiftMeaning(lowerNum, upperNum, leftShiftBits);
    if leftShiftBits >= 64 {
      upperNum := Shl(lowerNum, leftShiftBits - 64);
      lowerNum := 0;
    } else {
      upperNum := Or(Shl(upperNum, leftShiftBits), Shr(lowerNum, 64 - leftShiftBits));
      lowerNum := Shl(lowerNum, leftShiftBits);
    }
    RightShiftMeaning(lowerNum, upperNum, rightShiftBits);
    if rightShiftBits >= 64 {
      lowerNum := Shr(upperNum, rightShiftBits - 64);
      upperNum := 0;
    } else {
      lowerNum := Or(Shr(lowerNum, rightShiftBits), Shl(upperNum, 64 - rightShiftBits));
      upperNum := Shr(upperNum, rightShiftBits);
    }
    printNum[0] := lowerNum;
    printNum[1] := upperNum;
    return true;
  }

  // ---------------------------------------------------------------- from bytes

  function Zeros(n: nat): (r: seq<Byte>)
    ensures |r| == n
  {
    if n == 0 then [] else [0] + Zeros(n - 1)
  }

  lemma {:induction false} ZerosLE(n: nat)
    ensures LE(Zeros(n)) == 0
  {
    if n > 0 {
      ZerosLE(n - 1);
    }
  }

  /** The two words that a copy of at most 16 bytes over cleared memory leaves. */
  function WordsOf(data: seq<Byte>): (r: (U64, U64))
    requires |data| <= 16
    ensures Wide(r.0, r.1) == LE(data)
  {
    var padded := data + Zeros(16 - |data|);
    PaddedLE(data);
    Pow2Word(8 * |padded[..8]|);
    Pow2Word(8 * |padded[8..]|);
    LEBound(padded[..8]);
    LEBound(padded[8..]);
    LEAppend(padded[..8], padded[8..]);
    assert padded[..8] + padded[8..] == padded;
    (LE(padded[..8]), LE(padded[8..]))
  }

  lemma PaddedLE(data: seq<Byte>)
    requires |data| <= 16
    ensures LE(data + Zeros(16 - |data|)) == LE(data)
  {
    ZerosLE(16 - |data|);
    AppendZero(data, Zeros(16 - |data|));
  }

  lemma AppendZero(data: seq<Byte>, zeros: seq<Byte>)
    requires LE(zeros) == 0
    ensures LE(data + zeros) == LE(data)
  {
    LEAppend(data, zeros);
    TimesZero(Pow2(8 * |data|), LE(zeros));
  }

  lemma TimesZero(p: nat, z: nat)
    requires z == 0
    ensures p * z == 0
  {
  }

  lemma DivDiv(x: nat, a: nat, b: nat)
    requires a > 0 && b > 0
    ensures a * b > 0 && x / a / b == x / (a * b)
  {
    MulAtLeast(a, b);
    var q, r := x / a, x % a;
    var s, t := q / b, q % b;
    assert x == (s * b + t) * a + r;
    MulLess(t, b, a);
    assert (s * b + t) * a == s * (a * b) + t * a by {
      assert (s * b) * a == s * (a * b);
    }
    DivModUnique(x, a * b, s, t * a + r);
  }

  lemma DropAbove(a: nat, b: nat, p: nat, f: nat, h: nat)
    requires p > 0 && f > 0
    ensures (a + (p * (f * h)) * b) / p % f == a / p % f
  {
    var n := f * h * b;
    assert (p * (f * h)) * b == n * p;
    DivModUnique(a + n * p, p, a / p + n, a % p);
    assert n == (h * b) * f;
    ModAdd(a / p, f, h * b);
  }

  /** A field does not depend on what lies above it. */
  lemma FieldBelow(a: nat, b: nat, m: nat, offset: nat, nrBits: nat)
    requires offset + nrBits <= m
    ensures Field(a + Pow2(m) * b, offset, nrBits) == Field(a, offset, nrBits)
  {
    var rest := m - offset - nrBits;
    Pow2Add(offset, nrBits + rest);
    Pow2Add(nrBits, rest);
    DropAbove(a, b, Pow2(offset), Pow2(nrBits), Pow2(rest));
  }

  lemma DropBelow(low: nat, high: nat, p: nat, q: nat)
    requires low < p && q > 0
    ensures p * q > 0 && (low + p * high) / (p * q) == high / q
  {
    DivModUnique(low + p * high, p, high, low);
    DivDiv(low + p * high, p, q);
  }

  /** A field does not depend on the bytes below it. */
  lemma FieldAbove(low: seq<Byte>, high: seq<Byte>, offset: nat, nrBits: nat)
    ensures Field(LE(low + high), 8 * |low| + offset, nrBits) == Field(LE(high), offset, nrBits)
  {
    LEAppend(low, high);
    LEBound(low);
    Pow2Add(8 * |low|, offset);
    DropBelow(LE(low), LE(high), Pow2(8 * |low|), Pow2(offset));
  }

  lemma FieldWithin(data: seq<Byte>, n: nat, offset: nat, nrBits: nat)
    requires n <= |data| && offset + nrBits <= 8 * n
    ensures Field(LE(data[..n]), offset, nrBits) == Field(LE(data), offset, nrBits)
  {
    assert data == data[..n] + data[n..];
    LEAppend(data[..n], data[n..]);
    FieldBelow(LE(data[..n]), LE(data[n..]), 8 * n, offset, nrBits);
  }

  /** The value of a bit field as the lower and the upper word that are printed, if the shifts are defined. */
  method Bitfield(nrBits: nat, bitOffset: nat, data: seq<Byte>) returns (r: Option<(U64, U64)>)
    requires bitOffset + nrBits <= 128 && RoundUpBytes(bitOffset + nrBits) <= |data|
    ensures r.Some? <==> nrBits >= 1 && bitOffset + nrBits < 128
    ensures r.Some? ==> Wide(r.value.0, r.value.1) == Field(LE(data), bitOffset, nrBits)
  {
    var bitsToCopy := bitOffset + nrBits;
    var bytesToCopy := RoundUpBytes(bitsToCopy);
    var copied := data[..bytesToCopy];
    var words := WordsOf(copied);
    var printNum := new U64[2](i => if i == 0 then words.0 else words.1);
    var leftShiftBits := 128 - bitsToCopy;
    var rightShiftBits := 128 - nrBits;
    DefinedIff(bitOffset, nrBits);
    var defined := Int128Shift(printNum, leftShiftBits, rightShiftBits);
    if !defined {
      return None;
    }
    ShiftsExtract(LE(copied), bitOffset, nrBits);
    FieldWithin(data, bytesToCopy, bitOffset, nrBits);
    return Some((printNum[0], printNum[1]));
  }

  /**
   * The value of an integer that is a bit field: the bits of the buffer from the member's offset plus the
   * integer's own offset on.
   */
  method IntBitsOf(intType: nat, bitOffset: nat, data: seq<Byte>) returns (r: Option<(U64, U64)>)
    requires var total := bitOffset + IntOffset(intType);
      && total % 8 + IntBits(intType) <= 128
      && RoundDownBytes(total) + RoundUpBytes(total % 8 + IntBits(intType)) <= |data|
    ensures r.Some? <==> IntBits(intType) >= 1 && (bitOffset + IntOffset(intType)) % 8 + IntBits(intType) < 128
    ensures r.Some? ==>
      Wide(r.value.0, r.value.1) == Field(LE(data), bitOffset + IntOffset(intType), IntBits(intType))
  {
    var nrBits := IntBits(intType);
    var totalBitsOffset := bitOffset + IntOffset(intType);
    var skip := RoundDownBytes(totalBitsOffset);
    r := Bitfield(nrBits, totalBitsOffset % 8, data[skip..]);
    assert data == data[..skip] + data[skip..];
    FieldAbove(data[..skip], data[skip..], totalBitsOffset % 8, nrBits);
  }
}
