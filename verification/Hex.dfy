/** Hexadecimal numbers: parsing as in `from_str_radix`, and printing. */
module Hex {
  import opened Options
  import opened Words

  function Digit(c: char): Option<nat> {
    if '0' <= c <= '9' then Some(c as nat - '0' as nat)
    else if 'a' <= c <= 'f' then Some(c as nat - 'a' as nat + 10)
    else if 'A' <= c <= 'F' then Some(c as nat - 'A' as nat + 10)
    else None
  }

  /** The value of a string of digits that follow a prefix of value `acc`; fails on overflow of 64 bits. */
  function ParseDigits(s: string, acc: nat): Option<nat> {
    if acc >= WORD then None
    else if s == [] then Some(acc)
    else match Digit(s[0])
      case None => None
      case Some(d) => ParseDigits(s[1..], 16 * acc + d)
  }

  /** A leading plus sign is allowed; there must be at least one digit. */
  function Parse(s: string): Option<nat> {
    var digits := if s != [] && s[0] == '+' then s[1..] else s;
    if digits == [] then None else ParseDigits(digits, 0)
  }

  function Lower(d: nat): char
    requires d < 16
  {
    if d < 10 then (d + '0' as nat) as char else (d - 10 + 'a' as nat) as char
  }

  /** Lower-case digits, without leading zeros. */
  function Print(n: nat): (s: string)
    ensures s != []
  {
    if n < 16 then [Lower(n)] else Print(n / 16) + [Lower(n % 16)]
  }

  /** Padded with zeros to at least `width` digits. */
  function Pad(s: string, width: nat): string
    decreases width - |s|
  {
    if |s| >= width then s else Pad("0" + s, width)
  }

  predicate IsHexText(s: string) { forall i :: 0 <= i < |s| ==> Digit(s[i]).Some? }

  lemma DigitLower(d: nat)
    requires d < 16
    ensures Digit(Lower(d)) == Some(d)
  {
  }

  lemma {:induction false} PrintIsHex(n: nat)
    ensures IsHexText(Print(n))
  {
    DigitLower(n % 16);
    if n >= 16 {
      PrintIsHex(n / 16);
    }
  }

  lemma {:induction false} ParseAppend(s: string, c: char, acc: nat)
    requires Digit(c).Some?
    ensures ParseDigits(s + [c], acc) ==
      match ParseDigits(s, acc)
      case None => None
      case Some(v) => if 16 * v + Digit(c).value < WORD then Some(16 * v + Digit(c).value) else None
  {
    if s == [] {
      assert s + [c] == [c];
      assert [c][1..] == [];
    } else {
      assert (s + [c])[1..] == s[1..] + [c];
      if acc < WORD && Digit(s[0]).Some? {
        ParseAppend(s[1..], c, 16 * acc + Digit(s[0]).value);
      }
    }
  }

  lemma {:induction false} ParsePrint(n: nat)
    requires n < WORD
    ensures ParseDigits(Print(n), 0) == Some(n)
  {
    DigitLower(n % 16);
    if n >= 16 {
      ParsePrint(n / 16);
      ParseAppend(Print(n / 16), Lower(n % 16), 0);
    } else {
      assert Print(n)[1..] == [];
    }
  }

  lemma {:induction false} ParsePad(s: string, width: nat)
    requires s != [] && IsHexText(s)
    ensures ParseDigits(Pad(s, width), 0) == ParseDigits(s, 0) && IsHexText(Pad(s, width)) && Pad(s, width) != []
    decreases width - |s|
  {
    if |s| < width {
      assert ("0" + s)[1..] == s;
      ParsePad("0" + s, width);
    }
  }

  /** A printed number, padded or not, parses back. */
  lemma RoundTrip(n: nat, width: nat)
    requires n < WORD
    ensures Parse(Pad(Print(n), width)) == Some(n) && IsHexText(Pad(Print(n), width))
  {
    PrintIsHex(n);
    ParsePrint(n);
    ParsePad(Print(n), width);
    assert Digit('+') == None;
  }

  /** The number that digits stand for, the last one lowest. */
  function Value(s: string): nat
    requires IsHexText(s)
  {
    if s == [] then 0
    else
      assert Digit(s[|s| - 1]).Some?;
      16 * Value(s[..|s| - 1]) + Digit(s[|s| - 1]).value
  }

  lemma {:induction false} ParseValue(s: string)
    requires IsHexText(s)
    ensures ParseDigits(s, 0) == if Value(s) < WORD then Some(Value(s)) else None
  {
    if s != [] {
      var front, c := s[..|s| - 1], s[|s| - 1];
      ParseValue(front);
      assert Digit(c).Some?;
      ParseAppend(front, c, 0);
      assert s == front + [c];
    }
  }

  lemma {:induction false} ParseNoValue(s: string, acc: nat)
    requires !IsHexText(s)
    ensures ParseDigits(s, acc) == None
  {
    if acc < WORD && Digit(s[0]).Some? {
      ParseNoValue(s[1..], 16 * acc + Digit(s[0]).value);
    }
  }

  /** A text is parsed exactly when it is a number below 2^64 in hexadecimal digits, perhaps behind a plus sign. */
  lemma ParseExact(s: string)
    ensures var digits := if s != [] && s[0] == '+' then s[1..] else s;
      Parse(s) ==
      if digits != [] && IsHexText(digits) && Value(digits) < 0x1_0000_0000_0000_0000 then Some(Value(digits)) else None
  {
    var digits := if s != [] && s[0] == '+' then s[1..] else s;
    if IsHexText(digits) {
      ParseValue(digits);
    } else {
      ParseNoValue(digits, 0);
    }
  }

  /** Lower-case digits without a leading zero that stand for `n`. */
  predicate IsShort(s: string, n: nat) {
    && Parse(s) == Some(n)
    && (forall i :: 0 <= i < |s| ==> s[i] in "0123456789abcdef") && (|s| > 1 ==> s[0] != '0')
  }

  lemma {:induction false} PrintIsLower(n: nat)
    ensures (forall i :: 0 <= i < |Print(n)| ==> Print(n)[i] in "0123456789abcdef")
    ensures n > 0 ==> Print(n)[0] != '0'
  {
    var d := n % 16;
    assert Lower(d) == "0123456789abcdef"[d];
    if n >= 16 {
      PrintIsLower(n / 16);
    }
  }

  lemma PrintShort(n: nat)
    requires n < WORD
    ensures IsShort(Print(n), n)
  {
    PrintIsLower(n);
    RoundTrip(n, 0);
    assert Pad(Print(n), 0) == Print(n);
    if n < 16 {
      assert |Print(n)| == 1;
    }
  }

  /** Digits of both cases are read. */
  lemma DigitIff(c: char)
    ensures Digit(c).Some? <==> c in "0123456789abcdefABCDEF"
  {
    assert '0' <= c <= '9' ==> c == "0123456789"[c as int - '0' as int];
    assert 'a' <= c <= 'f' ==> c == "abcdef"[c as int - 'a' as int];
    assert 'A' <= c <= 'F' ==> c == "ABCDEF"[c as int - 'A' as int];
  }
}
