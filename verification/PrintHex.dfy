/** Emitting binary data as the body of a C string literal, and what a C compiler reads from it. */
module PrintHex {
  import opened Options
  import opened Seqs
  import opened Words
  import Hex

  const MAX_LINE := 78

  /** The escape for one byte; its length is what the printer counts. */
  function Escape(b: Byte): (s: string)
    ensures |s| == if b == 0 then 2 else 4
  {
    if b == 0 then "\\0" else "\\x" + [Hex.Lower(b / 16), Hex.Lower(b % 16)]
  }

  /** The text for `data` when `len` characters are already on the line. */
  function HexFrom(data: seq<Byte>, len: nat): string {
    if data == [] then ""
    else
      var e := Escape(data[0]);
      if len + |e| > MAX_LINE then "\\\n" + (e + HexFrom(data[1..], |e|)) else e + HexFrom(data[1..], len + |e|)
  }

  method Print(data: seq<Byte>) returns (out: string)
    ensures out == HexFrom(data, 0)
  {
    out := "";
    var len: nat := 0;
    var i := 0;
    while i < |data|
      invariant 0 <= i <= |data|
      invariant out + HexFrom(data[i..], len) == HexFrom(data, 0)
    {
      Advance(data, i, len, out);
      var w := if data[i] != 0 then 4 else 2;
      len := len + w;
      if len > MAX_LINE {
        out := out + "\\\n";
        len := w;
      }
      out := out + Escape(data[i]);
      i := i + 1;
    }
    assert out + "" == out;
  }

  /** One round of the loop moves an escape, and possibly a line break, from what remains to the output. */
  lemma Advance(data: seq<Byte>, i: nat, len: nat, out: string)
    requires i < |data|
    ensures
      var e := Escape(data[i]);
      out + HexFrom(data[i..], len) ==
      if len + |e| > MAX_LINE then ((out + "\\\n") + e) + HexFrom(data[i + 1..], |e|)
      else (out + e) + HexFrom(data[i + 1..], len + |e|)
  {
    var e := Escape(data[i]);
    assert data[i..][1..] == data[i + 1..];
    if len + |e| > MAX_LINE {
      Regroup(out, "\\\n", e + HexFrom(data[i + 1..], |e|));
      Regroup(out + "\\\n", e, HexFrom(data[i + 1..], |e|));
    } else {
      Regroup(out, e, HexFrom(data[i + 1..], len + |e|));
    }
  }

  // ---------------------------------------------------------------- what a compiler reads

  /** The lines that continuation backslashes separate (section 5.1.1.2 of C11, phase 2). */
  function Lines(s: string): (lines: seq<string>)
    ensures lines != []
  {
    if s == "" then [""]
    else if |s| >= 2 && s[0] == '\\' && s[1] == '\n' then [""] + Lines(s[2..])
    else
      var lines := Lines(s[1..]);
      [[s[0]] + lines[0]] + lines[1..]
  }

  function Joined(lines: seq<string>): string {
    if lines == [] then "" else lines[0] + Joined(lines[1..])
  }

  function OctalDigit(c: char): bool { '0' <= c <= '7' }

  function HexRun(s: string): (n: nat)
    ensures n <= |s|
  {
    if s == "" || Hex.Digit(s[0]).None? then 0 else 1 + HexRun(s[1..])
  }

  /** Octal escapes have at most three digits. */
  function OctalRun(s: string, max: nat): (n: nat)
    ensures n <= |s|
  {
    if max == 0 || s == "" || !OctalDigit(s[0]) then 0 else 1 + OctalRun(s[1..], max - 1)
  }

  function OctalValue(s: string, acc: nat): nat
    requires forall i :: 0 <= i < |s| ==> OctalDigit(s[i])
  {
    if s == "" then acc
    else
      assert OctalDigit(s[0]);
      OctalValue(s[1..], 8 * acc + (s[0] as nat - '0' as nat))
  }

  lemma {:induction false} OctalRunDigits(s: string, max: nat)
    ensures forall i :: 0 <= i < OctalRun(s, max) ==> OctalDigit(s[i])
  {
    if max > 0 && s != "" && OctalDigit(s[0]) {
      OctalRunDigits(s[1..], max - 1);
    }
  }

  /** A byte value and what is left of the literal. */
  datatype Char = Bad | Char(value: Byte, rest: string)

  /** The first character of a literal (section 6.4.4.4 of C11): hexadecimal escapes have any number of digits. */
  function First(s: string): (c: Char)
    requires s != ""
    ensures c.Char? ==> |c.rest| < |s|
  {
    if s[0] != '\\' then
      if s[0] as nat < 256 && s[0] != '\n' && s[0] != '"' then Char(s[0] as nat, s[1..]) else Bad
    else if |s| >= 2 && s[1] == 'x' then
      var n := HexRun(s[2..]);
      var v := Hex.ParseDigits(s[2..][..n], 0);
      if n > 0 && v.Some? && v.value < 256 then Char(v.value, s[2..][n..]) else Bad
    else if |s| >= 2 && OctalDigit(s[1]) then
      OctalRunDigits(s[1..], 3);
      var n := OctalRun(s[1..], 3);
      var v := OctalValue(s[1..][..n], 0);
      if n > 0 && v < 256 then Char(v, s[1..][n..]) else Bad
    else Bad
  }

  function Decode(s: string): Option<seq<Byte>>
    decreases |s|
  {
    if s == "" then Some([])
    else
      var c := First(s);
      if c.Bad? then None
      else
        var rest := Decode(c.rest);
        if rest.None? then None else Some([c.value] + rest.value)
  }

  // ---------------------------------------------------------------- round trip

  /** The text without line breaks. */
  function Plain(data: seq<Byte>): string {
    if data == [] then "" else Escape(data[0]) + Plain(data[1..])
  }

  /** No escape runs into what follows it. */
  lemma FirstEscape(b: Byte, tail: string)
    requires tail == "" || tail[0] == '\\'
    ensures First(Escape(b) + tail) == Char(b, tail)
  {
    var s := Escape(b) + tail;
    if b == 0 {
      assert s[1..] == "0" + tail;
      OneDigit(tail);
    } else {
      var digits := [Hex.Lower(b / 16), Hex.Lower(b % 16)];
      assert s[2..] == digits + tail;
      Hex.DigitLower(b / 16);
      Hex.DigitLower(b % 16);
      TwoDigits(digits, tail);
    }
  }

  lemma OneDigit(tail: string)
    requires tail == "" || tail[0] == '\\'
    ensures var s := "0" + tail;
      OctalRun(s, 3) == 1 && s[..1] == "0" && s[1..] == tail && OctalValue("0", 0) == 0
  {
    var s := "0" + tail;
    assert s[1..] == tail;
    assert OctalRun(s[1..], 2) == 0;
    assert "0"[1..] == "";
  }

  lemma TwoDigits(digits: string, tail: string)
    requires |digits| == 2 && Hex.Digit(digits[0]).Some? && Hex.Digit(digits[1]).Some?
    requires tail == "" || tail[0] == '\\'
    ensures HexRun(digits + tail) == 2 && (digits + tail)[..2] == digits && (digits + tail)[2..] == tail
    ensures Hex.ParseDigits(digits, 0) == Some(16 * Hex.Digit(digits[0]).value + Hex.Digit(digits[1]).value)
  {
    var s := digits + tail;
    assert s[1..] == digits[1..] + tail && s[1..][1..] == tail;
    assert HexRun(s[1..]) == 1 + HexRun(tail);
    var d := Hex.Digit(digits[0]).value;
    assert Hex.ParseDigits(digits, 0) == Hex.ParseDigits(digits[1..], d);
    assert Hex.ParseDigits(digits[1..], d) == Hex.ParseDigits(digits[1..][1..], 16 * d + Hex.Digit(digits[1]).value);
    assert digits[1..][1..] == "";
  }

  lemma {:induction false} PlainDecodes(data: seq<Byte>)
    ensures Decode(Plain(data)) == Some(data)
    ensures data != [] ==> Plain(data) != "" && Plain(data)[0] == '\\'
  {
    if data != [] {
      PlainDecodes(data[1..]);
      FirstEscape(data[0], Plain(data[1..]));
      assert [data[0]] + data[1..] == data;
    }
  }

  /** A text without newlines extends the first line. */
  lemma {:induction false} LinesPrefix(e: string, s: string)
    requires forall i :: 0 <= i < |e| ==> e[i] != '\n'
    requires e != "" && e[|e| - 1] != '\\'
    ensures Lines(e + s) == [e + Lines(s)[0]] + Lines(s)[1..]
  {
    if |e| == 1 {
      assert (e + s)[1..] == s && [e[0]] == e;
    } else {
      assert (e + s)[1..] == e[1..] + s && (e + s)[1] == e[1];
      LinesPrefix(e[1..], s);
      assert [e[0]] + (e[1..] + Lines(s)[0]) == e + Lines(s)[0];
    }
  }

  lemma EscapeLine(b: Byte, s: string)
    ensures Lines(Escape(b) + s) == [Escape(b) + Lines(s)[0]] + Lines(s)[1..]
  {
    LinesPrefix(Escape(b), s);
  }

  /** With `len` characters on the current line, no line gets longer than the limit, and the breaks can be removed. */
  lemma {:induction false} HexFromLines(data: seq<Byte>, len: nat)
    requires len <= MAX_LINE
    ensures
      var lines := Lines(HexFrom(data, len));
      && len + |lines[0]| <= MAX_LINE && (forall i :: 0 <= i < |lines| ==> |lines[i]| <= MAX_LINE)
      && Joined(lines) == Plain(data)
    decreases |data|
  {
    if data != [] {
      var e := Escape(data[0]);
      var len' := if len + |e| > MAX_LINE then |e| else len + |e|;
      var rest := HexFrom(data[1..], len');
      HexFromLines(data[1..], len');
      EscapeLine(data[0], rest);
      JoinedFirst(e, Lines(rest));
      if len + |e| > MAX_LINE {
        BreakLine(e + rest);
      }
    }
  }

  lemma JoinedFirst(e: string, lines: seq<string>)
    requires lines != []
    ensures Joined([e + lines[0]] + lines[1..]) == e + Joined(lines)
  {
    Regroup(e, lines[0], Joined(lines[1..]));
  }

  lemma BreakLine(s: string)
    ensures Lines("\\\n" + s) == [""] + Lines(s) && Joined([""] + Lines(s)) == Joined(Lines(s))
  {
    assert ("\\\n" + s)[2..] == s;
    assert ([""] + Lines(s))[1..] == Lines(s);
    assert "" + Joined(Lines(s)) == Joined(Lines(s));
  }

  /** A line ends only where the next escape would make it too long: all but the last have at least 75 characters. */
  lemma {:induction false} LinesFull(data: seq<Byte>, len: nat)
    ensures var lines := Lines(HexFrom(data, len));
      && (|lines| > 1 ==> len + |lines[0]| >= 75)
      && forall i :: 0 < i < |lines| - 1 ==> |lines[i]| >= 75
    decreases |data|
  {
    if data != [] {
      var e := Escape(data[0]);
      var len' := if len + |e| > MAX_LINE then |e| else len + |e|;
      var rest := HexFrom(data[1..], len');
      LinesFull(data[1..], len');
      EscapeLine(data[0], rest);
      var first := Lines(e + rest);
      assert first[0] == e + Lines(rest)[0] && forall i :: 0 < i < |first| ==> first[i] == Lines(rest)[i];
      if len + |e| > MAX_LINE {
        BreakLine(e + rest);
        assert forall i :: 0 < i < |first| + 1 ==> ([""] + first)[i] == first[i - 1];
      }
    }
  }

  /** Every byte string is read back, and no line is longer than 78 characters before its continuation backslash. */
  lemma RoundTrip(data: seq<Byte>)
    ensures Decode(Joined(Lines(HexFrom(data, 0)))) == Some(data)
    ensures forall line :: line in Lines(HexFrom(data, 0)) ==> |line| <= 78
  {
    HexFromLines(data, 0);
    PlainDecodes(data);
  }
}
