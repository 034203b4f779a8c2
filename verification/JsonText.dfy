/** JSON values, their text as the streaming writer lays it out, and a parser for it after RFC 8259. */
module JsonText {
  import opened Options
  import Hex

  datatype Json =
    | Literal(text: string)  // a number, true, false or null
    | Str(str: string)
    | Arr(elems: seq<Json>)
    | Obj(members: seq<(string, Json)>)

  // ---------------------------------------------------------------- strings

  const FF := '\U{000C}'
  const BS := '\U{0008}'

  /** The part of a buffer that C takes for a string. */
  function CStr(s: string): string {
    if s == [] || s[0] == '\0' then [] else [s[0]] + CStr(s[1..])
  }

  predicate NulFree(s: string) { forall i :: 0 <= i < |s| ==> s[i] != '\0' }

  /** It ends in front of the first NUL. */
  lemma {:induction false} CStrEnds(s: string, rest: string)
    requires NulFree(s)
    ensures CStr(s) == s && CStr(s + (['\0'] + rest)) == s
  {
    var t := s + (['\0'] + rest);
    if s != [] {
      CStrEnds(s[1..], rest);
      assert t[1..] == s[1..] + (['\0'] + rest);
    }
  }

  function EscapeChar(c: char): string {
    if c == '\t' then "\\t"
    else if c == '\n' then "\\n"
    else if c == '\r' then "\\r"
    else if c == FF then "\\f"
    else if c == BS then "\\b"
    else if c == '\\' then "\\\\"
    else if c == '"' then "\\\""
    else [c]
  }

  function Escape(s: string): string {
    if s == [] then [] else EscapeChar(s[0]) + Escape(s[1..])
  }

  function Quote(s: string): string { "\"" + Escape(CStr(s)) + "\"" }

  /** A control character that section 7 of RFC 8259 wants escaped and the writer leaves as it is. */
  predicate RawControl(c: char) { (c as int) < 0x20 && c != '\t' && c != '\n' && c != '\r' && c != FF && c != BS }

  predicate Printable(s: string) { forall i :: 0 <= i < |s| ==> !RawControl(s[i]) }

  /** Section 7 of RFC 8259, by code points: backspace, tab, line feed, form feed and carriage return. */
  lemma EscapeCodes()
    ensures EscapeChar(8 as char) == "\\b" && EscapeChar(9 as char) == "\\t" && EscapeChar(10 as char) == "\\n"
    ensures EscapeChar(12 as char) == "\\f" && EscapeChar(13 as char) == "\\r"
    ensures EscapeChar(34 as char) == [92 as char, 34 as char] && EscapeChar(92 as char) == [92 as char, 92 as char]
    ensures forall c: char :: c as int !in {8, 9, 10, 12, 13, 34, 92} ==> EscapeChar(c) == [c]
  {
  }

  // ---------------------------------------------------------------- the layout

  function Spaces(depth: nat): string { if depth == 0 then [] else "    " + Spaces(depth - 1) }

  /** The line break in front of a name or a closing bracket. */
  function Eol(pretty: bool, depth: nat): string { if pretty then "\n" + Spaces(depth) else [] }

  function Colon(pretty: bool): string { if pretty then ": " else ":" }

  function Print(v: Json, pretty: bool, depth: nat): string
    decreases v, 1, 0
  {
    match v
    case Literal(text) => text
    case Str(str) => Quote(str)
    case Arr(elems) =>
      if elems == [] then "[]" else "[" + PrintElems(v, 0, pretty, depth + 1) + (Eol(pretty, depth) + "]")
    case Obj(members) =>
      if members == [] then "{}" else "{" + PrintMembers(v, 0, pretty, depth + 1) + (Eol(pretty, depth) + "}")
  }

  /** The elements of an array from position `i` on, separated by commas. */
  function PrintElems(v: Json, i: nat, pretty: bool, depth: nat): string
    requires v.Arr? && i < |v.elems|
    decreases v, 0, |v.elems| - i
  {
    Print(v.elems[i], pretty, depth)
    + if i + 1 == |v.elems| then [] else "," + PrintElems(v, i + 1, pretty, depth)
  }

  /** The members of an object from position `i` on, each on a line of its own when pretty. */
  function PrintMembers(v: Json, i: nat, pretty: bool, depth: nat): string
    requires v.Obj? && i < |v.members|
    decreases v, 0, |v.members| - i
  {
    Eol(pretty, depth) + Quote(v.members[i].0) + Colon(pretty) + Print(v.members[i].1, pretty, depth)
    + if i + 1 == |v.members| then [] else "," + PrintMembers(v, i + 1, pretty, depth)
  }

  // ---------------------------------------------------------------- a parser

  predicate IsSpace(c: char) { c == ' ' || c == '\t' || c == '\n' || c == '\r' }

  function Skip(s: string): (r: string)
    ensures |r| <= |s|
  {
    if s != [] && IsSpace(s[0]) then Skip(s[1..]) else s
  }

  /** Characters of numbers and of the names true, false and null. */
  predicate IsWord(c: char) {
    'a' <= c <= 'z' || 'A' <= c <= 'Z' || '0' <= c <= '9' || c == '-' || c == '+' || c == '.'
  }

  function Word(s: string): (r: (string, string))
    ensures s == r.0 + r.1
  {
    if s != [] && IsWord(s[0]) then
      var (w, rest) := Word(s[1..]);
      ([s[0]] + w, rest)
    else ([], s)
  }

  /** How many digits a text begins with. */
  function Digits(s: string): (n: nat)
    ensures n <= |s|
  {
    if s != [] && '0' <= s[0] <= '9' then 1 + Digits(s[1..]) else 0
  }

  predicate IsExponent(s: string) {
    var t := if s != [] && (s[0] == '+' || s[0] == '-') then s[1..] else s;
    t != [] && Digits(t) == |t|
  }

  /** What may follow the integer part of a number: a fraction, an exponent, or both. */
  predicate IsFraction(s: string) {
    s == []
    || ((s[0] == 'e' || s[0] == 'E') && IsExponent(s[1..]))
    || (s[0] == '.' &&
        var n := 1 + Digits(s[1..]);
        n > 1 && (n == |s| || ((s[n] == 'e' || s[n] == 'E') && IsExponent(s[n + 1..]))))
  }

  /** Section 6 of RFC 8259: no leading zeros, no leading plus sign. */
  predicate IsNumber(s: string) {
    var t := if s != [] && s[0] == '-' then s[1..] else s;
    var n := Digits(t);
    n > 0 && (t[0] == '0' ==> n == 1) && IsFraction(t[n..])
  }

  /** Section 3 of RFC 8259; numbers are made of word characters. */
  predicate IsLiteral(s: string) {
    && s != [] && (forall i :: 0 <= i < |s| ==> IsWord(s[i]))
    && (s == "true" || s == "false" || s == "null" || IsNumber(s))
  }

  function Unescape(c: char): Option<char> {
    if c == 't' then Some('\t')
    else if c == 'n' then Some('\n')
    else if c == 'r' then Some('\r')
    else if c == 'f' then Some(FF)
    else if c == 'b' then Some(BS)
    else if c == '\\' || c == '"' || c == '/' then Some(c)
    else None
  }

  /** A UTF-16 code unit written as four hexadecimal digits. */
  function CodeUnit(s: string): (u: Option<nat>)
    ensures u.Some? ==> |s| >= 4 && u.value < 0x1_0000
  {
    if |s| < 4 then None
    else
      var (a, b, c, d) := (Hex.Digit(s[0]), Hex.Digit(s[1]), Hex.Digit(s[2]), Hex.Digit(s[3]));
      if a.None? || b.None? || c.None? || d.None? then None
      else Some(16 * (16 * (16 * a.value + b.value) + c.value) + d.value)
  }

  /** The character behind a backslash and a `u`: one code unit, or a surrogate pair in two escapes. */
  function UnescapeUnit(s: string): (r: Option<(char, string)>)
    ensures r.Some? ==> |r.value.1| <= |s|
  {
    var u := CodeUnit(s);
    if u.None? then None
    else if u.value < 0xD800 || u.value >= 0xE000 then Some((u.value as char, s[4..]))
    else if u.value < 0xDC00 && |s| >= 6 && s[4] == '\\' && s[5] == 'u' then
      var low := CodeUnit(s[6..]);
      if low.Some? && 0xDC00 <= low.value < 0xE000 then
        Some(((0x1_0000 + 0x400 * (u.value - 0xD800) + (low.value - 0xDC00)) as char, s[10..]))
      else None
    else None
  }

  /** The rest of a string behind its opening quotation mark. Strictly, control characters must be escaped. */
  function ReadStr(s: string, strict: bool): Option<(string, string)>
    decreases |s|
  {
    if s == [] then None
    else if s[0] == '"' then Some(([], s[1..]))
    else if strict && (s[0] as int) < 0x20 then None
    else if s[0] == '\\' then
      if |s| == 1 then None
      else if s[1] == 'u' then
        match UnescapeUnit(s[2..])
        case None => None
        case Some(p) => Prepend(p.0, ReadStr(p.1, strict))
      else
        match Unescape(s[1])
        case None => None
        case Some(c) => Prepend(c, ReadStr(s[2..], strict))
    else Prepend(s[0], ReadStr(s[1..], strict))
  }

  /** A string after section 7 of RFC 8259. */
  function ParseStr(s: string): Option<(string, string)> { ReadStr(s, true) }

  function Prepend(c: char, r: Option<(string, string)>): Option<(string, string)> {
    match r
    case None => None
    case Some(p) => Some(([c] + p.0, p.1))
  }

  function Expect(c: char, s: string): Option<string> {
    var t := Skip(s);
    if t != [] && t[0] == c then Some(t[1..]) else None
  }

  /** Parses a value from the front of `s`; `fuel` bounds the nesting of calls. */
  function ParseValue(s: string, fuel: nat): Option<(Json, string)>
    decreases fuel, 0
  {
    var t := Skip(s);
    if fuel == 0 || t == [] then None
    else if t[0] == '"' then
      match ParseStr(t[1..])
      case None => None
      case Some(p) => Some((Str(p.0), p.1))
    else if t[0] == '[' then
      match Expect(']', t[1..])
      case Some(rest) => Some((Arr([]), rest))
      case None =>
        match ParseElems(t[1..], fuel - 1)
        case None => None
        case Some(p) => Some((Arr(p.0), p.1))
    else if t[0] == '{' then
      match Expect('}', t[1..])
      case Some(rest) => Some((Obj([]), rest))
      case None =>
        match ParseMembers(t[1..], fuel - 1)
        case None => None
        case Some(p) => Some((Obj(p.0), p.1))
    else
      var (w, rest) := Word(t);
      if IsLiteral(w) then Some((Literal(w), rest)) else None
  }

  /** One or more elements and the closing bracket. */
  function ParseElems(s: string, fuel: nat): Option<(seq<Json>, string)>
    decreases fuel, 1
  {
    match ParseValue(s, fuel)
    case None => None
    case Some(p) =>
      match Expect(']', p.1)
      case Some(rest) => Some(([p.0], rest))
      case None =>
        if fuel == 0 then None
        else match Expect(',', p.1)
          case None => None
          case Some(more) =>
            match ParseElems(more, fuel - 1)
            case None => None
            case Some(q) => Some(([p.0] + q.0, q.1))
  }

  /** A name and the value behind its colon. */
  function ParseMember(s: string, fuel: nat): Option<((string, Json), string)>
    decreases fuel, 1
  {
    match Expect('"', s)
    case None => None
    case Some(t) =>
      match ParseStr(t)
      case None => None
      case Some(name) =>
        match Expect(':', name.1)
        case None => None
        case Some(u) =>
          match ParseValue(u, fuel)
          case None => None
          case Some(p) => Some(((name.0, p.0), p.1))
  }

  function ParseMembers(s: string, fuel: nat): Option<(seq<(string, Json)>, string)>
    decreases fuel, 2
  {
    match ParseMember(s, fuel)
    case None => None
    case Some(p) =>
      match Expect('}', p.1)
      case Some(rest) => Some(([p.0], rest))
      case None =>
        if fuel == 0 then None
        else match Expect(',', p.1)
          case None => None
          case Some(more) =>
            match ParseMembers(more, fuel - 1)
            case None => None
            case Some(q) => Some(([p.0] + q.0, q.1))
  }

  // ---------------------------------------------------------------- strings round trip

  lemma EscapedCharReads(c: char, rest: string, strict: bool)
    requires c != '\0'
    ensures ReadStr(EscapeChar(c) + rest, strict) ==
      if strict && RawControl(c) then None else Prepend(c, ReadStr(rest, strict))
  {
    var e := EscapeChar(c);
    assert (e + rest)[0] == e[0];
    if |e| == 2 {
      assert (e + rest)[1] == e[1] && (e + rest)[2..] == rest;
    } else {
      assert (e + rest)[1..] == rest;
    }
  }

  /**
   * A quoted string reads back as itself, whatever it holds and whatever follows; strictly it does so exactly when it
   * holds no control character that the writer leaves raw.
   */
  lemma {:induction false} EscapedReads(s: string, rest: string, strict: bool)
    requires NulFree(s)
    ensures ReadStr(Escape(s) + "\"" + rest, strict) == if strict && !Printable(s) then None else Some((s, rest))
  {
    if s == [] {
      assert Escape(s) + "\"" + rest == "\"" + rest;
    } else {
      var tail := Escape(s[1..]) + "\"" + rest;
      EscapedReads(s[1..], rest, strict);
      assert Escape(s) + "\"" + rest == EscapeChar(s[0]) + tail;
      EscapedCharReads(s[0], tail, strict);
      PrintableCons(s);
    }
  }

  lemma PrintableCons(s: string)
    requires s != []
    ensures s == [s[0]] + s[1..] && (Printable(s) <==> !RawControl(s[0]) && Printable(s[1..]))
  {
  }

  /** What `jsonw_puts` writes for a buffer determines the string in it, up to its NUL. */
  lemma QuoteReads(buffer: string, rest: string)
    ensures Quote(buffer) != "" && ReadStr((Quote(buffer) + rest)[1..], false) == Some((CStr(buffer), rest))
  {
    CStrStops(buffer);
    assert (Quote(buffer) + rest)[1..] == Escape(CStr(buffer)) + "\"" + rest;
    EscapedReads(CStr(buffer), rest, false);
  }

  lemma {:induction false} CStrStops(s: string)
    ensures NulFree(CStr(s))
  {
    if s != [] && s[0] != '\0' {
      CStrStops(s[1..]);
    }
  }

  // ---------------------------------------------------------------- values round trip

  /** Literals are those of RFC 8259, and strings are C strings. */
  predicate WellFormed(v: Json) {
    match v
    case Literal(text) => IsLiteral(text)
    case Str(str) => NulFree(str)
    case Arr(elems) => forall i :: 0 <= i < |elems| ==> WellFormed(elems[i])
    case Obj(members) => forall i :: 0 <= i < |members| ==> NulFree(members[i].0) && WellFormed(members[i].1)
  }

  /** No string in the value holds a control character that the writer leaves raw. */
  predicate Clean(v: Json) {
    match v
    case Literal(_) => true
    case Str(str) => Printable(str)
    case Arr(elems) => forall i :: 0 <= i < |elems| ==> Clean(elems[i])
    case Obj(members) => forall i :: 0 <= i < |members| ==> Printable(members[i].0) && Clean(members[i].1)
  }

  /** How much fuel the parser needs for a value. */
  function Need(v: Json): nat
    decreases v, 1, 0
  {
    match v
    case Literal(_) => 1
    case Str(_) => 1
    case Arr(_) => 1 + NeedElems(v, 0)
    case Obj(_) => 1 + NeedMembers(v, 0)
  }

  function NeedElems(v: Json, i: nat): nat
    requires v.Arr? && i <= |v.elems|
    decreases v, 0, |v.elems| - i
  {
    if i == |v.elems| then 0 else Need(v.elems[i]) + 1 + NeedElems(v, i + 1)
  }

  function NeedMembers(v: Json, i: nat): nat
    requires v.Obj? && i <= |v.members|
    decreases v, 0, |v.members| - i
  {
    if i == |v.members| then 0 else Need(v.members[i].1) + 1 + NeedMembers(v, i + 1)
  }

  /** What may follow a value: not another word character. */
  predicate Ends(rest: string) { rest == [] || !IsWord(rest[0]) }

  lemma {:induction false} SkipSpaces(depth: nat, rest: string)
    ensures Skip(Spaces(depth) + rest) == Skip(rest)
  {
    if depth == 0 {
      assert Spaces(0) + rest == rest;
    } else {
      var more := Spaces(depth - 1) + rest;
      assert Spaces(depth) + rest == "    " + more;
      SkipFour(more);
      SkipSpaces(depth - 1, rest);
    }
  }

  lemma SkipFour(more: string)
    ensures Skip("    " + more) == Skip(more)
  {
    var s := "    " + more;
    SkipOne(s);
    SkipOne(s[1..]);
    SkipOne(s[2..]);
    SkipOne(s[3..]);
    assert s[4..] == more;
  }

  lemma SkipOne(s: string)
    requires s != [] && s[0] == ' '
    ensures Skip(s) == Skip(s[1..])
  {
  }

  lemma SkipEol(pretty: bool, depth: nat, rest: string)
    ensures Skip(Eol(pretty, depth) + rest) == Skip(rest)
  {
    if pretty {
      var more := Spaces(depth) + rest;
      assert Eol(pretty, depth) + rest == ['\n'] + more;
      assert (['\n'] + more)[1..] == more;
      SkipSpaces(depth, rest);
    } else {
      assert Eol(pretty, depth) + rest == rest;
    }
  }

  lemma {:induction false} WordParses(w: string, rest: string)
    requires (forall i :: 0 <= i < |w| ==> IsWord(w[i])) && Ends(rest)
    ensures Word(w + rest) == (w, rest)
  {
    if w == [] {
      assert w + rest == rest;
    } else {
      assert (w + rest)[0] == w[0] && (w + rest)[1..] == w[1..] + rest;
      WordParses(w[1..], rest);
      assert w == [w[0]] + w[1..];
    }
  }

  /** The first character of a value: no space, no closing bracket, no comma. */
  lemma PrintHead(v: Json, pretty: bool, depth: nat)
    requires WellFormed(v)
    ensures var s := Print(v, pretty, depth);
      s != [] && (if v.Literal? then IsWord(s[0]) else s[0] == (if v.Str? then '"' else if v.Arr? then '[' else '{'))
  {
  }

  lemma LiteralParses(v: Json, pretty: bool, depth: nat, rest: string, fuel: nat)
    requires v.Literal? && WellFormed(v) && Ends(rest) && fuel > 0
    ensures ParseValue(Print(v, pretty, depth) + rest, fuel) == Some((v, rest))
  {
    WordParses(v.text, rest);
  }

  lemma StrParses(v: Json, pretty: bool, depth: nat, rest: string, fuel: nat)
    requires v.Str? && WellFormed(v) && fuel > 0
    ensures Yields(Print(v, pretty, depth) + rest, fuel, v, rest)
  {
    CStrEnds(v.str, "");
    var s := Print(v, pretty, depth) + rest;
    assert s[1..] == Escape(v.str) + "\"" + rest;
    EscapedReads(v.str, rest, true);
  }

  // One step of the parser on a text that is known in part.

  lemma EmptyParses(rest: string, fuel: nat)
    requires fuel > 0
    ensures ParseValue("[]" + rest, fuel) == Some((Arr([]), rest))
    ensures ParseValue("{}" + rest, fuel) == Some((Obj([]), rest))
  {
    assert ("[]" + rest)[1..] == "]" + rest && ("]" + rest)[1..] == rest;
    assert ("{}" + rest)[1..] == "}" + rest && ("}" + rest)[1..] == rest;
  }

  lemma BracketParses(body: string, fuel: nat)
    requires fuel > 0 && Expect(']', body) == None
    ensures ParseValue("[" + body, fuel) ==
      match ParseElems(body, fuel - 1)
      case None => None
      case Some(p) => Some((Arr(p.0), p.1))
  {
    assert ("[" + body)[1..] == body;
  }

  lemma BraceParses(body: string, fuel: nat)
    requires fuel > 0 && Expect('}', body) == None
    ensures ParseValue("{" + body, fuel) ==
      match ParseMembers(body, fuel - 1)
      case None => None
      case Some(p) => Some((Obj(p.0), p.1))
  {
    assert ("{" + body)[1..] == body;
  }

  predicate AllClean(elems: seq<Json>) { forall k :: 0 <= k < |elems| ==> Clean(elems[k]) }

  predicate AllMembersClean(members: seq<(string, Json)>) {
    forall k :: 0 <= k < |members| ==> Printable(members[k].0) && Clean(members[k].1)
  }

  /** The text starts with the value `v`, or is refused because the value is not clean. */
  ghost predicate Yields(s: string, fuel: nat, v: Json, rest: string) {
    ParseValue(s, fuel) == if Clean(v) then Some((v, rest)) else None
  }

  ghost predicate YieldsElems(s: string, fuel: nat, elems: seq<Json>, rest: string) {
    ParseElems(s, fuel) == if AllClean(elems) then Some((elems, rest)) else None
  }

  ghost predicate YieldsMember(s: string, fuel: nat, m: (string, Json), rest: string) {
    ParseMember(s, fuel) == if Printable(m.0) && Clean(m.1) then Some((m, rest)) else None
  }

  ghost predicate YieldsMembers(s: string, fuel: nat, members: seq<(string, Json)>, rest: string) {
    ParseMembers(s, fuel) == if AllMembersClean(members) then Some((members, rest)) else None
  }

  /** An element, and either the closing bracket or a comma and the other elements. */
  lemma ElemsStep(s: string, elems: seq<Json>, after: string, more: string, rest: string, fuel: nat)
    requires elems != [] && Yields(s, fuel, elems[0], after)
    requires |elems| == 1 ==> Expect(']', after) == Some(rest)
    requires |elems| > 1 ==> fuel > 0 && Expect(']', after) == None && Expect(',', after) == Some(more)
    requires |elems| > 1 ==> YieldsElems(more, fuel - 1, elems[1..], rest)
    ensures YieldsElems(s, fuel, elems, rest)
  {
    assert AllClean(elems) <==> Clean(elems[0]) && AllClean(elems[1..]);
    if |elems| == 1 {
      assert elems == [elems[0]];
    } else {
      assert elems == [elems[0]] + elems[1..];
    }
  }

  lemma MembersStep(s: string, members: seq<(string, Json)>, after: string, more: string, rest: string, fuel: nat)
    requires members != [] && YieldsMember(s, fuel, members[0], after)
    requires |members| == 1 ==> Expect('}', after) == Some(rest)
    requires |members| > 1 ==> fuel > 0 && Expect('}', after) == None && Expect(',', after) == Some(more)
    requires |members| > 1 ==> YieldsMembers(more, fuel - 1, members[1..], rest)
    ensures YieldsMembers(s, fuel, members, rest)
  {
    assert AllMembersClean(members) <==>
        Printable(members[0].0) && Clean(members[0].1) && AllMembersClean(members[1..]);
    if |members| == 1 {
      assert members == [members[0]];
    } else {
      assert members == [members[0]] + members[1..];
    }
  }

  lemma {:induction false} ValueParses(v: Json, pretty: bool, depth: nat, rest: string, fuel: nat)
    requires WellFormed(v) && Ends(rest) && fuel >= Need(v)
    ensures Yields(Print(v, pretty, depth) + rest, fuel, v, rest)
    decreases v, 2, 0
  {
    match v
    case Literal(_) => LiteralParses(v, pretty, depth, rest, fuel);
    case Str(_) => StrParses(v, pretty, depth, rest, fuel);
    case Arr(elems) =>
      if elems == [] {
        EmptyParses(rest, fuel);
      } else {
        ElemsParse(v, 0, pretty, depth, rest, fuel - 1);
        assert elems[0..] == elems;
        ArrParses(v, pretty, depth, rest, fuel);
      }
    case Obj(members) =>
      if members == [] {
        EmptyParses(rest, fuel);
      } else {
        MembersParse(v, 0, pretty, depth, rest, fuel - 1);
        assert members[0..] == members;
        ObjParses(v, pretty, depth, rest, fuel);
      }
  }

  function ElemsBody(v: Json, i: nat, pretty: bool, depth: nat, rest: string): string
    requires v.Arr? && i < |v.elems|
  {
    PrintElems(v, i, pretty, depth + 1) + (Eol(pretty, depth) + ("]" + rest))
  }

  function MembersBody(v: Json, i: nat, pretty: bool, depth: nat, rest: string): string
    requires v.Obj? && i < |v.members|
  {
    PrintMembers(v, i, pretty, depth + 1) + (Eol(pretty, depth) + ("}" + rest))
  }

  lemma RegroupClose(open: string, body: string, eol: string, close: string, rest: string)
    ensures (open + body + (eol + close)) + rest == open + (body + (eol + (close + rest)))
  {
  }

  lemma ArrBody(v: Json, pretty: bool, depth: nat, rest: string)
    requires v.Arr? && v.elems != [] && WellFormed(v)
    ensures Print(v, pretty, depth) + rest == "[" + ElemsBody(v, 0, pretty, depth, rest)
    ensures Expect(']', ElemsBody(v, 0, pretty, depth, rest)) == None
  {
    RegroupClose("[", PrintElems(v, 0, pretty, depth + 1), Eol(pretty, depth), "]", rest);
    PrintHead(v.elems[0], pretty, depth + 1);
    assert ElemsBody(v, 0, pretty, depth, rest)[0] == Print(v.elems[0], pretty, depth + 1)[0];
  }

  lemma ArrParses(v: Json, pretty: bool, depth: nat, rest: string, fuel: nat)
    requires v.Arr? && v.elems != [] && WellFormed(v) && fuel > 0
    requires YieldsElems(ElemsBody(v, 0, pretty, depth, rest), fuel - 1, v.elems, rest)
    ensures Yields(Print(v, pretty, depth) + rest, fuel, v, rest)
  {
    ArrBody(v, pretty, depth, rest);
    BracketParses(ElemsBody(v, 0, pretty, depth, rest), fuel);
    assert Clean(v) <==> AllClean(v.elems);
  }

  lemma ObjBody(v: Json, pretty: bool, depth: nat, rest: string)
    requires v.Obj? && v.members != []
    ensures Print(v, pretty, depth) + rest == "{" + MembersBody(v, 0, pretty, depth, rest)
    ensures Expect('}', MembersBody(v, 0, pretty, depth, rest)) == None
  {
    RegroupClose("{", PrintMembers(v, 0, pretty, depth + 1), Eol(pretty, depth), "}", rest);
    var body := MembersBody(v, 0, pretty, depth, rest);
    var more := body[|Eol(pretty, depth + 1)|..];
    assert body == Eol(pretty, depth + 1) + more && more[0] == '"';
    SkipEol(pretty, depth + 1, more);
  }

  lemma ObjParses(v: Json, pretty: bool, depth: nat, rest: string, fuel: nat)
    requires v.Obj? && v.members != [] && WellFormed(v) && fuel > 0
    requires YieldsMembers(MembersBody(v, 0, pretty, depth, rest), fuel - 1, v.members, rest)
    ensures Yields(Print(v, pretty, depth) + rest, fuel, v, rest)
  {
    ObjBody(v, pretty, depth, rest);
    BraceParses(MembersBody(v, 0, pretty, depth, rest), fuel);
    assert Clean(v) <==> AllMembersClean(v.members);
  }

  lemma CloseParses(c: char, pretty: bool, depth: nat, rest: string)
    requires c == ']' || c == '}'
    ensures var s := Eol(pretty, depth) + ([c] + rest); Ends(s) && Expect(c, s) == Some(rest)
  {
    var t := [c] + rest;
    assert t[0] == c && t[1..] == rest;
    assert Skip(t) == t;
    SkipEol(pretty, depth, t);
    assert pretty ==> (Eol(pretty, depth) + t)[0] == '\n';
    assert !pretty ==> Eol(pretty, depth) + t == t;
  }

  lemma CommaParses(more: string)
    ensures var s := "," + more;
      Ends(s) && Expect(']', s) == None && Expect('}', s) == None && Expect(',', s) == Some(more)
  {
    assert ("," + more)[1..] == more;
  }

  /** The text behind element `i` of an array. */
  function AfterElem(v: Json, i: nat, pretty: bool, depth: nat, rest: string): string
    requires v.Arr? && i < |v.elems|
  {
    if i + 1 == |v.elems| then Eol(pretty, depth) + ("]" + rest) else "," + ElemsBody(v, i + 1, pretty, depth, rest)
  }

  lemma AfterElemEnds(v: Json, i: nat, pretty: bool, depth: nat, rest: string)
    requires v.Arr? && i < |v.elems|
    ensures var after := AfterElem(v, i, pretty, depth, rest);
      && Ends(after) && ElemsBody(v, i, pretty, depth, rest) == Print(v.elems[i], pretty, depth + 1) + after
      && if i + 1 == |v.elems| then Expect(']', after) == Some(rest)
         else Expect(']', after) == None && Expect(',', after) == Some(ElemsBody(v, i + 1, pretty, depth, rest))
  {
    if i + 1 == |v.elems| {
      CloseParses(']', pretty, depth, rest);
    } else {
      CommaParses(ElemsBody(v, i + 1, pretty, depth, rest));
    }
  }

  lemma {:induction false} ElemParses(v: Json, i: nat, pretty: bool, depth: nat, rest: string, fuel: nat)
    requires v.Arr? && i < |v.elems| && WellFormed(v.elems[i]) && fuel >= Need(v.elems[i])
    ensures Yields(ElemsBody(v, i, pretty, depth, rest), fuel, v.elems[i], AfterElem(v, i, pretty, depth, rest))
    decreases v, 0, 0
  {
    AfterElemEnds(v, i, pretty, depth, rest);
    ValueParses(v.elems[i], pretty, depth + 1, AfterElem(v, i, pretty, depth, rest), fuel);
  }

  lemma {:induction false} ElemsParse(v: Json, i: nat, pretty: bool, depth: nat, rest: string, fuel: nat)
    requires v.Arr? && i < |v.elems| && WellFormed(v) && fuel >= NeedElems(v, i)
    ensures YieldsElems(ElemsBody(v, i, pretty, depth, rest), fuel, v.elems[i..], rest)
    decreases v, 1, |v.elems| - i
  {
    ElemParses(v, i, pretty, depth, rest, fuel);
    if i + 1 < |v.elems| {
      ElemsParse(v, i + 1, pretty, depth, rest, fuel - 1);
    }
    ElemsFrom(v, i, pretty, depth, rest, fuel);
  }

  /** One element parses, and so do those after it. */
  lemma ElemsFrom(v: Json, i: nat, pretty: bool, depth: nat, rest: string, fuel: nat)
    requires v.Arr? && i < |v.elems|
    requires Yields(ElemsBody(v, i, pretty, depth, rest), fuel, v.elems[i], AfterElem(v, i, pretty, depth, rest))
    requires i + 1 < |v.elems| ==>
      fuel > 0 && YieldsElems(ElemsBody(v, i + 1, pretty, depth, rest), fuel - 1, v.elems[i + 1..], rest)
    ensures YieldsElems(ElemsBody(v, i, pretty, depth, rest), fuel, v.elems[i..], rest)
  {
    AfterElemEnds(v, i, pretty, depth, rest);
    var more := if i + 1 < |v.elems| then ElemsBody(v, i + 1, pretty, depth, rest) else "";
    assert v.elems[i..][1..] == v.elems[i + 1..];
    ElemsStep(ElemsBody(v, i, pretty, depth, rest), v.elems[i..], AfterElem(v, i, pretty, depth, rest), more, rest,
        fuel);
  }

  function AfterMember(v: Json, i: nat, pretty: bool, depth: nat, rest: string): string
    requires v.Obj? && i < |v.members|
  {
    if i + 1 == |v.members| then Eol(pretty, depth) + ("}" + rest) else "," + MembersBody(v, i + 1, pretty, depth, rest)
  }

  lemma AfterMemberEnds(v: Json, i: nat, pretty: bool, depth: nat, rest: string)
    requires v.Obj? && i < |v.members|
    ensures var after := AfterMember(v, i, pretty, depth, rest);
      && Ends(after)
      && if i + 1 == |v.members| then Expect('}', after) == Some(rest)
         else Expect('}', after) == None && Expect(',', after) == Some(MembersBody(v, i + 1, pretty, depth, rest))
  {
    if i + 1 == |v.members| {
      CloseParses('}', pretty, depth, rest);
    } else {
      CommaParses(MembersBody(v, i + 1, pretty, depth, rest));
    }
  }

  /** The text of one member: line break, name, colon, value. */
  function MemberText(name: string, value: string, pretty: bool, depth: nat): string {
    Eol(pretty, depth) + ("\"" + (Escape(name) + "\"" + (Colon(pretty) + value)))
  }

  lemma Regroup(eol: string, name: string, colon: string, value: string, more: string, close: string)
    ensures (eol + ("\"" + name + "\"") + colon + value + more) + close
      == eol + ("\"" + (name + "\"" + (colon + (value + (more + close)))))
  {
  }

  lemma MemberSplit(v: Json, i: nat, pretty: bool, depth: nat, rest: string)
    requires v.Obj? && i < |v.members| && NulFree(v.members[i].0)
    ensures MembersBody(v, i, pretty, depth, rest)
      == MemberText(v.members[i].0, Print(v.members[i].1, pretty, depth + 1) + AfterMember(v, i, pretty, depth, rest),
          pretty, depth + 1)
  {
    var (name, value) := v.members[i];
    CStrEnds(name, "");
    var more := if i + 1 == |v.members| then [] else "," + PrintMembers(v, i + 1, pretty, depth + 1);
    var close := Eol(pretty, depth) + ("}" + rest);
    assert more + close == AfterMember(v, i, pretty, depth, rest);
    Regroup(Eol(pretty, depth + 1), Escape(name), Colon(pretty), Print(value, pretty, depth + 1), more, close);
  }

  lemma ColonParses(value: string, pretty: bool, fuel: nat)
    requires value != [] && !IsSpace(value[0])
    ensures var t := Expect(':', Colon(pretty) + value); t.Some? && ParseValue(t.value, fuel) == ParseValue(value, fuel)
  {
    var tail := Colon(pretty) + value;
    if pretty {
      assert tail[1..] == [' '] + value;
      assert ([' '] + value)[1..] == value;
    } else {
      assert tail[1..] == value;
    }
  }

  lemma NameParses(name: string, value: string, pretty: bool, depth: nat, fuel: nat)
    requires NulFree(name) && value != [] && !IsSpace(value[0])
    ensures ParseMember(MemberText(name, value, pretty, depth), fuel) ==
      if !Printable(name) then None
      else match ParseValue(value, fuel)
        case None => None
        case Some(p) => Some(((name, p.0), p.1))
  {
    var tail := Colon(pretty) + value;
    var body := Escape(name) + "\"" + tail;
    SkipEol(pretty, depth, "\"" + body);
    assert ("\"" + body)[1..] == body;
    EscapedReads(name, tail, true);
    ColonParses(value, pretty, fuel);
  }

  lemma {:induction false} MemberParses(v: Json, i: nat, pretty: bool, depth: nat, rest: string, fuel: nat)
    requires v.Obj? && i < |v.members| && WellFormed(v) && fuel >= Need(v.members[i].1)
    ensures YieldsMember(MembersBody(v, i, pretty, depth, rest), fuel, v.members[i],
      AfterMember(v, i, pretty, depth, rest))
    decreases v, 0, 0
  {
    var (name, value) := v.members[i];
    var after := AfterMember(v, i, pretty, depth, rest);
    AfterMemberEnds(v, i, pretty, depth, rest);
    ValueParses(value, pretty, depth + 1, after, fuel);
    MemberSplit(v, i, pretty, depth, rest);
    PrintHead(value, pretty, depth + 1);
    assert (Print(value, pretty, depth + 1) + after)[0] == Print(value, pretty, depth + 1)[0];
    NameParses(name, Print(value, pretty, depth + 1) + after, pretty, depth + 1, fuel);
  }

  lemma {:induction false} MembersParse(v: Json, i: nat, pretty: bool, depth: nat, rest: string, fuel: nat)
    requires v.Obj? && i < |v.members| && WellFormed(v) && fuel >= NeedMembers(v, i)
    ensures YieldsMembers(MembersBody(v, i, pretty, depth, rest), fuel, v.members[i..], rest)
    decreases v, 1, |v.members| - i
  {
    MemberParses(v, i, pretty, depth, rest, fuel);
    if i + 1 < |v.members| {
      MembersParse(v, i + 1, pretty, depth, rest, fuel - 1);
    }
    MembersFrom(v, i, pretty, depth, rest, fuel);
  }

  /** One member parses, and so do those after it. */
  lemma MembersFrom(v: Json, i: nat, pretty: bool, depth: nat, rest: string, fuel: nat)
    requires v.Obj? && i < |v.members|
    requires var after := AfterMember(v, i, pretty, depth, rest);
      YieldsMember(MembersBody(v, i, pretty, depth, rest), fuel, v.members[i], after)
    requires i + 1 < |v.members| ==>
      fuel > 0 && YieldsMembers(MembersBody(v, i + 1, pretty, depth, rest), fuel - 1, v.members[i + 1..], rest)
    ensures YieldsMembers(MembersBody(v, i, pretty, depth, rest), fuel, v.members[i..], rest)
  {
    AfterMemberEnds(v, i, pretty, depth, rest);
    var more := if i + 1 < |v.members| then MembersBody(v, i + 1, pretty, depth, rest) else "";
    assert v.members[i..][1..] == v.members[i + 1..];
    MembersStep(MembersBody(v, i, pretty, depth, rest), v.members[i..], AfterMember(v, i, pretty, depth, rest), more,
        rest, fuel);
  }

  // ---------------------------------------------------------------- whole texts

  /** The text of a value is at least as long as parsing it needs. */
  lemma {:induction false} NeedFits(v: Json, pretty: bool, depth: nat)
    requires WellFormed(v)
    ensures Need(v) <= |Print(v, pretty, depth)|
    decreases v, 1, 0
  {
    match v
    case Literal(_) =>
    case Str(_) =>
    case Arr(elems) =>
      if elems != [] {
        NeedElemsFits(v, 0, pretty, depth + 1);
      }
    case Obj(members) =>
      if members != [] {
        NeedMembersFits(v, 0, pretty, depth + 1);
      }
  }

  lemma {:induction false} NeedElemsFits(v: Json, i: nat, pretty: bool, depth: nat)
    requires v.Arr? && i < |v.elems| && WellFormed(v)
    ensures NeedElems(v, i) <= |PrintElems(v, i, pretty, depth)| + 1
    decreases v, 0, |v.elems| - i
  {
    NeedFits(v.elems[i], pretty, depth);
    if i + 1 < |v.elems| {
      NeedElemsFits(v, i + 1, pretty, depth);
    }
  }

  lemma {:induction false} NeedMembersFits(v: Json, i: nat, pretty: bool, depth: nat)
    requires v.Obj? && i < |v.members| && WellFormed(v)
    ensures NeedMembers(v, i) <= |PrintMembers(v, i, pretty, depth)| + 1
    decreases v, 0, |v.members| - i
  {
    NeedFits(v.members[i].1, pretty, depth);
    if i + 1 < |v.members| {
      NeedMembersFits(v, i + 1, pretty, depth);
    }
  }

  /** Parses a text that consists of one value. */
  function Parse(s: string): Option<Json> {
    match ParseValue(s, |s|)
    case None => None
    case Some(p) => if Skip(p.1) == [] then Some(p.0) else None
  }

  /**
   * What the writer lays out for a value parses back to that value, pretty or compact, exactly when no
   * string in it holds a control character that the writer leaves raw.
   */
  lemma RoundTrip(v: Json, pretty: bool, depth: nat)
    requires WellFormed(v)
    ensures Parse(Print(v, pretty, depth)) == if Clean(v) then Some(v) else None
  {
    NeedFits(v, pretty, depth);
    ValueParses(v, pretty, depth, [], |Print(v, pretty, depth)|);
    assert Print(v, pretty, depth) + [] == Print(v, pretty, depth);
  }
}
