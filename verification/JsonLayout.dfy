/** How the writer lays a text out: where white space stands, and why. */
module JsonLayout {
  import opened JsonText
  import opened JsonWriter

  // ---------------------------------------------------------------- reading a text for its layout

  /** Inside a string or not, behind a backslash or not, how many containers are open, how many lines have ended. */
  datatype Lex = Lex(quoted: bool, escaped: bool, level: int, lines: nat)

  function Read(st: Lex, c: char): Lex {
    if c == '\n' then st.(escaped := false, lines := st.lines + 1)
    else if st.quoted then
      if st.escaped then st.(escaped := false)
      else if c == '\\' then st.(escaped := true)
      else if c == '"' then st.(quoted := false)
      else st
    else if c == '"' then st.(quoted := true)
    else if c == '[' || c == '{' then st.(level := st.level + 1)
    else if c == ']' || c == '}' then st.(level := st.level - 1)
    else st
  }

  function ReadAll(st: Lex, s: string): Lex
    decreases |s|
  {
    if s == [] then st else ReadAll(Read(st, s[0]), s[1..])
  }

  function Blanks(s: string): (n: nat)
    ensures n <= |s| && (forall i :: 0 <= i < n ==> s[i] == ' ') && (n < |s| ==> s[n] != ' ')
  {
    if s == [] || s[0] != ' ' then 0 else 1 + Blanks(s[1..])
  }

  predicate Closes(c: char) { c == ']' || c == '}' }

  /** The indentation that belongs in front of `c`: four blanks for each container that is open around it. */
  function Indentation(st: Lex, c: char): int { 4 * (st.level - if Closes(c) then 1 else 0) }

  /**
   * The only white space outside strings is, in pretty texts, a blank behind each colon, and line breaks in front of
   * names and closing brackets, each with the indentation that belongs there. Inside strings only blanks are raw.
   */
  predicate Laid(s: string, st: Lex, pretty: bool)
    decreases |s|
  {
    if s == [] then true
    else if st.quoted then (IsSpace(s[0]) ==> s[0] == ' ') && Laid(s[1..], Read(st, s[0]), pretty)
    else if pretty && s[0] == '\n' then
      var n := 1 + Blanks(s[1..]);
      n < |s| && (s[n] == '"' || Closes(s[n])) && n - 1 == Indentation(st, s[n]) && Laid(s[n..], Read(st, '\n'), pretty)
    else if pretty && s[0] == ':' then |s| > 1 && s[1] == ' ' && Laid(s[2..], st, pretty)
    else !IsSpace(s[0]) && Laid(s[1..], Read(st, s[0]), pretty)
  }

  /** The text is laid out, and reading it leads from `st` to `end`. */
  predicate Goes(s: string, st: Lex, end: Lex, pretty: bool) { Laid(s, st, pretty) && ReadAll(st, s) == end }

  lemma {:induction false} ReadAppend(st: Lex, s: string, t: string)
    ensures ReadAll(st, s + t) == ReadAll(ReadAll(st, s), t)
    decreases |s|
  {
    if s == [] {
      assert s + t == t;
    } else {
      assert (s + t)[1..] == s[1..] + t;
      ReadAppend(Read(st, s[0]), s[1..], t);
    }
  }

  lemma {:induction false} ReadBlanks(st: Lex, s: string, n: nat)
    requires n <= |s| && !st.quoted && forall i :: 0 <= i < n ==> s[i] == ' '
    ensures ReadAll(st, s) == ReadAll(st, s[n..])
    decreases n
  {
    if n > 0 {
      ReadBlanks(st, s[1..], n - 1);
      assert s[1..][n - 1..] == s[n..];
    }
  }

  lemma {:induction false} BlanksAppend(s: string, t: string)
    requires Blanks(s) < |s|
    ensures Blanks(s + t) == Blanks(s)
  {
    assert (s + t)[0] == s[0];
    if s[0] == ' ' {
      assert (s + t)[1..] == s[1..] + t;
      BlanksAppend(s[1..], t);
    }
  }

  lemma {:induction false} LaidAppend(s: string, t: string, st: Lex, pretty: bool)
    requires Laid(s, st, pretty) && Laid(t, ReadAll(st, s), pretty)
    ensures Laid(s + t, st, pretty)
    decreases |s|
  {
    if s == [] {
      assert s + t == t;
    } else if !st.quoted && pretty && s[0] == '\n' {
      var n := 1 + Blanks(s[1..]);
      BreakRead(s, st);
      LaidAppend(s[n..], t, Read(st, '\n'), pretty);
      BreakAppend(s, t, st);
    } else if !st.quoted && pretty && s[0] == ':' {
      ColonRead(s, st);
      LaidAppend(s[2..], t, st, pretty);
      assert (s + t)[2..] == s[2..] + t;
    } else {
      LaidAppend(s[1..], t, Read(st, s[0]), pretty);
      assert (s + t)[1..] == s[1..] + t;
    }
  }

  lemma ColonRead(s: string, st: Lex)
    requires |s| > 1 && s[0] == ':' && s[1] == ' ' && !st.quoted
    ensures ReadAll(st, s) == ReadAll(st, s[2..])
  {
    assert ReadAll(st, s) == ReadAll(st, s[1..]);
    assert s[1..][1..] == s[2..];
  }

  lemma BreakRead(s: string, st: Lex)
    requires s != [] && s[0] == '\n' && !st.quoted
    ensures ReadAll(st, s) == ReadAll(Read(st, '\n'), s[1 + Blanks(s[1..])..])
  {
    var n := Blanks(s[1..]);
    ReadBlanks(Read(st, '\n'), s[1..], n);
    assert s[1..][n..] == s[1 + n..];
  }

  lemma BreakAppend(s: string, t: string, st: Lex)
    requires s != [] && s[0] == '\n' && !st.quoted && Laid(s, st, true)
    requires Laid(s[1 + Blanks(s[1..])..] + t, Read(st, '\n'), true)
    ensures Laid(s + t, st, true)
  {
    var n := 1 + Blanks(s[1..]);
    assert (s + t)[1..] == s[1..] + t;
    BlanksAppend(s[1..], t);
    assert (s + t)[n..] == s[n..] + t;
  }

  lemma GoesThen(s: string, t: string, st: Lex, mid: Lex, end: Lex, pretty: bool)
    requires Goes(s, st, mid, pretty) && Goes(t, mid, end, pretty)
    ensures Goes(s + t, st, end, pretty)
  {
    LaidAppend(s, t, st, pretty);
    ReadAppend(st, s, t);
  }

  // ---------------------------------------------------------------- pieces

  lemma GoesOne(c: char, st: Lex, pretty: bool)
    requires !st.quoted && !st.escaped && !IsSpace(c) && c != ':'
    ensures Goes([c], st, Read(st, c), pretty)
  {
    assert [c][1..] == [];
  }

  lemma {:induction false} EscapeGoes(s: string, st: Lex, pretty: bool)
    requires st.quoted && !st.escaped
    ensures Goes(Escape(s), st, st, pretty)
    decreases |s|
  {
    if s != [] {
      EscapeGoes(s[1..], st, pretty);
      CharGoes(s[0], st, pretty);
      GoesThen(EscapeChar(s[0]), Escape(s[1..]), st, st, st, pretty);
    }
  }

  lemma CharGoes(c: char, st: Lex, pretty: bool)
    requires st.quoted && !st.escaped
    ensures Goes(EscapeChar(c), st, st, pretty)
  {
    var e := EscapeChar(c);
    if |e| == 2 {
      PairGoes(e[0], e[1], st, pretty);
      assert e == [e[0], e[1]];
    } else {
      assert e == [c] && e[1..] == [];
    }
  }

  lemma PairGoes(a: char, b: char, st: Lex, pretty: bool)
    requires st.quoted && !st.escaped && a == '\\' && !IsSpace(b)
    ensures Goes([a, b], st, st, pretty)
  {
    assert [a, b][1..] == [b] && [b][1..] == [];
    assert ReadAll(st, [a, b]) == ReadAll(Read(st, a), [b]) == ReadAll(Read(Read(st, a), b), []);
  }

  lemma QuoteGoes(s: string, st: Lex, pretty: bool)
    requires !st.quoted && !st.escaped
    ensures Goes(Quote(s), st, st, pretty)
  {
    var inside := st.(quoted := true);
    GoesOne('"', st, pretty);
    EscapeGoes(CStr(s), inside, pretty);
    GoesThen(['"'], Escape(CStr(s)), st, inside, inside, pretty);
    assert ['"'][1..] == [] && Goes(['"'], inside, st, pretty);
    GoesThen(['"'] + Escape(CStr(s)), ['"'], st, inside, st, pretty);
  }

  lemma {:induction false} WordGoes(s: string, st: Lex, pretty: bool)
    requires !st.quoted && !st.escaped && forall i :: 0 <= i < |s| ==> IsWord(s[i])
    ensures Goes(s, st, st, pretty)
  {
    if s != [] {
      WordGoes(s[1..], st, pretty);
    }
  }

  lemma {:induction false} SpacesBlank(n: nat)
    ensures |Spaces(n)| == 4 * n && forall i :: 0 <= i < 4 * n ==> Spaces(n)[i] == ' '
  {
    if n > 0 {
      SpacesBlank(n - 1);
    }
  }

  lemma {:induction false} BlanksCount(s: string, n: nat)
    requires n < |s| && (forall i :: 0 <= i < n ==> s[i] == ' ') && s[n] != ' '
    ensures Blanks(s) == n
  {
    if n > 0 {
      BlanksCount(s[1..], n - 1);
    }
  }

  /** A line break in front of a name or a closing bracket. */
  lemma EolGoes(pretty: bool, depth: nat, rest: string, st: Lex, end: Lex)
    requires !st.quoted && !st.escaped && rest != [] && (rest[0] == '"' || Closes(rest[0]))
    requires 4 * depth == Indentation(st, rest[0])
    requires Goes(rest, if pretty then Read(st, '\n') else st, end, pretty)
    ensures Goes(Eol(pretty, depth) + rest, st, end, pretty)
  {
    if pretty {
      BreakGoes(depth, rest, st, end);
      assert Eol(pretty, depth) + rest == ['\n'] + (Spaces(depth) + rest);
    } else {
      assert Eol(pretty, depth) + rest == rest;
    }
  }

  lemma BreakGoes(depth: nat, rest: string, st: Lex, end: Lex)
    requires !st.quoted && !st.escaped && rest != [] && (rest[0] == '"' || Closes(rest[0]))
    requires 4 * depth == Indentation(st, rest[0]) && Goes(rest, Read(st, '\n'), end, true)
    ensures Goes(['\n'] + (Spaces(depth) + rest), st, end, true)
  {
    var blanks := Spaces(depth) + rest;
    var s := ['\n'] + blanks;
    assert s[1..] == blanks;
    BreakBlanks(depth, rest);
    assert s[1 + 4 * depth..] == blanks[4 * depth..];
    BreakRead(s, st);
    BreakLaid(s, st, 4 * depth, rest);
  }

  lemma BreakLaid(s: string, st: Lex, n: nat, rest: string)
    requires s != [] && s[0] == '\n' && !st.quoted && Blanks(s[1..]) == n && 1 + n < |s| && s[1 + n..] == rest
    requires (rest[0] == '"' || Closes(rest[0])) && n == Indentation(st, rest[0]) && Laid(rest, Read(st, '\n'), true)
    ensures Laid(s, st, true)
  {
    assert s[1 + n] == rest[0];
  }

  lemma BreakBlanks(depth: nat, rest: string)
    requires rest != [] && rest[0] != ' '
    ensures Blanks(Spaces(depth) + rest) == 4 * depth && (Spaces(depth) + rest)[4 * depth..] == rest
  {
    SpacesBlank(depth);
    var blanks := Spaces(depth) + rest;
    assert blanks[4 * depth] == rest[0];
    BlanksCount(blanks, 4 * depth);
  }

  lemma ColonGoes(st: Lex, pretty: bool)
    requires !st.quoted && !st.escaped
    ensures Goes(Colon(pretty), st, st, pretty)
  {
    var s := Colon(pretty);
    if pretty {
      assert s[2..] == [] && s[1..] == [' '] && s[1..][1..] == [];
      assert ReadAll(st, s) == ReadAll(st, s[1..]) == ReadAll(st, s[1..][1..]);
    } else {
      assert s[1..] == [];
    }
  }

  // ---------------------------------------------------------------- values

  /** How many lines a pretty text of the value ends: one in front of each name and of each closing bracket. */
  function Breaks(v: Json): nat
    decreases v, 1, 0
  {
    match v
    case Literal(_) => 0
    case Str(_) => 0
    case Arr(elems) => if elems == [] then 0 else ElemBreaks(v, 0) + 1
    case Obj(members) => if members == [] then 0 else MemberBreaks(v, 0) + 1
  }

  function ElemBreaks(v: Json, i: nat): nat
    requires v.Arr? && i < |v.elems|
    decreases v, 0, |v.elems| - i
  {
    Breaks(v.elems[i]) + if i + 1 == |v.elems| then 0 else ElemBreaks(v, i + 1)
  }

  function MemberBreaks(v: Json, i: nat): nat
    requires v.Obj? && i < |v.members|
    decreases v, 0, |v.members| - i
  {
    1 + Breaks(v.members[i].1) + if i + 1 == |v.members| then 0 else MemberBreaks(v, i + 1)
  }

  function Ended(st: Lex, pretty: bool, lines: nat): Lex { if pretty then st.(lines := st.lines + lines) else st }

  /** The text of a value is laid out at its depth, closes what it opens, and breaks lines as often as it should. */
  lemma {:induction false} PrintGoes(v: Json, pretty: bool, depth: nat, st: Lex)
    requires WellFormed(v) && !st.quoted && !st.escaped && st.level == depth
    ensures Goes(Print(v, pretty, depth), st, Ended(st, pretty, Breaks(v)), pretty)
    decreases v, 1, 0
  {
    match v
    case Literal(text) => WordGoes(text, st, pretty);
    case Str(str) => QuoteGoes(str, st, pretty);
    case Arr(elems) =>
      var open := st.(level := depth + 1);
      if elems == [] {
        EmptyGoes('[', ']', st, open, pretty);
      } else {
        ElemsGo(v, 0, pretty, depth + 1, open);
        ContainerGoes('[', PrintElems(v, 0, pretty, depth + 1), ']', pretty, depth, st, open, ElemBreaks(v, 0));
      }
    case Obj(members) =>
      var open := st.(level := depth + 1);
      if members == [] {
        EmptyGoes('{', '}', st, open, pretty);
      } else {
        MembersGo(v, 0, pretty, depth + 1, open);
        ContainerGoes('{', PrintMembers(v, 0, pretty, depth + 1), '}', pretty, depth, st, open, MemberBreaks(v, 0));
      }
  }

  lemma EmptyGoes(c: char, d: char, st: Lex, open: Lex, pretty: bool)
    requires (c == '[' && d == ']') || (c == '{' && d == '}')
    requires !st.quoted && !st.escaped && open == st.(level := st.level + 1)
    ensures Goes([c, d], st, st, pretty)
  {
    GoesOne(c, st, pretty);
    GoesOne(d, open, pretty);
    GoesThen([c], [d], st, open, st, pretty);
    assert [c] + [d] == [c, d];
  }

  lemma ContainerGoes(c: char, body: string, d: char, pretty: bool, depth: nat, st: Lex, open: Lex, lines: nat)
    requires (c == '[' && d == ']') || (c == '{' && d == '}')
    requires !st.quoted && !st.escaped && st.level == depth && open == st.(level := depth + 1)
    requires Goes(body, open, Ended(open, pretty, lines), pretty)
    ensures Goes([c] + body + (Eol(pretty, depth) + [d]), st, Ended(st, pretty, lines + 1), pretty)
  {
    var full := Ended(open, pretty, lines);
    var broken := if pretty then Read(full, '\n') else full;
    GoesOne(c, st, pretty);
    GoesThen([c], body, st, open, full, pretty);
    GoesOne(d, broken, pretty);
    EolGoes(pretty, depth, [d], full, Read(broken, d));
    GoesThen([c] + body, Eol(pretty, depth) + [d], st, full, Read(broken, d), pretty);
  }

  lemma {:induction false} ElemsGo(v: Json, i: nat, pretty: bool, depth: nat, st: Lex)
    requires v.Arr? && i < |v.elems| && WellFormed(v) && !st.quoted && !st.escaped && st.level == depth
    ensures Goes(PrintElems(v, i, pretty, depth), st, Ended(st, pretty, ElemBreaks(v, i)), pretty)
    decreases v, 0, |v.elems| - i
  {
    var mid := Ended(st, pretty, Breaks(v.elems[i]));
    PrintGoes(v.elems[i], pretty, depth, st);
    if i + 1 < |v.elems| {
      ElemsGo(v, i + 1, pretty, depth, mid);
      CommaGoes(PrintElems(v, i + 1, pretty, depth), mid, Ended(mid, pretty, ElemBreaks(v, i + 1)), pretty);
      GoesThen(Print(v.elems[i], pretty, depth), "," + PrintElems(v, i + 1, pretty, depth), st, mid,
          Ended(mid, pretty, ElemBreaks(v, i + 1)), pretty);
    } else {
      assert Print(v.elems[i], pretty, depth) + [] == Print(v.elems[i], pretty, depth);
    }
  }

  lemma CommaGoes(more: string, st: Lex, end: Lex, pretty: bool)
    requires !st.quoted && !st.escaped && Goes(more, st, end, pretty)
    ensures Goes("," + more, st, end, pretty)
  {
    GoesOne(',', st, pretty);
    GoesThen([','], more, st, st, end, pretty);
  }

  /** A name, its colon and its value, on a line of their own. */
  lemma MemberGoes(name: string, value: string, pretty: bool, depth: nat, st: Lex, end: Lex)
    requires !st.quoted && !st.escaped && st.level == depth
    requires Goes(value, if pretty then Read(st, '\n') else st, end, pretty)
    ensures Goes(Eol(pretty, depth) + Quote(name) + Colon(pretty) + value, st, end, pretty)
  {
    var broken := if pretty then Read(st, '\n') else st;
    QuoteGoes(name, broken, pretty);
    ColonGoes(broken, pretty);
    GoesThen(Quote(name), Colon(pretty), broken, broken, broken, pretty);
    GoesThen(Quote(name) + Colon(pretty), value, broken, broken, end, pretty);
    EolGoes(pretty, depth, Quote(name) + Colon(pretty) + value, st, end);
    assert Eol(pretty, depth) + (Quote(name) + Colon(pretty) + value) ==
      Eol(pretty, depth) + Quote(name) + Colon(pretty) + value;
  }

  lemma {:induction false} MembersGo(v: Json, i: nat, pretty: bool, depth: nat, st: Lex)
    requires v.Obj? && i < |v.members| && WellFormed(v) && !st.quoted && !st.escaped && st.level == depth
    ensures Goes(PrintMembers(v, i, pretty, depth), st, Ended(st, pretty, MemberBreaks(v, i)), pretty)
    decreases v, 0, |v.members| - i
  {
    var (name, value) := v.members[i];
    var broken := if pretty then Read(st, '\n') else st;
    var mid := Ended(broken, pretty, Breaks(value));
    PrintGoes(value, pretty, depth, broken);
    MemberGoes(name, Print(value, pretty, depth), pretty, depth, st, mid);
    var text := Eol(pretty, depth) + Quote(name) + Colon(pretty) + Print(value, pretty, depth);
    if i + 1 < |v.members| {
      MembersGo(v, i + 1, pretty, depth, mid);
      CommaGoes(PrintMembers(v, i + 1, pretty, depth), mid, Ended(mid, pretty, MemberBreaks(v, i + 1)), pretty);
      GoesThen(text, "," + PrintMembers(v, i + 1, pretty, depth), st, mid,
          Ended(mid, pretty, MemberBreaks(v, i + 1)), pretty);
    } else {
      assert text + [] == text;
    }
  }

  // ---------------------------------------------------------------- what this means

  /** The indentation of a compact text does not matter. */
  lemma {:induction false} CompactDepth(v: Json, d: nat, d': nat)
    ensures Print(v, false, d) == Print(v, false, d')
    decreases v, 1, 0
  {
    match v
    case Literal(_) =>
    case Str(_) =>
    case Arr(elems) =>
      if elems != [] {
        CompactElems(v, 0, d + 1, d' + 1);
      }
    case Obj(members) =>
      if members != [] {
        CompactMembers(v, 0, d + 1, d' + 1);
      }
  }

  lemma {:induction false} CompactElems(v: Json, i: nat, d: nat, d': nat)
    requires v.Arr? && i < |v.elems|
    ensures PrintElems(v, i, false, d) == PrintElems(v, i, false, d')
    decreases v, 0, |v.elems| - i
  {
    CompactDepth(v.elems[i], d, d');
    if i + 1 < |v.elems| {
      CompactElems(v, i + 1, d, d');
    }
  }

  lemma {:induction false} CompactMembers(v: Json, i: nat, d: nat, d': nat)
    requires v.Obj? && i < |v.members|
    ensures PrintMembers(v, i, false, d) == PrintMembers(v, i, false, d')
    decreases v, 0, |v.members| - i
  {
    CompactDepth(v.members[i].1, d, d');
    if i + 1 < |v.members| {
      CompactMembers(v, i + 1, d, d');
    }
  }

  /** Position `i` of a text is inside a string. */
  predicate InString(st: Lex, s: string, i: nat)
    requires i <= |s|
  {
    ReadAll(st, s[..i]).quoted
  }

  lemma ReadFirst(st: Lex, s: string, i: nat)
    requires 0 < i <= |s|
    ensures ReadAll(st, s[..i]) == ReadAll(Read(st, s[0]), s[1..][..i - 1])
  {
    assert s[..i][1..] == s[1..][..i - 1];
  }

  /** White space in a compact text: only blanks, and only inside strings. */
  lemma {:induction false} CompactMeans(s: string, st: Lex, i: nat)
    requires Laid(s, st, false) && i < |s| && IsSpace(s[i])
    ensures s[i] == ' ' && InString(st, s, i)
    decreases i
  {
    if i > 0 {
      CompactMeans(s[1..], Read(st, s[0]), i - 1);
      ReadFirst(st, s, i);
    }
  }

  /** A text written by a compact writer has no line break, and blanks only inside strings. */
  lemma CompactText(v: Json, depth: nat, i: nat)
    requires WellFormed(v) && i < |Print(v, false, depth)|
    ensures var s := Print(v, false, depth);
      && s[i] != '\n' && (IsSpace(s[i]) ==> s[i] == ' ' && InString(Lex(false, false, depth, 0), s, i))
      && forall d :: Print(v, false, d) == s
  {
    var s := Print(v, false, depth);
    PrintGoes(v, false, depth, Lex(false, false, depth, 0));
    if IsSpace(s[i]) {
      CompactMeans(s, Lex(false, false, depth, 0), i);
    }
    forall d ensures Print(v, false, d) == s {
      CompactDepth(v, d, depth);
    }
  }

  /**
   * White space in a pretty text outside strings is a blank behind a colon or in an indentation, or a line break. A
   * line break is followed by four blanks for each open container, and by a name or a closing bracket.
   */
  ghost predicate SpaceRight(s: string, st: Lex, i: nat)
    requires i < |s|
  {
    && (s[i] == '\n' ==>
          var n := i + 1 + Blanks(s[i + 1..]);
          && !InString(st, s, i) && n < |s| && (s[n] == '"' || Closes(s[n]))
          && n - (i + 1) == Indentation(ReadAll(st, s[..i]), s[n]))
    && (IsSpace(s[i]) ==> s[i] == ' ' || s[i] == '\n')
    && (s[i] == ' ' ==> InString(st, s, i) || (i > 0 && s[i - 1] == ':') || Indents(s, i))
  }

  /** Only blanks are between a line break and position `i`. */
  ghost predicate Indents(s: string, i: nat)
    requires i < |s|
  {
    exists j :: 0 <= j < i && s[j] == '\n' && forall k :: j < k < i ==> s[k] == ' '
  }

  lemma ReadRun(s: string, st: Lex, n: nat)
    requires 0 < n <= |s| && !Read(st, s[0]).quoted && forall k :: 0 < k < n ==> s[k] == ' '
    ensures ReadAll(st, s[..n]) == Read(st, s[0])
  {
    ReadFirst(st, s, n);
    ReadBlanks(Read(st, s[0]), s[1..][..n - 1], n - 1);
    assert s[1..][..n - 1][n - 1..] == [];
  }

  lemma IndentsBehind(s: string, n: nat, i: nat)
    requires n <= i < |s| && Indents(s[n..], i - n)
    ensures Indents(s, i)
  {
    var j :| 0 <= j < i - n && s[n..][j] == '\n' && forall k :: j < k < i - n ==> s[n..][k] == ' ';
    assert s[j + n] == '\n' && forall k :: j + n < k < i ==> s[k] == s[n..][k - n];
  }

  lemma {:induction false} PrettyMeans(s: string, st: Lex, i: nat)
    requires Laid(s, st, true) && i < |s|
    ensures SpaceRight(s, st, i)
    decreases i
  {
    if i > 0 {
      if !st.quoted && s[0] == '\n' {
        var n := 1 + Blanks(s[1..]);
        ReadRun(s, st, n);
        assert i < n ==> Indents(s, i);
        PrettyMeansBehind(s, st, Read(st, '\n'), n, i);
      } else if !st.quoted && s[0] == ':' {
        ReadRun(s, st, 2);
        PrettyMeansBehind(s, st, st, 2, i);
      } else {
        PrettyMeansBehind(s, st, Read(st, s[0]), 1, i);
      }
    }
  }

  lemma {:induction false} PrettyMeansBehind(s: string, st: Lex, next: Lex, n: nat, i: nat)
    requires 0 < n <= |s| && 0 < i < |s| && Laid(s[n..], next, true) && ReadAll(st, s[..n]) == next
    requires forall k :: 0 < k < n ==> s[k] == ' '
    requires i < n ==> s[i - 1] == ':' || Indents(s, i)
    ensures SpaceRight(s, st, i)
    decreases i, 0
  {
    if i >= n {
      PrettyMeans(s[n..], next, i - n);
      assert s[n..][i - n] == s[i] && s[n..][i - n + 1..] == s[i + 1..];
      assert s[..i] == s[..n] + s[n..][..i - n];
      ReadAppend(st, s[..n], s[n..][..i - n]);
      if Indents(s[n..], i - n) {
        IndentsBehind(s, n, i);
      }
    }
  }

  /** The text of a value, on its own lines when pretty. */
  lemma PrettyText(v: Json, depth: nat, i: nat)
    requires WellFormed(v) && i < |Print(v, true, depth)|
    ensures SpaceRight(Print(v, true, depth), Lex(false, false, depth, 0), i)
    ensures ReadAll(Lex(false, false, depth, 0), Print(v, true, depth)) == Lex(false, false, depth, Breaks(v))
  {
    PrintGoes(v, true, depth, Lex(false, false, depth, 0));
    PrettyMeans(Print(v, true, depth), Lex(false, false, depth, 0), i);
  }

  // ---------------------------------------------------------------- any calls

  /** Calls that a compact writer is made of: literals are literals, and it is not told to be pretty. */
  predicate CompactCall(call: Call) {
    match call
    case Printf(text) => IsLiteral(text)
    case Pretty(on) => !on
    case _ => true
  }

  lemma CallGoes(st: State, call: Call, start: Lex, lex: Lex) returns (lex': Lex)
    requires call.EndObject? || call.EndArray? ==> st.depth > 0
    requires !st.pretty && (st.sep == ',' || st.sep == NO_SEP) && CompactCall(call)
    requires !lex.quoted && !lex.escaped && Goes(st.out, start, lex, false)
    ensures var st' := Exec(st, call);
      && !st'.pretty && (st'.sep == ',' || st'.sep == NO_SEP)
      && !lex'.quoted && !lex'.escaped && Goes(st'.out, start, lex', false)
  {
    var sep := Sep(st);
    if sep != [] {
      GoesOne(',', lex, false);
    }
    GoesThen(st.out, sep, start, lex, lex, false);
    assert st.out + sep + [] == st.out + sep && st.out + [] == st.out;
    lex' := lex;
    match call
    case Pretty(_) =>
    case StartObject => lex' := OneMore(st.out + sep, '{', start, lex);
    case StartArray => lex' := OneMore(st.out + sep, '[', start, lex);
    case EndObject => lex' := OneMore(st.out, '}', start, lex);
    case EndArray => lex' := OneMore(st.out, ']', start, lex);
    case Name(name) =>
      QuoteGoes(name, lex, false);
      ColonGoes(lex, false);
      GoesThen(st.out + sep, Quote(name), start, lex, lex, false);
      GoesThen(st.out + sep + Quote(name), Colon(false), start, lex, lex, false);
    case String(value) =>
      QuoteGoes(value, lex, false);
      GoesThen(st.out + sep, Quote(value), start, lex, lex, false);
    case Printf(text) =>
      WordGoes(text, lex, false);
      GoesThen(st.out + sep, text, start, lex, lex, false);
  }

  lemma OneMore(s: string, c: char, start: Lex, lex: Lex) returns (lex': Lex)
    requires !lex.quoted && !lex.escaped && Goes(s, start, lex, false) && c in "[]{}"
    ensures !lex'.quoted && !lex'.escaped && Goes(s + [c], start, lex', false)
  {
    lex' := Read(lex, c);
    GoesOne(c, lex, false);
    GoesThen(s, [c], start, lex, lex', false);
  }

  /** Whatever calls a compact writer gets, well-nested or cut short: no line breaks, and blanks only inside strings. */
  lemma {:induction false} AnyCompactCalls(st: State, calls: seq<Call>, start: Lex, lex: Lex)
    requires Allowed(calls, st.depth) && forall i :: 0 <= i < |calls| ==> CompactCall(calls[i])
    requires !st.pretty && (st.sep == ',' || st.sep == NO_SEP)
    requires !lex.quoted && !lex.escaped && Goes(st.out, start, lex, false)
    ensures Laid(ExecAll(st, calls).out, start, false)
    decreases |calls|
  {
    if calls != [] {
      var lex' := CallGoes(st, calls[0], start, lex);
      AnyCompactCalls(Exec(st, calls[0]), calls[1..], start, lex');
    }
  }

  lemma NewCompactWriter(calls: seq<Call>, i: nat)
    requires Allowed(calls, 0) && forall k :: 0 <= k < |calls| ==> CompactCall(calls[k])
    requires i < |ExecAll(State("", 0, false, NO_SEP), calls).out|
    ensures var s := ExecAll(State("", 0, false, NO_SEP), calls).out;
      s[i] != '\n' && (IsSpace(s[i]) ==> s[i] == ' ' && InString(Lex(false, false, 0, 0), s, i))
  {
    var start := Lex(false, false, 0, 0);
    AnyCompactCalls(State("", 0, false, NO_SEP), calls, start, start);
    var s := ExecAll(State("", 0, false, NO_SEP), calls).out;
    if IsSpace(s[i]) {
      CompactMeans(s, start, i);
    }
  }
}
