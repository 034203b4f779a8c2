/** The streaming JSON writer, the calls that make up a document, and what they write. */
module JsonWriter {
  import opened JsonText
  import opened Options

  const NO_SEP := '\0'

  datatype State = State(out: string, depth: nat, pretty: bool, sep: char)

  datatype Call =
    | Pretty(on: bool)
    | StartObject | EndObject | StartArray | EndArray
    | Name(name: string)
    | String(value: string)
    | Printf(text: string)  // numbers, true, false, null: text that is already formatted

  /** What each call does; `End` calls are for a depth above 0. */
  function Exec(st: State, call: Call): State
    requires call.EndObject? || call.EndArray? ==> st.depth > 0
  {
    match call
    case Pretty(on) => st.(pretty := on)
    case StartObject => Begin(st, '{')
    case StartArray => Begin(st, '[')
    case EndObject => End(st, '}')
    case EndArray => End(st, ']')
    case Name(name) =>
      st.(out := st.out + Sep(st) + Eol(st.pretty, st.depth) + Quote(name) + Colon(st.pretty), sep := NO_SEP)
    case String(value) => st.(out := st.out + Sep(st) + Quote(value), sep := ',')
    case Printf(text) => st.(out := st.out + Sep(st) + text, sep := ',')
  }

  function Sep(st: State): string { if st.sep == NO_SEP then [] else [st.sep] }

  function Begin(st: State, c: char): State {
    st.(out := st.out + Sep(st) + [c], depth := st.depth + 1, sep := NO_SEP)
  }

  function End(st: State, c: char): State
    requires st.depth > 0
  {
    st.(out := st.out + (if st.sep != NO_SEP then Eol(st.pretty, st.depth - 1) else []) + [c],
        depth := st.depth - 1, sep := ',')
  }

  // ---------------------------------------------------------------- the writer object

  class Writer {
    var out: string
    var depth: nat
    var pretty: bool
    var sep: char

    function View(): State
      reads this
    {
      State(out, depth, pretty, sep)
    }

    constructor ()
      ensures View() == State("", 0, false, NO_SEP)
    {
      out, depth, pretty, sep := "", 0, false, NO_SEP;
    }

    method SetPretty(on: bool)
      modifies this`pretty
      ensures View() == Exec(old(View()), Pretty(on))
    {
      pretty := on;
    }

    method Indent()
      modifies this`out
      ensures out == old(out) + Spaces(depth)
    {
      var i := 0;
      while i < depth
        invariant 0 <= i <= depth
        invariant out == old(out) + Spaces(i)
      {
        SpacesSnoc(i);
        out := out + "    ";
        i := i + 1;
      }
    }

    method WriteEol()
      modifies this`out
      ensures out == old(out) + Eol(pretty, depth)
    {
      if !pretty {
        return;
      }
      out := out + "\n";
      Indent();
    }

    method WriteEor()
      modifies this`out, this`sep
      ensures out == old(out) + Sep(old(View())) && sep == ','
    {
      if sep != NO_SEP {
        out := out + [sep];
      }
      sep := ',';
    }

    method PutChar(c: char)
      modifies this`out
      ensures out == old(out) + EscapeChar(c)
    {
      if c == '\t' {
        out := out + "\\t";
      } else if c == '\n' {
        out := out + "\\n";
      } else if c == '\r' {
        out := out + "\\r";
      } else if c == FF {
        out := out + "\\f";
      } else if c == BS {
        out := out + "\\b";
      } else if c == '\\' {
        out := out + "\\\\";
      } else if c == '"' {
        out := out + "\\\"";
      } else {
        out := out + [c];
      }
    }

    method Puts(str: string)
      modifies this`out
      ensures out == old(out) + Quote(str)
    {
      out := out + "\"";
      var i := 0;
      while i < |str| && str[i] != '\0'
        invariant 0 <= i <= |str|
        invariant old(out) + Quote(str) == out + (Escape(CStr(str[i..])) + "\"")
      {
        EscapeOne(out, str, i);
        PutChar(str[i]);
        i := i + 1;
      }
      assert CStr(str[i..]) == [];
      out := out + "\"";
    }

    method WriteBegin(c: char)
      modifies this
      ensures View() == Begin(old(View()), c)
    {
      WriteEor();
      out := out + [c];
      depth := depth + 1;
      sep := NO_SEP;
    }

    method WriteEnd(c: char)
      requires depth > 0
      modifies this
      ensures View() == End(old(View()), c)
    {
      depth := depth - 1;
      if sep != NO_SEP {
        WriteEol();
      }
      out := out + [c];
      sep := ',';
    }

    method WriteName(name: string)
      modifies this
      ensures View() == Exec(old(View()), Name(name))
    {
      WriteEor();
      WriteEol();
      sep := NO_SEP;
      Puts(name);
      out := out + ":";
      if pretty {
        out := out + " ";
      }
    }

    method WriteString(value: string)
      modifies this
      ensures View() == Exec(old(View()), String(value))
    {
      WriteEor();
      Puts(value);
    }

    method WritePrintf(text: string)
      modifies this
      ensures View() == Exec(old(View()), Printf(text))
    {
      WriteEor();
      out := out + text;
    }

    /** The public calls, one by one. */
    method Do(call: Call)
      requires call.EndObject? || call.EndArray? ==> depth > 0
      modifies this
      ensures View() == Exec(old(View()), call)
    {
      match call {
        case Pretty(on) => SetPretty(on);
        case StartObject => WriteBegin('{');
        case EndObject => WriteEnd('}');
        case StartArray => WriteBegin('[');
        case EndArray => WriteEnd(']');
        case Name(name) => WriteName(name);
        case String(value) => WriteString(value);
        case Printf(text) => WritePrintf(text);
      }
    }
  }

  lemma EscapeOne(out: string, str: string, i: nat)
    requires i < |str| && str[i] != '\0'
    ensures out + (Escape(CStr(str[i..])) + "\"") == (out + EscapeChar(str[i])) + (Escape(CStr(str[i + 1..])) + "\"")
  {
    assert str[i..][1..] == str[i + 1..];
    var rest := CStr(str[i + 1..]);
    assert CStr(str[i..]) == [str[i]] + rest;
    assert ([str[i]] + rest)[1..] == rest;
    assert Escape(CStr(str[i..])) == EscapeChar(str[i]) + Escape(rest);
    Assoc3(out, EscapeChar(str[i]), Escape(rest), "\"");
  }

  lemma Assoc3(a: string, b: string, c: string, d: string)
    ensures a + ((b + c) + d) == (a + b) + (c + d)
  {
  }

  lemma {:induction false} SpacesSnoc(n: nat)
    ensures Spaces(n + 1) == Spaces(n) + "    "
  {
    if n > 0 {
      SpacesSnoc(n - 1);
    }
  }

  // ---------------------------------------------------------------- documents

  /** The calls a client makes to write a value. */
  function Calls(v: Json): seq<Call>
    decreases v, 1, 0
  {
    match v
    case Literal(text) => [Printf(text)]
    case Str(str) => [String(str)]
    case Arr(elems) => [StartArray] + ElemCalls(v, 0) + [EndArray]
    case Obj(members) => [StartObject] + MemberCalls(v, 0) + [EndObject]
  }

  function ElemCalls(v: Json, i: nat): seq<Call>
    requires v.Arr? && i <= |v.elems|
    decreases v, 0, |v.elems| - i
  {
    if i == |v.elems| then [] else Calls(v.elems[i]) + ElemCalls(v, i + 1)
  }

  function MemberCalls(v: Json, i: nat): seq<Call>
    requires v.Obj? && i <= |v.members|
    decreases v, 0, |v.members| - i
  {
    if i == |v.members| then []
    else [Name(v.members[i].0)] + Calls(v.members[i].1) + MemberCalls(v, i + 1)
  }

  /** The calls can be made: none of them ends a container that is not open. */
  predicate Allowed(calls: seq<Call>, depth: nat) {
    calls == [] ||
    match calls[0]
    case StartObject => Allowed(calls[1..], depth + 1)
    case StartArray => Allowed(calls[1..], depth + 1)
    case EndObject => depth > 0 && Allowed(calls[1..], depth - 1)
    case EndArray => depth > 0 && Allowed(calls[1..], depth - 1)
    case _ => Allowed(calls[1..], depth)
  }

  function ExecAll(st: State, calls: seq<Call>): State
    requires Allowed(calls, st.depth)
    decreases |calls|
  {
    if calls == [] then st else ExecAll(Exec(st, calls[0]), calls[1..])
  }

  /** The calls take the state from `st` to `end`, whatever calls follow. */
  ghost predicate Leads(st: State, calls: seq<Call>, end: State) {
    forall more {:trigger calls + more} :: Allowed(more, end.depth) ==>
      Allowed(calls + more, st.depth) && ExecAll(st, calls + more) == ExecAll(end, more)
  }

  lemma LeadsOne(st: State, call: Call)
    requires call.EndObject? || call.EndArray? ==> st.depth > 0
    ensures Leads(st, [call], Exec(st, call))
  {
    forall more | Allowed(more, Exec(st, call).depth)
      ensures Allowed([call] + more, st.depth) && ExecAll(st, [call] + more) == ExecAll(Exec(st, call), more)
    {
      assert ([call] + more)[1..] == more;
    }
  }

  lemma LeadsThen(st: State, a: seq<Call>, mid: State, b: seq<Call>, end: State)
    requires Leads(st, a, mid) && Leads(mid, b, end)
    ensures Leads(st, a + b, end)
  {
    forall more | Allowed(more, end.depth)
      ensures Allowed(a + b + more, st.depth) && ExecAll(st, a + b + more) == ExecAll(end, more)
    {
      assert a + b + more == a + (b + more);
      assert Allowed(b + more, mid.depth);
    }
  }

  lemma LeadsNothing(st: State)
    ensures Leads(st, [], st)
  {
    forall more | Allowed(more, st.depth)
      ensures Allowed([] + more, st.depth) && ExecAll(st, [] + more) == ExecAll(st, more)
    {
      assert [] + more == more;
    }
  }

  /** The state behind a value: its text is out, and a comma is due. */
  function Written(st: State, v: Json): State {
    st.(out := st.out + Sep(st) + Print(v, st.pretty, st.depth), sep := ',')
  }

  lemma {:induction false} ValueWritten(st: State, v: Json)
    ensures Leads(st, Calls(v), Written(st, v))
    decreases v, 1, 0
  {
    match v
    case Literal(text) => LeadsOne(st, Printf(text));
    case Str(str) => LeadsOne(st, String(str));
    case Arr(elems) =>
      if elems == [] {
        ContainerWritten(st, StartArray, '[', [], [], true, EndArray, ']');
        assert ['['] + [] + ([] + [']']) == "[]";
      } else {
        ElemsWritten(Begin(st, '['), v, 0);
        ContainerWritten(st, StartArray, '[', ElemCalls(v, 0), PrintElems(v, 0, st.pretty, st.depth + 1), false,
            EndArray, ']');
      }
    case Obj(members) =>
      if members == [] {
        ContainerWritten(st, StartObject, '{', [], [], true, EndObject, '}');
        assert ['{'] + [] + ([] + ['}']) == "{}";
      } else {
        MembersWritten(Begin(st, '{'), v, 0);
        ContainerWritten(st, StartObject, '{', MemberCalls(v, 0), PrintMembers(v, 0, st.pretty, st.depth + 1), false,
            EndObject, '}');
      }
  }

  lemma Regroup(out: string, sep: string, open: string, body: string, eol: string, close: string)
    ensures ((out + sep + open) + [] + body) + eol + close == out + sep + (open + body + (eol + close))
  {
  }

  /** A container: its opening call, what fills it, its closing call. */
  lemma ContainerWritten(st: State, start: Call, c: char, fill: seq<Call>, body: string, empty: bool, stop: Call,
      d: char)
    requires start == StartArray || start == StartObject
    requires c == (if start == StartArray then '[' else '{')
    requires stop == (if start == StartArray then EndArray else EndObject)
    requires d == (if start == StartArray then ']' else '}')
    requires empty ==> fill == [] && body == []
    requires !empty ==>
      var open := Begin(st, c); Leads(open, fill, open.(out := open.out + Sep(open) + body, sep := ','))
    ensures Leads(st, [start] + fill + [stop],
      st.(out := st.out + Sep(st) + ([c] + body + ((if empty then [] else Eol(st.pretty, st.depth)) + [d])),
          sep := ','))
  {
    var open := Begin(st, c);
    var filled := if empty then open else open.(out := open.out + Sep(open) + body, sep := ',');
    LeadsOne(st, start);
    if empty {
      LeadsNothing(open);
    }
    LeadsThen(st, [start], open, fill, filled);
    LeadsOne(filled, stop);
    LeadsThen(st, [start] + fill, filled, [stop], End(filled, d));
    Regroup(st.out, Sep(st), [c], body, if empty then [] else Eol(st.pretty, st.depth), [d]);
    assert empty ==> open.out + [] + [] == open.out;
  }

  lemma {:induction false} ElemsWritten(st: State, v: Json, i: nat)
    requires v.Arr? && i < |v.elems|
    ensures Leads(st, ElemCalls(v, i), st.(out := st.out + Sep(st) + PrintElems(v, i, st.pretty, st.depth), sep := ','))
    decreases v, 0, |v.elems| - i
  {
    var mid := Written(st, v.elems[i]);
    ValueWritten(st, v.elems[i]);
    if i + 1 == |v.elems| {
      LeadsNothing(mid);
      LeadsThen(st, Calls(v.elems[i]), mid, [], mid);
      assert ElemCalls(v, i) == Calls(v.elems[i]) + [];
      assert mid.out == st.out + Sep(st) + PrintElems(v, i, st.pretty, st.depth);
    } else {
      ElemsWritten(mid, v, i + 1);
      var end := mid.(out := mid.out + Sep(mid) + PrintElems(v, i + 1, st.pretty, st.depth), sep := ',');
      LeadsThen(st, Calls(v.elems[i]), mid, ElemCalls(v, i + 1), end);
      assert end.out == st.out + Sep(st) + PrintElems(v, i, st.pretty, st.depth);
    }
  }

  /** The state behind member `i`. */
  function MemberWritten(st: State, name: string, value: Json): State { Written(Exec(st, Name(name)), value) }

  lemma MemberLeads(st: State, name: string, value: Json)
    requires Leads(Exec(st, Name(name)), Calls(value), MemberWritten(st, name, value))
    ensures Leads(st, [Name(name)] + Calls(value), MemberWritten(st, name, value))
  {
    LeadsOne(st, Name(name));
    LeadsThen(st, [Name(name)], Exec(st, Name(name)), Calls(value), MemberWritten(st, name, value));
  }

  lemma MemberText(st: State, v: Json, i: nat)
    requires v.Obj? && i < |v.members|
    ensures var mid := MemberWritten(st, v.members[i].0, v.members[i].1);
      var end := st.out + Sep(st) + PrintMembers(v, i, st.pretty, st.depth);
      end == if i + 1 == |v.members| then mid.out
             else mid.out + Sep(mid) + PrintMembers(v, i + 1, st.pretty, st.depth)
  {
    var (name, value) := v.members[i];
    RegroupMember(st.out, Sep(st), Eol(st.pretty, st.depth), Quote(name), Colon(st.pretty),
        Print(value, st.pretty, st.depth),
      if i + 1 == |v.members| then [] else PrintMembers(v, i + 1, st.pretty, st.depth));
  }

  lemma RegroupMember(out: string, sep: string, eol: string, name: string, colon: string, value: string, more: string)
    ensures out + sep + (eol + name + colon + value + ("," + more)) ==
      (out + sep + eol + name + colon) + [] + value + "," + more
    ensures out + sep + (eol + name + colon + value + []) == (out + sep + eol + name + colon) + [] + value
  {
  }

  lemma {:induction false} MembersWritten(st: State, v: Json, i: nat)
    requires v.Obj? && i < |v.members|
    ensures Leads(st, MemberCalls(v, i),
      st.(out := st.out + Sep(st) + PrintMembers(v, i, st.pretty, st.depth), sep := ','))
    decreases v, 0, |v.members| - i
  {
    var (name, value) := v.members[i];
    var mid := MemberWritten(st, name, value);
    ValueWritten(Exec(st, Name(name)), value);
    MemberLeads(st, name, value);
    MemberText(st, v, i);
    if i + 1 == |v.members| {
      LeadsNothing(mid);
      LeadsThen(st, [Name(name)] + Calls(value), mid, [], mid);
      assert MemberCalls(v, i) == [Name(name)] + Calls(value) + [];
    } else {
      MembersWritten(mid, v, i + 1);
      var end := mid.(out := mid.out + Sep(mid) + PrintMembers(v, i + 1, st.pretty, st.depth), sep := ',');
      LeadsThen(st, [Name(name)] + Calls(value), mid, MemberCalls(v, i + 1), end);
    }
  }

  /**
   * The calls for a value write its printed form behind a due comma, leave the depth as it was, and
   * leave a comma due.
   */
  lemma DocumentWritten(st: State, v: Json)
    ensures Allowed(Calls(v), st.depth) && ExecAll(st, Calls(v)) == Written(st, v)
  {
    ValueWritten(st, v);
    assert Calls(v) + [] == Calls(v);
  }

  // ---------------------------------------------------------------- when a comma is due

  /** An open container, or the document itself: whether it has content, and whether a name awaits its value. */
  datatype Frame = Frame(filled: bool, named: bool)

  function Track(stack: seq<Frame>, call: Call): seq<Frame>
    requires |stack| > 0 && (call.EndObject? || call.EndArray? ==> |stack| > 1)
  {
    var (below, top) := (stack[..|stack| - 1], stack[|stack| - 1]);
    match call
    case Pretty(_) => stack
    case StartObject => below + [Frame(true, false), Frame(false, false)]
    case StartArray => below + [Frame(true, false), Frame(false, false)]
    case EndObject => below
    case EndArray => below
    case Name(_) => below + [Frame(true, true)]
    case String(_) => below + [Frame(true, false)]
    case Printf(_) => below + [Frame(true, false)]
  }

  /** A comma is due exactly when the innermost container has content and no name awaits its value. */
  ghost predicate InStep(st: State, stack: seq<Frame>) {
    && |stack| == st.depth + 1
    && (st.sep == ',' || st.sep == NO_SEP)
    && (st.sep == ',' <==> stack[st.depth].filled && !stack[st.depth].named)
    && forall i :: 0 <= i < st.depth ==> stack[i].filled && !stack[i].named
  }

  function TrackAll(stack: seq<Frame>, calls: seq<Call>): seq<Frame>
    requires |stack| > 0 && Allowed(calls, |stack| - 1)
    decreases |calls|
  {
    if calls == [] then stack else TrackAll(Track(stack, calls[0]), calls[1..])
  }

  /** Whatever calls are made, well-nested or cut short, `sep` tells whether a comma is due. */
  lemma {:induction false} CommaDue(st: State, stack: seq<Frame>, calls: seq<Call>)
    requires InStep(st, stack) && Allowed(calls, st.depth)
    ensures InStep(ExecAll(st, calls), TrackAll(stack, calls))
    decreases |calls|
  {
    if calls != [] {
      CommaDue(Exec(st, calls[0]), Track(stack, calls[0]), calls[1..]);
    }
  }

  /** A value written by a new writer is the value's printed form, and it parses back when it is clean. */
  lemma NewWriterRoundTrip(v: Json, pretty: bool)
    requires WellFormed(v)
    ensures Allowed(Calls(v), 0)
    ensures var out := ExecAll(State("", 0, pretty, NO_SEP), Calls(v)).out;
      out == Print(v, pretty, 0) && Parse(out) == if Clean(v) then Some(v) else None
  {
    DocumentWritten(State("", 0, pretty, NO_SEP), v);
    RoundTrip(v, pretty, 0);
    assert "" + "" + Print(v, pretty, 0) == Print(v, pretty, 0);
  }
}
