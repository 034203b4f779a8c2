/** Parsing /proc/<pid>/maps, line by line. */
module Maps {
  import opened Options
  import opened Words
  import Hex

  datatype EntryPath = EntryPath(mapsFile: string, symbolicPath: string)

  datatype PathName = Path(path: EntryPath) | Component(name: string)

  datatype MapsEntry = MapsEntry(start: nat, end: nat, mode: nat, offset: nat, pathName: Option<PathName>)

  datatype PathMapsEntry = PathMapsEntry(start: nat, end: nat, mode: nat, offset: nat, path: EntryPath)

  datatype Error =
    | NoAddressRange | BadRange | BadStart | BadEnd | NoPermissions | NoOffset | BadOffset | NoDevice | ReadFailed

  datatype Result<T> = Ok(value: T) | Err(error: Error)

  // ---------------------------------------------------------------- strings

  predicate IsAsciiWhitespace(c: char) { c in " \t\n\r\U{000C}" }

  /** Unicode white space, which trimming removes. */
  predicate IsWhitespace(c: char) {
    || '\t' <= c <= '\r' || c in " \U{0085}\U{00A0}\U{1680}\U{2028}\U{2029}\U{202F}\U{205F}\U{3000}"
    || '\U{2000}' <= c <= '\U{200A}'
  }

  /** The two notions of white space by code points. */
  lemma WhiteSpace(c: char)
    ensures IsAsciiWhitespace(c) <==> c as int in {9, 10, 12, 13, 32}
    ensures IsWhitespace(c) <==>
      || 9 <= c as int <= 13 || 0x2000 <= c as int <= 0x200A
      || c as int in {32, 0x85, 0xA0, 0x1680, 0x2028, 0x2029, 0x202F, 0x205F, 0x3000}
  {
    assert " \U{0085}\U{00A0}\U{1680}\U{2028}\U{2029}\U{202F}\U{205F}\U{3000}" ==
      [32 as char, 0x85 as char, 0xA0 as char, 0x1680 as char, 0x2028 as char, 0x2029 as char, 0x202F as char,
       0x205F as char, 0x3000 as char];
  }

  function TrimStart(s: string): (r: string)
    ensures r == "" || !IsWhitespace(r[0])
  {
    if s == "" || !IsWhitespace(s[0]) then s else TrimStart(s[1..])
  }

  function TrimEnd(s: string): (r: string)
    ensures r <= s
    ensures r == "" || !IsWhitespace(r[|r| - 1])
  {
    if s == "" || !IsWhitespace(s[|s| - 1]) then s else TrimEnd(s[..|s| - 1])
  }

  function Trim(s: string): string { TrimEnd(TrimStart(s)) }

  /** The parts before and after the first character that satisfies `p`. */
  function SplitOnce(s: string, p: char -> bool): Option<(string, string)> {
    if s == "" then None
    else if p(s[0]) then Some(("", s[1..]))
    else
      match SplitOnce(s[1..], p)
      case None => None
      case Some((a, b)) => Some(([s[0]] + a, b))
  }

  function IsDash(c: char): bool { c == '-' }

  /** No character of `s` satisfies `p`. */
  predicate Free(s: string, p: char -> bool) { forall i :: 0 <= i < |s| ==> !p(s[i]) }

  lemma {:induction false} SplitFirst(a: string, c: char, b: string, p: char -> bool)
    requires Free(a, p) && p(c)
    ensures SplitOnce(a + ([c] + b), p) == Some((a, b))
  {
    var s := a + ([c] + b);
    if a == "" {
      assert s[0] == c && s[1..] == b;
    } else {
      assert s[0] == a[0] && s[1..] == a[1..] + ([c] + b);
      SplitFirst(a[1..], c, b, p);
      assert [a[0]] + a[1..] == a;
    }
  }

  lemma {:induction false} SplitNone(s: string, p: char -> bool)
    ensures SplitOnce(s, p).None? <==> Free(s, p)
  {
    if s != "" {
      SplitNone(s[1..], p);
    }
  }

  // ---------------------------------------------------------------- trimming

  predicate Blank(s: string) { forall i :: 0 <= i < |s| ==> IsWhitespace(s[i]) }

  /** What is cut off is blank. */
  lemma {:induction false} TrimEndBlank(a: string, b: string)
    requires Blank(b)
    ensures TrimEnd(a + b) == TrimEnd(a)
    decreases |b|
  {
    if b == "" {
      assert a + b == a;
    } else {
      var b' := b[..|b| - 1];
      assert (a + b)[..|a + b| - 1] == a + b';
      TrimEndBlank(a, b');
    }
  }

  /** What is not cut off stays in front. */
  lemma {:induction false} TrimEndFront(a: string, b: string)
    requires TrimEnd(b) != "" || (a != "" && !IsWhitespace(a[|a| - 1]))
    ensures TrimEnd(a + b) == a + TrimEnd(b)
    decreases |b|
  {
    if b == "" {
      assert a + b == a;
    } else {
      assert (a + b)[|a + b| - 1] == b[|b| - 1];
      if IsWhitespace(b[|b| - 1]) {
        var b' := b[..|b| - 1];
        assert (a + b)[..|a + b| - 1] == a + b';
        TrimEndFront(a, b');
      }
    }
  }

  lemma {:induction false} TrimEndEmpty(s: string)
    ensures TrimEnd(s) == "" <==> Blank(s)
    decreases |s|
  {
    if s != "" && IsWhitespace(s[|s| - 1]) {
      TrimEndEmpty(s[..|s| - 1]);
      assert s == s[..|s| - 1] + [s[|s| - 1]];
    }
  }

  lemma {:induction false} TrimStartBlank(a: string, b: string)
    requires Blank(a)
    ensures TrimStart(a + b) == TrimStart(b)
  {
    if a == "" {
      assert a + b == b;
    } else {
      assert (a + b)[1..] == a[1..] + b;
      TrimStartBlank(a[1..], b);
    }
  }

  /** The order of trimming does not matter. */
  lemma {:induction false} TrimCommutes(s: string)
    ensures TrimStart(TrimEnd(s)) == TrimEnd(TrimStart(s))
  {
    if s != "" {
      var c, s' := s[..1], s[1..];
      assert c + s' == s;
      if IsWhitespace(s[0]) {
        TrimCommutes(s');
        if TrimEnd(s') == "" {
          TrimEndEmpty(s');
          TrimEndEmpty(s);
        } else {
          TrimEndFront(c, s');
          assert (c + TrimEnd(s'))[1..] == TrimEnd(s');
        }
      } else {
        TrimEndFront(c, s');
      }
    }
  }

  lemma TrimAround(a: string, s: string, b: string)
    requires Blank(a) && Blank(b)
    ensures Trim(a + (s + b)) == Trim(s)
  {
    TrimStartBlank(a, s + b);
    TrimCommutes(s + b);
    TrimEndBlank(s, b);
    TrimCommutes(s);
  }

  const DELETED := " (deleted)"

  function StripDeleted(s: string): string {
    if |s| >= |DELETED| && s[|s| - |DELETED|..] == DELETED then s[..|s| - |DELETED|] else s
  }

  // ---------------------------------------------------------------- one line

  /** One bit for each character, the last one lowest; a byte drops all but the last eight. */
  function ModeFrom(s: string, mode: nat): nat {
    if s == "" then mode else ModeFrom(s[1..], (2 * mode + if s[0] != '-' then 1 else 0) % 256)
  }

  function PathOf(path: string, pid: string, start: nat, end: nat): Option<PathName> {
    if path == "" then None
    else if path[0] == '/' then
      Some(Path(EntryPath("/proc/" + pid + "/map_files/" + Hex.Print(start) + "-" + Hex.Print(end),
          StripDeleted(path))))
    else Some(Component(path))
  }

  function ParseRange(s: string): Result<(nat, nat)> {
    match SplitOnce(s, IsDash)
    case None => Err(BadRange)
    case Some((a, b)) =>
      if Hex.Parse(a).None? then Err(BadStart)
      else if Hex.Parse(b).None? then Err(BadEnd)
      else Ok((Hex.Parse(a).value, Hex.Parse(b).value))
  }

  function ParsePath(line: string): string {
    var split := SplitOnce(line, IsAsciiWhitespace);
    if split.None? then "" else Trim(split.value.1)
  }

  function ParseMapsLine(line: string, pid: string): Result<MapsEntry> {
    var address := SplitOnce(line, IsAsciiWhitespace);
    if address.None? then Err(NoAddressRange)
    else
      var range := ParseRange(address.value.0);
      if range.Err? then Err(range.error)
      else
        var mode := SplitOnce(address.value.1, IsAsciiWhitespace);
        if mode.None? then Err(NoPermissions)
        else
          var offset := SplitOnce(mode.value.1, IsAsciiWhitespace);
          if offset.None? then Err(NoOffset)
          else if Hex.Parse(offset.value.0).None? then Err(BadOffset)
          else
            var dev := SplitOnce(offset.value.1, IsAsciiWhitespace);
            if dev.None? then Err(NoDevice)
            else
              var (start, end) := range.value;
              Ok(MapsEntry(start, end, ModeFrom(mode.value.0, 0), Hex.Parse(offset.value.0).value,
                           PathOf(ParsePath(dev.value.1), pid, start, end)))
  }

  /** Only executable mappings of files are of relevance. */
  function FilterMapRelevant(entry: MapsEntry): Option<PathMapsEntry> {
    if entry.mode / 2 % 2 != 1 then None
    else
      match entry.pathName
      case Some(Path(path)) => Some(PathMapsEntry(entry.start, entry.end, entry.mode, entry.offset, path))
      case _ => None
  }

  // ---------------------------------------------------------------- the whole file

  datatype Read = Line(text: string) | Failure

  /** The items for the lines that are still to be read: blank lines are skipped. */
  function Items(input: seq<Read>, pid: string): seq<Result<MapsEntry>> {
    if input == [] then []
    else
      (match input[0]
       case Failure => [Err(ReadFailed)]
       case Line(text) => if Trim(text) == "" then [] else [ParseMapsLine(Trim(text), pid)])
      + Items(input[1..], pid)
  }

  class MapsEntryIter {
    var input: seq<Read>
    const pid: string

    constructor (input: seq<Read>, pid: string)
      ensures this.input == input && this.pid == pid
    {
      this.input := input;
      this.pid := pid;
    }

    ghost function Remaining(): seq<Result<MapsEntry>>
      reads this
    {
      Items(input, pid)
    }

    method Next() returns (r: Option<Result<MapsEntry>>)
      modifies this
      ensures r.None? ==> old(Remaining()) == [] && Remaining() == []
      ensures r.Some? ==> old(Remaining()) == [r.value] + Remaining()
    {
      while input != []
        invariant Remaining() == old(Remaining())
        decreases |input|
      {
        var read := input[0];
        input := input[1..];
        if read.Failure? {
          return Some(Err(ReadFailed));
        }
        var line := Trim(read.text);
        if line != "" {
          return Some(ParseMapsLine(line, pid));
        }
        assert [] + Remaining() == Remaining();
      }
      r := None;
    }
  }

  // ---------------------------------------------------------------- printing, and reading back

  /** A mapping as the kernel describes it; device and inode are given as text. */
  datatype Mapping = Mapping(start: nat, end: nat, perms: string, offset: nat, dev: string, inode: string, path: string)

  /** A field without white space. */
  predicate IsField(s: string) { s != "" && Free(s, IsWhitespace) }

  predicate Printable(m: Mapping) {
    && m.start < WORD && m.end < WORD && m.offset < WORD
    && |m.perms| == 4 && IsField(m.perms) && IsField(m.dev) && IsField(m.inode)
    && '\n' !in m.path  // which the kernel writes as an escape
  }

  function Hex8(n: nat): string { Hex.Pad(Hex.Print(n), 8) }

  /** A field and what follows it after a space. */
  function Before(field: string, rest: string): string { field + ([' '] + rest) }

  function Range(m: Mapping): string { Hex8(m.start) + (['-'] + Hex8(m.end)) }

  /** The fields in front of the inode and everything from there on. */
  function WithFields(m: Mapping, rest: string): string {
    Before(Range(m), Before(m.perms, Before(Hex8(m.offset), Before(m.dev, rest))))
  }

  /** The line of proc(5), with `gap` before the path. */
  function PrintLine(m: Mapping, gap: string): string {
    WithFields(m, m.inode + (gap + (m.path + "\n")))
  }

  predicate IsGap(s: string) { s != "" && forall i :: 0 <= i < |s| ==> s[i] == ' ' }

  lemma HexField(n: nat)
    requires n < WORD
    ensures IsField(Hex8(n)) && Free(Hex8(n), IsDash) && Hex.Parse(Hex8(n)) == Some(n)
  {
    Hex.RoundTrip(n, 8);
    assert forall i :: 0 <= i < |Hex8(n)| ==> Hex.Digit(Hex8(n)[i]).Some?;
  }

  lemma FieldIsFree(s: string)
    requires Free(s, IsWhitespace)
    ensures Free(s, IsAsciiWhitespace)
  {
  }

  lemma SplitBefore(field: string, rest: string)
    requires IsField(field)
    ensures SplitOnce(Before(field, rest), IsAsciiWhitespace) == Some((field, rest))
  {
    FieldIsFree(field);
    SplitFirst(field, ' ', rest, IsAsciiWhitespace);
  }

  lemma RangeParses(m: Mapping)
    requires Printable(m)
    ensures IsField(Range(m)) && ParseRange(Range(m)) == Ok((m.start, m.end))
  {
    HexField(m.start);
    HexField(m.end);
    SplitFirst(Hex8(m.start), '-', Hex8(m.end), IsDash);
  }

  function EntryOf(m: Mapping, path: string, pid: string): MapsEntry {
    MapsEntry(m.start, m.end, ModeFrom(m.perms, 0), m.offset, PathOf(path, pid, m.start, m.end))
  }

  lemma FieldsParse(m: Mapping, rest: string, pid: string)
    requires Printable(m)
    ensures ParseMapsLine(WithFields(m, rest), pid) == Ok(EntryOf(m, ParsePath(rest), pid))
  {
    RangeParses(m);
    HexField(m.offset);
    SplitBefore(m.dev, rest);
    SplitBefore(Hex8(m.offset), Before(m.dev, rest));
    SplitBefore(m.perms, Before(Hex8(m.offset), Before(m.dev, rest)));
    SplitBefore(Range(m), Before(m.perms, Before(Hex8(m.offset), Before(m.dev, rest))));
  }

  /** Trimming a line from inode to newline: the path is found between blanks, or there is none. */
  lemma PathParses(inode: string, gap: string, path: string)
    requires IsField(inode) && IsGap(gap)
    ensures
      var rest := TrimEnd(inode + (gap + (path + "\n")));
      rest != "" && ParsePath(rest) == Trim(path)
  {
    var tail := gap + (path + "\n");
    TrimEndFront(inode, tail);
    TrimAround(gap, path, "\n");
    AfterInode(inode, tail);
  }

  lemma AfterInode(inode: string, tail: string)
    requires IsField(inode) && tail != "" && tail[0] == ' '
    ensures ParsePath(inode + TrimEnd(tail)) == Trim(tail)
  {
    var t := TrimEnd(tail);
    FieldIsFree(inode);
    TrimCommutes(tail);
    if t == "" {
      SplitNone(inode, IsAsciiWhitespace);
      assert inode + "" == inode;
    } else {
      assert t == [' '] + t[1..];
      SplitFirst(inode, ' ', t[1..], IsAsciiWhitespace);
      TrimStartBlank([' '], t[1..]);
      TrimEndTwice(TrimStart(tail));
    }
  }

  lemma TrimEndTwice(s: string)
    ensures TrimEnd(TrimEnd(s)) == TrimEnd(s)
  {
  }

  lemma TrimBefore(field: string, rest: string)
    requires TrimEnd(rest) != ""
    ensures TrimEnd(Before(field, rest)) == Before(field, TrimEnd(rest)) != ""
  {
    TrimEndFront([' '], rest);
    TrimEndFront(field, [' '] + rest);
  }

  lemma TrimFields(m: Mapping, rest: string)
    requires Printable(m) && TrimEnd(rest) != ""
    ensures Trim(WithFields(m, rest)) == WithFields(m, TrimEnd(rest)) != ""
  {
    var dev := Before(m.dev, rest);
    var offset := Before(Hex8(m.offset), dev);
    var perms := Before(m.perms, offset);
    TrimBefore(m.dev, rest);
    TrimBefore(Hex8(m.offset), dev);
    TrimBefore(m.perms, offset);
    TrimBefore(Range(m), perms);
    RangeParses(m);
    assert WithFields(m, rest)[0] == Range(m)[0];
  }

  /** Every printed mapping is read back, with the path between the blanks around it. */
  lemma LineRoundTrip(m: Mapping, gap: string, pid: string)
    requires Printable(m) && IsGap(gap)
    ensures Items([Line(PrintLine(m, gap))], pid) == [Ok(EntryOf(m, Trim(m.path), pid))]
  {
    var rest := m.inode + (gap + (m.path + "\n"));
    PathParses(m.inode, gap, m.path);
    TrimFields(m, rest);
    FieldsParse(m, TrimEnd(rest), pid);
    OneItem(PrintLine(m, gap), pid);
  }

  lemma OneItem(text: string, pid: string)
    requires Trim(text) != ""
    ensures Items([Line(text)], pid) == [ParseMapsLine(Trim(text), pid)]
  {
    assert Items([Line(text)][1..], pid) == [];
  }

  /** The file of a process: one line for each mapping, each with its own gap. */
  function PrintFile(ms: seq<(Mapping, string)>): (r: seq<Read>)
    ensures |r| == |ms|
  {
    if ms == [] then [] else [Line(PrintLine(ms[0].0, ms[0].1))] + PrintFile(ms[1..])
  }

  /** A whole file reads back as the entries of its mappings, in order, none lost and none added. */
  lemma {:induction false} FileRoundTrip(ms: seq<(Mapping, string)>, pid: string)
    requires forall k :: 0 <= k < |ms| ==> Printable(ms[k].0) && IsGap(ms[k].1)
    ensures var items := Items(PrintFile(ms), pid);
      && |items| == |ms|
      && forall k :: 0 <= k < |ms| ==> items[k] == Ok(EntryOf(ms[k].0, Trim(ms[k].0.path), pid))
  {
    if ms != [] {
      var line := Line(PrintLine(ms[0].0, ms[0].1));
      LineRoundTrip(ms[0].0, ms[0].1, pid);
      FileRoundTrip(ms[1..], pid);
      ItemsCons(line, PrintFile(ms[1..]), pid);
    }
  }

  lemma ItemsCons(line: Read, input: seq<Read>, pid: string)
    ensures Items([line] + input, pid) == Items([line], pid) + Items(input, pid)
  {
    assert ([line] + input)[1..] == input && Items([line][1..], pid) == [];
  }

  /** A failed read is one error, a blank line is nothing, and any other line is one item. */
  lemma ItemsOfRead(read: Read, input: seq<Read>, pid: string)
    ensures read.Failure? ==> Items([read] + input, pid) == [Err(ReadFailed)] + Items(input, pid)
    ensures read.Line? && Blank(read.text) ==> Items([read] + input, pid) == Items(input, pid)
    ensures read.Line? && !Blank(read.text) ==>
      Items([read] + input, pid) == [ParseMapsLine(Trim(read.text), pid)] + Items(input, pid)
  {
    assert ([read] + input)[1..] == input;
    if read.Line? {
      TrimIsEmpty(read.text);
      assert [] + Items(input, pid) == Items(input, pid);
    }
  }

  lemma TrimIsEmpty(s: string)
    ensures Trim(s) == "" <==> Blank(s)
  {
    StartIsEmpty(s);
    TrimEndEmpty(TrimStart(s));
  }

  lemma {:induction false} StartIsEmpty(s: string)
    ensures TrimStart(s) == "" <==> Blank(s)
  {
    if s != "" && IsWhitespace(s[0]) {
      StartIsEmpty(s[1..]);
      assert Blank(s) <==> Blank(s[1..]);
    }
  }

  /** A line that ends too early: the first field that is not followed by white space is missed. */
  lemma FieldsMissing(m: Mapping, pid: string)
    requires Printable(m)
    ensures ParseMapsLine(Range(m), pid) == Err(NoAddressRange)
    ensures ParseMapsLine(Before(Range(m), m.perms), pid) == Err(NoPermissions)
    ensures ParseMapsLine(Before(Range(m), Before(m.perms, Hex8(m.offset))), pid) == Err(NoOffset)
    ensures ParseMapsLine(Before(Range(m), Before(m.perms, Before(Hex8(m.offset), m.dev))), pid) == Err(NoDevice)
  {
    RangeParses(m);
    HexField(m.offset);
    NoSplit(Range(m));
    NoSplit(m.perms);
    NoSplit(Hex8(m.offset));
    NoSplit(m.dev);
    SplitBefore(Range(m), m.perms);
    SplitBefore(Range(m), Before(m.perms, Hex8(m.offset)));
    SplitBefore(m.perms, Hex8(m.offset));
    SplitBefore(Range(m), Before(m.perms, Before(Hex8(m.offset), m.dev)));
    SplitBefore(m.perms, Before(Hex8(m.offset), m.dev));
    SplitBefore(Hex8(m.offset), m.dev);
  }

  lemma NoSplit(field: string)
    requires IsField(field)
    ensures SplitOnce(field, IsAsciiWhitespace).None?
  {
    FieldIsFree(field);
    SplitNone(field, IsAsciiWhitespace);
  }

  /** An address range needs a dash and a number on either side of the first one. */
  lemma RangeErrors(a: string, b: string)
    requires Free(a, IsDash)
    ensures ParseRange(a) == Err(BadRange)
    ensures ParseRange(a + (['-'] + b)) ==
      if Hex.Parse(a).None? then Err(BadStart) else if Hex.Parse(b).None? then Err(BadEnd)
      else Ok((Hex.Parse(a).value, Hex.Parse(b).value))
  {
    SplitNone(a, IsDash);
    SplitFirst(a, '-', b, IsDash);
  }

  // ---------------------------------------------------------------- permissions and paths

  function Bit(c: char): nat { if c != '-' then 1 else 0 }

  lemma {:induction false} ModeSnoc(s: string, c: char, mode: nat)
    ensures ModeFrom(s + [c], mode) == (2 * ModeFrom(s, mode) + Bit(c)) % 256
  {
    if s == "" {
      assert (s + [c])[1..] == "";
    } else {
      assert (s + [c])[1..] == s[1..] + [c];
      ModeSnoc(s[1..], c, (2 * mode + Bit(s[0])) % 256);
    }
  }

  /** The bits of the four permissions. */
  lemma ModeBits(s: string)
    requires |s| == 4
    ensures ModeFrom(s, 0) == 8 * Bit(s[0]) + 4 * Bit(s[1]) + 2 * Bit(s[2]) + Bit(s[3])
  {
    var b0, b1, b2 := Bit(s[0]), Bit(s[1]), Bit(s[2]);
    NextBit(s, 0, 0);
    NextBit(s, 1, b0);
    NextBit(s, 2, 2 * b0 + b1);
    NextBit(s, 3, 4 * b0 + 2 * b1 + b2);
    assert s[..4] == s;
  }

  lemma NextBit(s: string, i: nat, mode: nat)
    requires i < |s| && ModeFrom(s[..i], 0) == mode < 128
    ensures ModeFrom(s[..i + 1], 0) == 2 * mode + Bit(s[i])
  {
    ModeSnoc(s[..i], s[i], 0);
    assert s[..i] + [s[i]] == s[..i + 1];
  }

  /** A printed mapping is kept exactly when it is executable and its path is absolute. */
  lemma KeptIff(m: Mapping, pid: string)
    requires Printable(m)
    ensures FilterMapRelevant(EntryOf(m, Trim(m.path), pid)).Some? <==>
      m.perms[2] != '-' && Trim(m.path) != "" && Trim(m.path)[0] == '/'
    ensures FilterMapRelevant(EntryOf(m, Trim(m.path), pid)).Some? ==>
      var e := FilterMapRelevant(EntryOf(m, Trim(m.path), pid)).value;
      e.start == m.start && e.end == m.end && e.offset == m.offset && e.path.symbolicPath == StripDeleted(Trim(m.path))
  {
    ModeBits(m.perms);
  }

  /** The file that the kernel keeps for the mapping, proc(5): its range is in hexadecimal without leading zeros. */
  ghost predicate NamesMapping(file: string, pid: string, start: nat, end: nat) {
    exists a, b ::
      Hex.IsShort(a, start) && Hex.IsShort(b, end) && file == "/proc/" + pid + "/map_files/" + a + "-" + b
  }

  /** An absolute path is that of a file, with the kernel's own name for the mapping; any other is a component. */
  lemma PathKinds(path: string, pid: string, start: nat, end: nat)
    requires start < WORD && end < WORD
    ensures PathOf(path, pid, start, end).None? <==> path == ""
    ensures path != "" && path[0] != '/' ==> PathOf(path, pid, start, end) == Some(Component(path))
    ensures path != "" && path[0] == '/' ==>
      var name := PathOf(path, pid, start, end);
      && name.Some? && name.value.Path? && name.value.path.symbolicPath == StripDeleted(path)
      && NamesMapping(name.value.path.mapsFile, pid, start, end)
  {
    Hex.PrintShort(start);
    Hex.PrintShort(end);
  }

  /** A file's path is recovered, without the mark for deleted files, exactly when it does not end in white space. */
  lemma PathRecoveredIff(path: string)
    requires path != "" && path[0] == '/'
    ensures StripDeleted(Trim(path)) == StripDeleted(path) <==> !IsWhitespace(path[|path| - 1])
  {
    assert TrimStart(path) == path;
    if IsWhitespace(path[|path| - 1]) {
      assert TrimEnd(path) == TrimEnd(path[..|path| - 1]);
      assert |path| >= |DELETED| ==> path[|path| - |DELETED|..][|DELETED| - 1] != DELETED[|DELETED| - 1];
    }
  }

  /** The file of a deleted mapping and a file with that very name cannot be told apart. */
  lemma DeletedAmbiguous(path: string)
    requires |path| < |DELETED| || path[|path| - |DELETED|..] != DELETED
    ensures StripDeleted(path + DELETED) == StripDeleted(path)
  {
    assert (path + DELETED)[|path|..] == DELETED && (path + DELETED)[..|path|] == path;
  }
}
