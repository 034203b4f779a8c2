/** Writing ZIP archives, and reading them back. */
module ZipRoundTrip {
  import opened Seqs
  import opened Words
  import opened Zip
  import opened ZipRecords

  /** A member to be archived; the two headers say what the writer does not determine. */
  datatype Member = Member(
    name: seq<Byte>, extra: seq<Byte>, data: seq<Byte>, cdExtra: seq<Byte>, comment: seq<Byte>,
    local: LocalFileHeader, central: CdFileHeader)

  function LocalHeader(m: Member): LocalFileHeader {
    m.local.(magic := LOCAL_FILE_HEADER_MAGIC, compressedSize := |m.data|, fileNameLength := |m.name|,
             extraFieldLength := |m.extra|)
  }

  function CentralHeader(m: Member, offset: nat): CdFileHeader {
    m.central.(magic := CD_FILE_HEADER_MAGIC, compressedSize := |m.data|, fileNameLength := |m.name|,
               extraFieldLength := |m.cdExtra|, fileCommentLength := |m.comment|, offset := offset)
  }

  /** A 16-bit or 32-bit field can hold everything that must be written into it, with the member at `offset`. */
  predicate Writable(m: Member, offset: nat) { LocalFits(LocalHeader(m)) && CdFits(CentralHeader(m, offset)) }

  /** Where the next member goes. */
  function Next(m: Member, offset: nat): nat { offset + LOCAL_SIZE + |m.name| + |m.extra| + |m.data| }

  ghost function Local(m: Member): (s: seq<Byte>)
    requires LocalFits(LocalHeader(m))
    ensures |s| == Next(m, 0)
  {
    PutLocal(LocalHeader(m)) + (m.name + (m.extra + m.data))
  }

  ghost function Central(m: Member, offset: nat): seq<Byte>
    requires Writable(m, offset)
  {
    PutCd(CentralHeader(m, offset)) + (m.name + (m.cdExtra + m.comment))
  }

  /** The members fit, one after the other from `offset` on. */
  ghost predicate AllWritable(ms: seq<Member>, offset: nat) {
    ms != [] ==> Writable(ms[0], offset) && AllWritable(ms[1..], Next(ms[0], offset))
  }

  ghost function Locals(ms: seq<Member>, offset: nat): seq<Byte>
    requires AllWritable(ms, offset)
  {
    if ms == [] then [] else Local(ms[0]) + Locals(ms[1..], Next(ms[0], offset))
  }

  ghost function Directory(ms: seq<Member>, offset: nat): seq<Byte>
    requires AllWritable(ms, offset)
  {
    if ms == [] then [] else Central(ms[0], offset) + Directory(ms[1..], Next(ms[0], offset))
  }

  /** What reading a member should yield: encrypted and streamed ones are refused. */
  function Item(m: Member, offset: nat): Result<Entry> {
    if Encrypted(m.local.flags) || HasDataDescriptor(m.local.flags) then Err(Unsupported)
    else Ok(Entry(m.local.compression, m.name, offset + LOCAL_SIZE + |m.name| + |m.extra|, m.data))
  }

  ghost function ItemsOf(ms: seq<Member>, offset: nat): seq<Result<Entry>>
    requires AllWritable(ms, offset)
  {
    if ms == [] then [] else [Item(ms[0], offset)] + ItemsOf(ms[1..], Next(ms[0], offset))
  }

  /** Three strings in a row are found again. */
  lemma Strings(s: seq<Byte>, a: seq<Byte>, b: seq<Byte>, c: seq<Byte>, tail: seq<Byte>)
    requires s == a + (b + c) + tail
    ensures s[..|a|] == a && s[|a| + |b|..][..|c|] == c && s[|a| + |b| + |c|..] == tail
  {
  }

  lemma EntryFrom(s: seq<Byte>, offset: nat, name: seq<Byte>, extra: seq<Byte>, data: seq<Byte>, tail: seq<Byte>)
    requires |s| >= LOCAL_SIZE && s[LOCAL_SIZE..] == name + (extra + data) + tail
    requires var h := LocalOf(s);
      && h.magic == LOCAL_FILE_HEADER_MAGIC && h.fileNameLength == |name| && h.extraFieldLength == |extra|
      && h.compressedSize == |data|
    ensures var h := LocalOf(s);
      EntryIn(s, offset) ==
      if Encrypted(h.flags) || HasDataDescriptor(h.flags) then Err(Unsupported)
      else Ok(Entry(h.compression, name, offset + LOCAL_SIZE + |name| + |extra|, data))
  {
    Strings(s[LOCAL_SIZE..], name, extra, data, tail);
  }

  lemma MemberRead(m: Member, offset: nat, s: seq<Byte>, tail: seq<Byte>)
    requires LocalFits(LocalHeader(m)) && s == Local(m) + tail
    ensures EntryIn(s, offset) == Item(m, offset)
  {
    var rest := m.name + (m.extra + m.data);
    Regroup(PutLocal(LocalHeader(m)), rest, tail);
    LocalRead(LocalHeader(m), rest + tail);
    EntryFrom(s, offset, m.name, m.extra, m.data, tail);
  }

  lemma RecordRead(archive: seq<Byte>, m: Member, offset: nat, cd: seq<Byte>, tail: seq<Byte>)
    requires Writable(m, offset) && cd == Central(m, offset) + tail
    ensures NextRecord(archive, cd) == (EntryAt(archive, offset), tail)
  {
    var rest := m.name + (m.cdExtra + m.comment);
    Regroup(PutCd(CentralHeader(m, offset)), rest, tail);
    CdRead(CentralHeader(m, offset), rest + tail);
    Strings(rest + tail, m.name, m.cdExtra, m.comment, tail);
  }

  /** The members begin at `offset`, and their directory records make up the start of `cd`. */
  ghost predicate Holds(archive: seq<Byte>, ms: seq<Member>, offset: nat, after: seq<Byte>, cd: seq<Byte>,
      tail: seq<Byte>) {
    && AllWritable(ms, offset)
    && offset <= |archive| && archive[offset..] == Locals(ms, offset) + after
    && cd == Directory(ms, offset) + tail
  }

  lemma {:induction false} ItemsRead(
      archive: seq<Byte>, ms: seq<Member>, offset: nat, after: seq<Byte>, cd: seq<Byte>, tail: seq<Byte>)
    requires Holds(archive, ms, offset, after, cd, tail)
    ensures Items(archive, cd, |ms|) == ItemsOf(ms, offset)
  {
    if ms != [] {
      var rest := FirstRead(archive, ms, offset, after, cd, tail);
      ItemsRead(archive, ms[1..], Next(ms[0], offset), after, rest, tail);
      Join(archive, ms, offset, cd, rest);
    }
  }

  lemma FirstRead(
      archive: seq<Byte>, ms: seq<Member>, offset: nat, after: seq<Byte>, cd: seq<Byte>, tail: seq<Byte>)
      returns (rest: seq<Byte>)
    requires ms != [] && Holds(archive, ms, offset, after, cd, tail)
    ensures NextRecord(archive, cd) == (Item(ms[0], offset), rest)
    ensures Holds(archive, ms[1..], Next(ms[0], offset), after, rest, tail)
  {
    var m, next := ms[0], Next(ms[0], offset);
    var more := Locals(ms[1..], next) + after;
    rest := Directory(ms[1..], next) + tail;
    FirstMember(ms, offset, after, tail);
    MemberRead(m, offset, archive[offset..], more);
    RecordRead(archive, m, offset, cd, rest);
    BehindMember(archive, m, offset, more);
  }

  lemma BehindMember(archive: seq<Byte>, m: Member, offset: nat, more: seq<Byte>)
    requires LocalFits(LocalHeader(m)) && offset <= |archive| && archive[offset..] == Local(m) + more
    ensures Next(m, offset) <= |archive| && archive[Next(m, offset)..] == more
  {
    Cut(archive, offset, |Local(m)|);
    Dropped(Local(m), more);
  }

  lemma FirstMember(ms: seq<Member>, offset: nat, after: seq<Byte>, tail: seq<Byte>)
    requires ms != [] && AllWritable(ms, offset)
    ensures var next := Next(ms[0], offset);
      && Locals(ms, offset) + after == Local(ms[0]) + (Locals(ms[1..], next) + after)
      && Directory(ms, offset) + tail == Central(ms[0], offset) + (Directory(ms[1..], next) + tail)
  {
    var next := Next(ms[0], offset);
    Regroup(Local(ms[0]), Locals(ms[1..], next), after);
    Regroup(Central(ms[0], offset), Directory(ms[1..], next), tail);
  }

  lemma Join(archive: seq<Byte>, ms: seq<Member>, offset: nat, cd: seq<Byte>, rest: seq<Byte>)
    requires ms != [] && AllWritable(ms, offset) && NextRecord(archive, cd) == (Item(ms[0], offset), rest)
    requires Items(archive, rest, |ms[1..]|) == ItemsOf(ms[1..], Next(ms[0], offset))
    ensures Items(archive, cd, |ms|) == ItemsOf(ms, offset)
  {
  }

  lemma {:induction false} DirectorySize(ms: seq<Member>, offset: nat)
    requires AllWritable(ms, offset)
    ensures |Directory(ms, offset)| >= |ms| * CD_SIZE
  {
    if ms != [] {
      DirectorySize(ms[1..], Next(ms[0], offset));
    }
  }

  // ---------------------------------------------------------------- whole archives

  /** Bytes before the first member, the members, and the archive comment. */
  datatype Contents = Contents(prefix: seq<Byte>, members: seq<Member>, comment: seq<Byte>)

  ghost predicate Archivable(c: Contents) {
    && AllWritable(c.members, |c.prefix|)
    && EndFits(EndRecord(c))
  }

  ghost function CdOffset(c: Contents): nat
    requires AllWritable(c.members, |c.prefix|)
  {
    |c.prefix| + |Locals(c.members, |c.prefix|)|
  }

  ghost function EndRecord(c: Contents): EndOfCdRecord
    requires AllWritable(c.members, |c.prefix|)
  {
    EndOfCdRecord(END_OF_CD_RECORD_MAGIC, 0, 0, |c.members|, |c.members|, |Directory(c.members, |c.prefix|)|,
                  CdOffset(c), |c.comment|)
  }

  ghost function EndOffset(c: Contents): nat
    requires AllWritable(c.members, |c.prefix|)
  {
    CdOffset(c) + |Directory(c.members, |c.prefix|)|
  }

  ghost function Serialised(c: Contents): (s: seq<Byte>)
    requires Archivable(c)
    ensures |s| == EndOffset(c) + END_SIZE + |c.comment|
  {
    c.prefix + (Locals(c.members, |c.prefix|) + (Directory(c.members, |c.prefix|) + (PutEnd(EndRecord(c)) + c.comment)))
  }

  lemma Dropped(a: seq<Byte>, b: seq<Byte>)
    ensures (a + b)[|a|..] == b
  {
  }

  lemma SerialisedParts(c: Contents)
    requires Archivable(c)
    ensures
      var s, locals, directory := Serialised(c), Locals(c.members, |c.prefix|), Directory(c.members, |c.prefix|);
      var end := PutEnd(EndRecord(c)) + c.comment;
      && s[|c.prefix|..] == locals + (directory + end)
      && s[CdOffset(c)..] == directory + end
      && s[EndOffset(c)..] == end
  {
    var s, locals, directory := Serialised(c), Locals(c.members, |c.prefix|), Directory(c.members, |c.prefix|);
    var end := PutEnd(EndRecord(c)) + c.comment;
    Dropped(c.prefix, locals + (directory + end));
    Dropped(locals, directory + end);
    Dropped(directory, end);
    Cut(s, |c.prefix|, |locals|);
    Cut(s, CdOffset(c), |directory|);
  }

  /** The window reaches every end record whose comment reaches to the end of the archive. */
  lemma WindowReaches(data: seq<Byte>, offset: nat)
    requires offset + END_SIZE <= |data|
    requires offset + END_SIZE + EndOf(data[offset..]).commentLength == |data|
    ensures WindowStart(data) <= offset <= WindowEnd(data)
  {
  }

  lemma EndFound(c: Contents)
    requires Archivable(c)
    ensures EndAt(Serialised(c), EndOffset(c)) == Found(CdOffset(c), |c.members|)
    ensures WindowStart(Serialised(c)) <= EndOffset(c) <= WindowEnd(Serialised(c))
  {
    SerialisedParts(c);
    EndRead(EndRecord(c), c.comment);
    WindowReaches(Serialised(c), EndOffset(c));
  }

  /** Without an archive comment nothing can be taken for a later end record. */
  lemma NoCommentNoneAbove(c: Contents)
    requires Archivable(c) && c.comment == []
    ensures NoneAbove(Serialised(c), EndOffset(c))
  {
  }

  /**
   * Unless an end record begins after the archive's own begins, the directory is found, and reading yields every
   * member, in order, with its name, its compression method and its data.
   */
  lemma RoundTrip(c: Contents, r: Result<(nat, nat)>)
    requires Archivable(c) && NoneAbove(Serialised(c), EndOffset(c)) && IsDirectory(Serialised(c), r)
    ensures r == Ok((CdOffset(c), |c.members|))
    ensures Items(Serialised(c), Serialised(c)[CdOffset(c)..], |c.members|) == ItemsOf(c.members, |c.prefix|)
  {
    EndFound(c);
    DirectorySize(c.members, |c.prefix|);
    DecidedByEnd(Serialised(c), EndOffset(c), r);
    MembersRead(c);
  }

  lemma MembersRead(c: Contents)
    requires Archivable(c)
    ensures Items(Serialised(c), Serialised(c)[CdOffset(c)..], |c.members|) == ItemsOf(c.members, |c.prefix|)
  {
    SerialisedParts(c);
    var end := PutEnd(EndRecord(c)) + c.comment;
    ItemsRead(Serialised(c), c.members, |c.prefix|, Directory(c.members, |c.prefix|) + end,
        Serialised(c)[CdOffset(c)..], end);
  }

  lemma DecidedByEnd(data: seq<Byte>, offset: nat, r: Result<(nat, nat)>)
    requires |data| >= END_SIZE && WindowStart(data) <= offset <= WindowEnd(data)
    requires !EndAt(data, offset).NotHere? && NoneAbove(data, offset) && IsDirectory(data, r)
    ensures r == Verdict(data, EndAt(data, offset))
  {
    assert DecidedAt(data, offset, Verdict(data, EndAt(data, offset)));
    DirectoryUnique(data, r, Verdict(data, EndAt(data, offset)));
  }

  // ---------------------------------------------------------------- end records in the comment

  /** The last end record that begins after the archive's own takes precedence, whether it is refused or not. */
  lemma CommentTakesPrecedence(c: Contents, offset: nat, r: Result<(nat, nat)>)
    requires Archivable(c) && EndOffset(c) < offset <= WindowEnd(Serialised(c))
    requires !EndAt(Serialised(c), offset).NotHere? && NoneAbove(Serialised(c), offset) && IsDirectory(Serialised(c), r)
    ensures r == Verdict(Serialised(c), EndAt(Serialised(c), offset))
  {
    EndFound(c);
    DecidedByEnd(Serialised(c), offset, r);
  }

  /** The last end record comes after the one at `own`, and says the same. */
  ghost predicate Agrees(data: seq<Byte>, own: nat, offset: nat, cdOffset: nat, cdRecords: nat)
    requires |data| >= END_SIZE
  {
    && own < offset <= WindowEnd(data) && NoneAbove(data, offset)
    && EndAt(data, offset) == Found(cdOffset, cdRecords)
  }

  lemma DirectoryIff(data: seq<Byte>, own: nat, cdOffset: nat, cdRecords: nat, r: Result<(nat, nat)>)
    requires |data| >= END_SIZE && WindowStart(data) <= own <= WindowEnd(data)
    requires EndAt(data, own) == Found(cdOffset, cdRecords) && cdOffset + cdRecords * CD_SIZE <= |data|
    requires IsDirectory(data, r)
    ensures r == Ok((cdOffset, cdRecords)) <==>
      NoneAbove(data, own) || exists offset :: Agrees(data, own, offset, cdOffset, cdRecords)
  {
    if NoneAbove(data, own) {
      DecidedByEnd(data, own, r);
    } else {
      assert !EndAt(data, own).NotHere?;
      var offset :| DecidedAt(data, offset, r);
      assert own < offset;
      if r == Ok((cdOffset, cdRecords)) {
        assert Agrees(data, own, offset, cdOffset, cdRecords);
      }
      if other :| Agrees(data, own, other, cdOffset, cdRecords) {
        DecidedByEnd(data, other, r);
      }
    }
  }

  /**
   * The directory of an archive is found exactly when no end record begins after the archive's own begins (in its
   * comment, or in the own record's fields), or the last one that does says the same as the archive's own.
   */
  lemma RoundTripIff(c: Contents, r: Result<(nat, nat)>)
    requires Archivable(c) && IsDirectory(Serialised(c), r)
    ensures r == Ok((CdOffset(c), |c.members|)) <==>
      || NoneAbove(Serialised(c), EndOffset(c))
      || exists offset :: Agrees(Serialised(c), EndOffset(c), offset, CdOffset(c), |c.members|)
  {
    EndFound(c);
    DirectorySize(c.members, |c.prefix|);
    DirectoryIff(Serialised(c), EndOffset(c), CdOffset(c), |c.members|, r);
  }

  lemma CommentPlace(c: Contents)
    requires Archivable(c)
    ensures var data := Serialised(c);
      data[EndOffset(c) + END_SIZE..] == c.comment && WindowEnd(data) == EndOffset(c) + |c.comment|
  {
    SerialisedParts(c);
    AfterEnd(Serialised(c), EndOffset(c), PutEnd(EndRecord(c)), c.comment);
  }

  lemma AfterEnd(data: seq<Byte>, offset: nat, end: seq<Byte>, comment: seq<Byte>)
    requires offset <= |data| && data[offset..] == end + comment && |end| == END_SIZE
    ensures data[offset + END_SIZE..] == comment && WindowEnd(data) == offset + |comment|
  {
    Cut(data, offset, END_SIZE);
    Dropped(end, comment);
  }

  lemma CommentLast(c: Contents) returns (data: seq<Byte>)
    requires Archivable(c) && |c.comment| == END_SIZE
    ensures data == Serialised(c) && |data| >= END_SIZE && data[|data| - END_SIZE..] == c.comment
  {
    data := Serialised(c);
    CommentPlace(c);
    assert |data| - END_SIZE == EndOffset(c) + END_SIZE;
  }

  /** An archive that ends with an end record. */
  lemma LastDecides(data: seq<Byte>, e: EndOfCdRecord, r: Result<(nat, nat)>)
    requires EndFits(e) && e.magic == END_OF_CD_RECORD_MAGIC && e.commentLength == 0
    requires |data| >= END_SIZE && data[|data| - END_SIZE..] == PutEnd(e) && IsDirectory(data, r)
    ensures r == Verdict(data, Says(e))
  {
    DecidedByEnd(data, |data| - END_SIZE, r);
  }

  /** What a complete end record amounts to. */
  function Says(e: EndOfCdRecord): Attempt {
    if e.thisDisk != 0 || e.cdDisk != 0 || e.cdRecordsTotal != e.cdRecords then Refused
    else Found(e.cdOffset, e.cdRecords)
  }

  /** A comment that is an end record without a comment of its own decides what the archive contains. */
  lemma CommentDecides(c: Contents, e: EndOfCdRecord, r: Result<(nat, nat)>)
    requires EndFits(e) && e.magic == END_OF_CD_RECORD_MAGIC && e.commentLength == 0
    requires Archivable(c) && c.comment == PutEnd(e) && IsDirectory(Serialised(c), r)
    ensures r == Verdict(Serialised(c), Says(e))
  {
    var data := CommentLast(c);
    LastDecides(data, e, r);
  }

  /** An end record for no entries at all, and one for an archive in several parts. */
  function EmptyEnd(): EndOfCdRecord { EndOfCdRecord(END_OF_CD_RECORD_MAGIC, 0, 0, 0, 0, 0, 0, 0) }

  function SplitEnd(): EndOfCdRecord { EndOfCdRecord(END_OF_CD_RECORD_MAGIC, 1, 0, 0, 0, 0, 0, 0) }

  /** With the first as its comment every archive opens as an empty one; with the second no archive opens. */
  lemma CommentsMislead(c: Contents, r: Result<(nat, nat)>)
    requires Archivable(c) && IsDirectory(Serialised(c), r)
    ensures c.comment == PutEnd(EmptyEnd()) ==> r == Ok((0, 0)) && Items(Serialised(c), Serialised(c), 0) == []
    ensures c.comment == PutEnd(SplitEnd()) ==> r == Err(Unsupported)
  {
    if c.comment == PutEnd(EmptyEnd()) {
      CommentDecides(c, EmptyEnd(), r);
    } else if c.comment == PutEnd(SplitEnd()) {
      CommentDecides(c, SplitEnd(), r);
    }
  }

  /** A member without name and data, to show that there are members at all. */
  function Plain(): Member {
    Member([], [], [], [], [], LocalFileHeader(0, 0, 0, 0, 0, 0, 0, 0, 0, 0, 0),
           CdFileHeader(0, 0, 0, 0, 0, 0, 0, 0, 0, 0, 0, 0, 0, 0, 0, 0, 0))
  }

  predicate Small(m: Member) { |m.name| + |m.extra| + |m.data| + |m.cdExtra| + |m.comment| < 0x1_0000 }

  lemma PlainIsSmall(m: Member)
    requires m == Plain()
    ensures Writable(m, 0) && Small(m)
  {
  }

  lemma OneWritable(m: Member)
    requires Writable(m, 0)
    ensures AllWritable([m], 0) && Locals([m], 0) == Local(m) && Directory([m], 0) == Central(m, 0)
  {
    var rest := [m][1..];
    assert rest == [] && AllWritable(rest, Next(m, 0));
    assert Local(m) + [] == Local(m) && Central(m, 0) + [] == Central(m, 0);
  }

  lemma OneArchivable(m: Member, c: Contents)
    requires Writable(m, 0) && Small(m) && c.prefix == [] && c.members == [m] && |c.comment| == END_SIZE
    ensures Archivable(c) && CdOffset(c) == Next(m, 0)
  {
    OneWritable(m);
    var e := EndRecord(c);
    assert |Central(m, 0)| == CD_SIZE + |m.name| + |m.cdExtra| + |m.comment|;
    assert e.cdOffset == Next(m, 0) && e.cdSize == |Central(m, 0)| && e.cdRecords == 1;
    assert EndFits(e);
  }

  /** The member of an archive with the first of the two comments is lost: the archive opens, and has no entries. */
  lemma MemberLost(m: Member, c: Contents, r: Result<(nat, nat)>)
    requires Writable(m, 0) && Small(m) && c.prefix == [] && c.members == [m] && c.comment == PutEnd(EmptyEnd())
    ensures Archivable(c) && CdOffset(c) > 0
    ensures IsDirectory(Serialised(c), r) ==> r == Ok((0, 0)) && r != Ok((CdOffset(c), |c.members|))
  {
    OneArchivable(m, c);
    if IsDirectory(Serialised(c), r) {
      CommentsMislead(c, r);
    }
  }

  /** There is such an archive: one member without name and data, and a comment of 22 bytes. */
  lemma PlainLost(m: Member, c: Contents, r: Result<(nat, nat)>)
    requires m == Plain() && c.prefix == [] && c.members == [m] && c.comment == PutEnd(EmptyEnd())
    ensures Archivable(c) && CdOffset(c) > 0
    ensures IsDirectory(Serialised(c), r) ==> r == Ok((0, 0)) && r != Ok((CdOffset(c), |c.members|))
  {
    PlainIsSmall(m);
    MemberLost(m, c, r);
  }
}
