/** Finding the central directory of a ZIP archive and iterating over the entries (PKWARE APPNOTE, section 4.3). */
module Zip {
  import opened Mmap
  import opened Options
  import opened ReadRaw
  import opened Words
  import opened ZipRecords

  datatype Error = TooSmall | NoDirectory | Unsupported | UnexpectedEof | BadMagic | Truncated

  datatype Result<T> = Ok(value: T) | Err(error: Error)

  // ---------------------------------------------------------------- the end of the central directory

  datatype Attempt = NotHere | Refused | Found(cdOffset: nat, cdRecords: nat)

  /** Whether a byte string starts with an end record whose comment is complete. */
  function EndIn(s: seq<Byte>): Attempt {
    if END_SIZE > |s| then NotHere
    else
      var e := EndOf(s);
      if e.magic != END_OF_CD_RECORD_MAGIC || END_SIZE + e.commentLength > |s| then NotHere
      else if e.thisDisk != 0 || e.cdDisk != 0 || e.cdRecordsTotal != e.cdRecords then Refused
      else Found(e.cdOffset, e.cdRecords)
  }

  method TryParseEndOfCd(bytes: seq<Byte>) returns (r: Attempt)
    ensures r == EndIn(bytes)
  {
    var data := new Cursor(bytes);
    var record := data.ReadSlice(END_SIZE);
    if record.None? {
      return NotHere;
    }
    var eocd := EndOf(record.value);
    EndPrefix(bytes);
    if eocd.magic != END_OF_CD_RECORD_MAGIC {
      return NotHere;
    }
    if !data.Ensure(eocd.commentLength) {
      return NotHere;
    }
    if eocd.thisDisk != 0 || eocd.cdDisk != 0 || eocd.cdRecordsTotal != eocd.cdRecords {
      return Refused;
    }
    r := Found(eocd.cdOffset, eocd.cdRecords);
  }

  function EndAt(data: seq<Byte>, offset: nat): Attempt
    requires offset <= |data|
  {
    EndIn(data[offset..])
  }

  function WindowEnd(data: seq<Byte>): nat
    requires |data| >= END_SIZE
  {
    |data| - END_SIZE
  }

  function WindowStart(data: seq<Byte>): nat
    requires |data| >= END_SIZE
  {
    if WindowEnd(data) >= 0x1_0000 then WindowEnd(data) - 0x1_0000 else 0
  }

  /** No end record in the window begins after `offset`. */
  ghost predicate NoneAbove(data: seq<Byte>, offset: int)
    requires |data| >= END_SIZE
  {
    forall o: nat :: WindowStart(data) <= o <= WindowEnd(data) && offset < o ==> EndAt(data, o).NotHere?
  }

  /** What follows from an end record: the records it promises must fit into the archive. */
  function Verdict(data: seq<Byte>, a: Attempt): Result<(nat, nat)>
    requires !a.NotHere?
  {
    match a
    case Found(cdOffset, cdRecords) =>
      if cdOffset + cdRecords * CD_SIZE <= |data| then Ok((cdOffset, cdRecords)) else Err(UnexpectedEof)
    case Refused => Err(Unsupported)
  }

  /** `offset` is the highest one in the window at which there is an end record, and `r` is the verdict on it. */
  ghost predicate DecidedAt(data: seq<Byte>, offset: nat, r: Result<(nat, nat)>)
    requires |data| >= END_SIZE
  {
    && WindowStart(data) <= offset <= WindowEnd(data)
    && !EndAt(data, offset).NotHere? && NoneAbove(data, offset)
    && r == Verdict(data, EndAt(data, offset))
  }

  ghost predicate IsDirectory(data: seq<Byte>, r: Result<(nat, nat)>) {
    if |data| < END_SIZE then r == Err(TooSmall)
    else if NoneAbove(data, -1) then r == Err(NoDirectory)
    else exists offset :: DecidedAt(data, offset, r)
  }

  /** The last end record in the window decides. */
  method FindCd(data: seq<Byte>) returns (r: Result<(nat, nat)>)
    ensures IsDirectory(data, r)
  {
    if |data| < END_SIZE {
      return Err(TooSmall);
    }
    var end := WindowEnd(data);
    var start := if end >= 0x1_0000 then end - 0x1_0000 else 0;
    var offset := end + 1;
    while offset > start
      invariant start <= offset <= end + 1
      invariant NoneAbove(data, offset - 1)
    {
      offset := offset - 1;
      var result := TryParseEndOfCd(data[offset..]);
      if result.Found? {
        r := if result.cdOffset + result.cdRecords * CD_SIZE <= |data|
             then Ok((result.cdOffset, result.cdRecords)) else Err(UnexpectedEof);
        assert DecidedAt(data, offset, r);
        return;
      } else if result.Refused? {
        assert DecidedAt(data, offset, Err(Unsupported));
        return Err(Unsupported);
      }
    }
    r := Err(NoDirectory);
  }

  /** The outcome of the search is determined by the archive. */
  lemma DirectoryUnique(data: seq<Byte>, r: Result<(nat, nat)>, r': Result<(nat, nat)>)
    requires IsDirectory(data, r) && IsDirectory(data, r')
    ensures r == r'
  {
    if |data| >= END_SIZE && !NoneAbove(data, -1) {
      var o :| DecidedAt(data, o, r);
      var o' :| DecidedAt(data, o', r');
      assert !EndAt(data, o).NotHere? && !EndAt(data, o').NotHere?;
    }
  }

  /** The directory that was found lies inside the archive. */
  lemma DirectoryInside(data: seq<Byte>, cdOffset: nat, cdRecords: nat)
    requires IsDirectory(data, Ok((cdOffset, cdRecords)))
    ensures cdOffset + cdRecords * CD_SIZE <= |data| && cdRecords < 0x1_0000
  {
    var o :| DecidedAt(data, o, Ok((cdOffset, cdRecords)));
  }

  // ---------------------------------------------------------------- entries

  datatype Entry = Entry(compression: nat, path: seq<Byte>, dataOffset: nat, data: seq<Byte>)

  function Encrypted(flags: nat): bool { flags % 2 == 1 }
  function HasDataDescriptor(flags: nat): bool { flags / 8 % 2 == 1 }

  /** Reading on where the last read ended. */
  lemma Cut(s: seq<Byte>, i: nat, n: nat)
    requires i + n <= |s|
    ensures s[i..][..n] == s[i..i + n] && s[i..][n..] == s[i + n..]
  {
  }

  /** The entry whose local header a byte string starts with; `offset` is its place in the archive. */
  function EntryIn(s: seq<Byte>, offset: nat): Result<Entry> {
    if LOCAL_SIZE > |s| then Err(Truncated)
    else
      var h := LocalOf(s);
      if h.magic != LOCAL_FILE_HEADER_MAGIC then Err(BadMagic)
      else if Encrypted(h.flags) || HasDataDescriptor(h.flags) then Err(Unsupported)
      else
        var rest := s[LOCAL_SIZE..];
        var extra := h.fileNameLength + h.extraFieldLength;
        if extra + h.compressedSize > |rest| then Err(Truncated)
        else Ok(Entry(h.compression, rest[..h.fileNameLength], offset + LOCAL_SIZE + extra,
            rest[extra..][..h.compressedSize]))
  }

  function EntryAt(data: seq<Byte>, offset: nat): Result<Entry> {
    if offset > |data| then Err(Truncated) else EntryIn(data[offset..], offset)
  }

  method ParseEntryAtOffset(archive: seq<Byte>, offset: nat) returns (r: Result<Entry>)
    ensures r == EntryAt(archive, offset)
  {
    if offset > |archive| {
      return Err(Truncated);
    }
    var s := archive[offset..];
    var data := new Cursor(s);
    var record := data.ReadSlice(LOCAL_SIZE);
    if record.None? {
      return Err(Truncated);
    }
    var lfh := LocalOf(record.value);
    LocalPrefix(s);
    if lfh.magic != LOCAL_FILE_HEADER_MAGIC {
      return Err(BadMagic);
    }
    if Encrypted(lfh.flags) || HasDataDescriptor(lfh.flags) {
      return Err(Unsupported);
    }
    r := ReadEntry(data, lfh, |s|, offset);
  }

  /** Name, extra field and data that follow a local header; the header's place is `start` bytes before the end. */
  method ReadEntry(data: Cursor, lfh: LocalFileHeader, start: nat, offset: nat) returns (r: Result<Entry>)
    requires |data.data| <= start
    modifies data
    ensures
      var s, extra := old(data.data), lfh.fileNameLength + lfh.extraFieldLength;
      r == if extra + lfh.compressedSize > |s| then Err(Truncated)
           else Ok(Entry(lfh.compression, s[..lfh.fileNameLength], offset + start - |s| + extra,
               s[extra..][..lfh.compressedSize]))
  {
    ghost var s := data.data;
    var path := data.ReadSlice(lfh.fileNameLength);
    if path.None? {
      return Err(Truncated);
    }
    var extra := data.ReadSlice(lfh.extraFieldLength);
    if extra.None? {
      return Err(Truncated);
    }
    Cut(s, lfh.fileNameLength, lfh.extraFieldLength);
    var dataOffset := offset + (start - |data.data|);
    var content := data.ReadSlice(lfh.compressedSize);
    if content.None? {
      return Err(Truncated);
    }
    r := Ok(Entry(lfh.compression, path.value, dataOffset, content.value));
  }

  /** The data of an entry is the part of the archive at its offset. */
  lemma EntryData(archive: seq<Byte>, offset: nat)
    requires EntryAt(archive, offset).Ok?
    ensures
      var e := EntryAt(archive, offset).value;
      e.dataOffset + |e.data| <= |archive| && e.data == archive[e.dataOffset..e.dataOffset + |e.data|]
  {
    var h, s := LocalOf(archive[offset..]), archive[offset..];
    var extra := h.fileNameLength + h.extraFieldLength;
    Cut(archive, offset, LOCAL_SIZE);
    Cut(archive, offset + LOCAL_SIZE, extra);
    Cut(archive, offset + LOCAL_SIZE + extra, h.compressedSize);
  }

  /** What is left after reading three strings, up to the first that is incomplete. */
  function Skipped(s: seq<Byte>, a: nat, b: nat, c: nat): seq<Byte> {
    if a > |s| then s
    else if a + b > |s| then s[a..]
    else if a + b + c > |s| then s[a + b..]
    else s[a + b + c..]
  }

  /** The entry of the next directory record, and the directory that remains: past all that could be read. */
  function NextRecord(archive: seq<Byte>, cd: seq<Byte>): (Result<Entry>, seq<Byte>) {
    if CD_SIZE > |cd| then (Err(Truncated), cd)
    else
      var h := CdOf(cd);
      var rest := cd[CD_SIZE..];
      if h.magic != CD_FILE_HEADER_MAGIC then (Err(BadMagic), rest)
      else
        var after := Skipped(rest, h.fileNameLength, h.extraFieldLength, h.fileCommentLength);
        if h.fileNameLength + h.extraFieldLength + h.fileCommentLength > |rest| then (Err(Truncated), after)
        else (EntryAt(archive, h.offset), after)
  }

  /** The results for `n` directory records. */
  function Items(archive: seq<Byte>, cd: seq<Byte>, n: nat): (items: seq<Result<Entry>>)
    ensures |items| == n
  {
    if n == 0 then []
    else
      var (item, rest) := NextRecord(archive, cd);
      [item] + Items(archive, rest, n - 1)
  }

  class EntryIter {
    const archiveData: seq<Byte>
    const cdRecordData: Cursor
    var remainingRecords: nat

    constructor (archiveData: seq<Byte>, cd: seq<Byte>, records: nat)
      ensures fresh(cdRecordData) && this.archiveData == archiveData
      ensures cdRecordData.data == cd && remainingRecords == records
    {
      this.archiveData := archiveData;
      cdRecordData := new Cursor(cd);
      remainingRecords := records;
    }

    /** What the iterator is still going to yield. */
    ghost function Remaining(): seq<Result<Entry>>
      reads this, cdRecordData
    {
      Items(archiveData, cdRecordData.data, remainingRecords)
    }

    method ParseNextEntry() returns (r: Result<Entry>)
      modifies cdRecordData
      ensures (r, cdRecordData.data) == NextRecord(archiveData, old(cdRecordData.data))
    {
      var record := cdRecordData.ReadSlice(CD_SIZE);
      if record.None? {
        return Err(Truncated);
      }
      var cdfh := CdOf(record.value);
      ghost var rest := cdRecordData.data;
      if cdfh.magic != CD_FILE_HEADER_MAGIC {
        return Err(BadMagic);
      }
      var ok := SkipStrings(cdfh.fileNameLength, cdfh.extraFieldLength, cdfh.fileCommentLength);
      if !ok {
        return Err(Truncated);
      }
      r := ParseEntryAtOffset(archiveData, cdfh.offset);
    }

    /** Skips name, extra field and comment, or as many of them as there are. */
    method SkipStrings(name: nat, extra: nat, comment: nat) returns (ok: bool)
      modifies cdRecordData
      ensures ok <==> name + extra + comment <= |old(cdRecordData.data)|
      ensures cdRecordData.data == Skipped(old(cdRecordData.data), name, extra, comment)
    {
      ghost var rest := cdRecordData.data;
      var r := cdRecordData.ReadSlice(name);
      if r.None? {
        return false;
      }
      r := cdRecordData.ReadSlice(extra);
      if r.None? {
        return false;
      }
      Cut(rest, name, extra);
      r := cdRecordData.ReadSlice(comment);
      if r.None? {
        return false;
      }
      Cut(rest, name + extra, comment);
      ok := true;
    }

    /** Yields the items one by one, errors included, and then nothing. */
    method Next() returns (r: Option<Result<Entry>>)
      modifies this, cdRecordData
      ensures r.None? <==> old(Remaining()) == []
      ensures r.None? ==> Remaining() == []
      ensures r.Some? ==> old(Remaining()) == [r.value] + Remaining()
    {
      if remainingRecords == 0 {
        return None;
      }
      remainingRecords := remainingRecords - 1;
      var entry := ParseNextEntry();
      r := Some(entry);
    }
  }

  // ---------------------------------------------------------------- archives

  datatype Archive = Archive(mmap: Mmap, cdOffset: nat, cdRecords: nat) {
    ghost predicate Valid() {
      mmap.Valid() && IsDirectory(mmap.Deref(), Ok((cdOffset, cdRecords)))
    }
  }

  method WithMmap(mmap: Mmap) returns (r: Result<Archive>)
    requires mmap.Valid()
    ensures r.Ok? ==> r.value.Valid() && r.value.mmap == mmap
    ensures r.Err? ==> IsDirectory(mmap.Deref(), Err(r.error))
  {
    var cd := FindCd(mmap.Deref());
    if cd.Err? {
      return Err(cd.error);
    }
    r := Ok(Archive(mmap, cd.value.0, cd.value.1));
  }

  lemma {:induction false} ItemData(archive: seq<Byte>, cd: seq<Byte>, n: nat, i: nat)
    requires i < n && Items(archive, cd, n)[i].Ok?
    ensures
      var e := Items(archive, cd, n)[i].value;
      e.dataOffset + |e.data| <= |archive| && e.data == archive[e.dataOffset..e.dataOffset + |e.data|]
  {
    ItemAt(archive, cd, n, i);
    if i == 0 {
      FirstData(archive, cd);
    } else {
      ItemData(archive, NextRecord(archive, cd).1, n - 1, i - 1);
    }
  }

  lemma FirstData(archive: seq<Byte>, cd: seq<Byte>)
    requires NextRecord(archive, cd).0.Ok?
    ensures var e := NextRecord(archive, cd).0.value;
      e.dataOffset + |e.data| <= |archive| && e.data == archive[e.dataOffset..e.dataOffset + |e.data|]
  {
    if CD_SIZE <= |cd| {
      EntryData(archive, CdOf(cd).offset);
    }
  }

  lemma ItemAt(archive: seq<Byte>, cd: seq<Byte>, n: nat, i: nat)
    requires i < n
    ensures var (item, rest) := NextRecord(archive, cd);
      Items(archive, cd, n)[i] == if i == 0 then item else Items(archive, rest, n - 1)[i - 1]
  {
  }

  /** What the entries of an archive are. */
  ghost function Listing(a: Archive): (items: seq<Result<Entry>>)
    requires a.Valid()
    ensures |items| == a.cdRecords
  {
    DirectoryInside(a.mmap.Deref(), a.cdOffset, a.cdRecords);
    Items(a.mmap.Deref(), a.mmap.Deref()[a.cdOffset..], a.cdRecords)
  }

  /** An iterator over as many items as the end record promises. */
  method Entries(archive: Archive) returns (iter: EntryIter)
    requires archive.Valid()
    ensures fresh(iter) && fresh(iter.cdRecordData)
    ensures iter.Remaining() == Listing(archive)
  {
    DirectoryInside(archive.mmap.Deref(), archive.cdOffset, archive.cdRecords);
    iter := new EntryIter(archive.mmap.Deref(), archive.mmap.Deref()[archive.cdOffset..], archive.cdRecords);
  }

  /** The data of an entry is the part of the mapping at its offset, by slicing and by constraining the view. */
  ghost predicate IsViewOf(m: Mmap, e: Entry)
    requires m.Valid()
  {
    && e.dataOffset + |e.data| <= |m.Deref()|
    && e.data == m.Deref()[e.dataOffset..e.dataOffset + |e.data|]
    && var part := Constrain(m, e.dataOffset, e.dataOffset + |e.data|);
    part.View? && part.mmap.Valid() && part.mmap.Deref() == e.data
  }

  lemma ItemIsView(m: Mmap, cd: seq<Byte>, n: nat, i: nat)
    requires m.Valid() && i < n && Items(m.Deref(), cd, n)[i].Ok?
    ensures IsViewOf(m, Items(m.Deref(), cd, n)[i].value)
  {
    var e := Items(m.Deref(), cd, n)[i].value;
    ItemData(m.Deref(), cd, n, i);
    ConstrainIsSlice(m, e.dataOffset, e.dataOffset + |e.data|);
  }

  lemma EntryIsView(archive: Archive, i: nat)
    requires archive.Valid() && i < archive.cdRecords && Listing(archive)[i].Ok?
    ensures IsViewOf(archive.mmap, Listing(archive)[i].value)
  {
    DirectoryInside(archive.mmap.Deref(), archive.cdOffset, archive.cdRecords);
    ItemIsView(archive.mmap, archive.mmap.Deref()[archive.cdOffset..], archive.cdRecords, i);
  }
}
