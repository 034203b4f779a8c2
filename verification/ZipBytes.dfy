/** Byte by byte: where the fields of ZIP records are, and what is read from them (PKWARE APPNOTE, section 4.3). */
module ZipBytes {
  import opened Pod
  import opened Words
  import opened Zip
  import opened ZipRecords

  /** Two or four bytes, the lowest first. */
  function Two(s: seq<Byte>, i: nat): nat
    requires i + 2 <= |s|
  {
    var (low: nat, high: nat) := (s[i], s[i + 1]);
    low + 0x100 * high
  }

  function Four(s: seq<Byte>, i: nat): nat
    requires i + 4 <= |s|
  {
    var (a: nat, b: nat, c: nat, d: nat) := (s[i], s[i + 1], s[i + 2], s[i + 3]);
    a + 0x100 * b + 0x1_0000 * c + 0x100_0000 * d
  }

  lemma SameFour(s: seq<Byte>, i: nat)
    requires i + 4 <= |s|
    ensures U32(s, i) == Four(s, i)
  {
  }

  // ---------------------------------------------------------------- fields by position

  /** Section 4.3.16. */
  lemma EndBytes(s: seq<Byte>)
    requires |s| >= 22
    ensures var e := EndOf(s);
      && e.magic == Four(s, 0) && e.thisDisk == Two(s, 4) && e.cdDisk == Two(s, 6) && e.cdRecords == Two(s, 8)
      && e.cdRecordsTotal == Two(s, 10) && e.cdSize == Four(s, 12) && e.cdOffset == Four(s, 16)
      && e.commentLength == Two(s, 20)
  {
    SameFour(s, 0);
    SameFour(s, 12);
    SameFour(s, 16);
  }

  /** Section 4.3.12. */
  lemma CdBytes(s: seq<Byte>)
    requires |s| >= 46
    ensures var h := CdOf(s);
      && h.magic == Four(s, 0) && h.version == Two(s, 4) && h.minVersion == Two(s, 6) && h.flags == Two(s, 8)
      && h.compression == Two(s, 10) && h.time == Two(s, 12) && h.date == Two(s, 14) && h.crc == Four(s, 16)
      && h.compressedSize == Four(s, 20) && h.uncompressedSize == Four(s, 24) && h.fileNameLength == Two(s, 28)
      && h.extraFieldLength == Two(s, 30) && h.fileCommentLength == Two(s, 32) && h.disk == Two(s, 34)
      && h.internalAttributes == Two(s, 36) && h.externalAttributes == Four(s, 38) && h.offset == Four(s, 42)
  {
    SameFour(s, 0);
    SameFour(s, 16);
    SameFour(s, 20);
    SameFour(s, 24);
    SameFour(s, 38);
    SameFour(s, 42);
  }

  /** Section 4.3.7. */
  lemma LocalBytes(s: seq<Byte>)
    requires |s| >= 30
    ensures var h := LocalOf(s);
      && h.magic == Four(s, 0) && h.minVersion == Two(s, 4) && h.flags == Two(s, 6) && h.compression == Two(s, 8)
      && h.time == Two(s, 10) && h.date == Two(s, 12) && h.crc == Four(s, 14) && h.compressedSize == Four(s, 18)
      && h.uncompressedSize == Four(s, 22) && h.fileNameLength == Two(s, 26) && h.extraFieldLength == Two(s, 28)
  {
    SameFour(s, 0);
    SameFour(s, 14);
    SameFour(s, 18);
    SameFour(s, 22);
  }

  /** The bytes of a written end record. */
  lemma EndWritten(h: EndOfCdRecord)
    requires EndFits(h)
    ensures var s := PutEnd(h);
      && Four(s, 0) == h.magic && Two(s, 4) == h.thisDisk && Two(s, 6) == h.cdDisk && Two(s, 8) == h.cdRecords
      && Two(s, 10) == h.cdRecordsTotal && Four(s, 12) == h.cdSize && Four(s, 16) == h.cdOffset
      && Two(s, 20) == h.commentLength
  {
    EndBytes(PutEnd(h));
  }

  lemma CdWritten(h: CdFileHeader)
    requires CdFits(h)
    ensures var s := PutCd(h);
      && Four(s, 0) == h.magic && Two(s, 4) == h.version && Two(s, 6) == h.minVersion && Two(s, 8) == h.flags
      && Two(s, 10) == h.compression && Two(s, 12) == h.time && Two(s, 14) == h.date && Four(s, 16) == h.crc
      && Four(s, 20) == h.compressedSize && Four(s, 24) == h.uncompressedSize && Two(s, 28) == h.fileNameLength
      && Two(s, 30) == h.extraFieldLength && Two(s, 32) == h.fileCommentLength && Two(s, 34) == h.disk
      && Two(s, 36) == h.internalAttributes && Four(s, 38) == h.externalAttributes && Four(s, 42) == h.offset
  {
    CdBytes(PutCd(h));
  }

  lemma LocalWritten(h: LocalFileHeader)
    requires LocalFits(h)
    ensures var s := PutLocal(h);
      && Four(s, 0) == h.magic && Two(s, 4) == h.minVersion && Two(s, 6) == h.flags && Two(s, 8) == h.compression
      && Two(s, 10) == h.time && Two(s, 12) == h.date && Four(s, 14) == h.crc && Four(s, 18) == h.compressedSize
      && Four(s, 22) == h.uncompressedSize && Two(s, 26) == h.fileNameLength && Two(s, 28) == h.extraFieldLength
  {
    LocalBytes(PutLocal(h));
  }

  // ---------------------------------------------------------------- reading

  /** The signatures are the letters PK and two numbers. */
  predicate Signed(s: seq<Byte>, a: Byte, b: Byte)
    requires |s| >= 4
  {
    s[0] == 0x50 && s[1] == 0x4b && s[2] == a && s[3] == b
  }

  lemma SignedIff(s: seq<Byte>, a: Byte, b: Byte)
    requires |s| >= 4
    ensures Signed(s, a, b) <==> Four(s, 0) == 0x4b50 + 0x1_0000 * a + 0x100_0000 * b
  {
  }

  /** An end record with its comment is complete, and the archive is in one part. */
  lemma EndInBytes(s: seq<Byte>)
    ensures EndIn(s) ==
      if |s| < 22 || !Signed(s, 5, 6) || |s| < 22 + Two(s, 20) then NotHere
      else if Two(s, 4) != 0 || Two(s, 6) != 0 || Two(s, 8) != Two(s, 10) then Refused
      else Found(Four(s, 16), Two(s, 8))
  {
    if |s| >= 22 {
      EndBytes(s);
      SignedIff(s, 5, 6);
    }
  }

  /** Bits 0 and 3 of the flags are in their first byte. */
  lemma FlagBits(low: Byte, high: Byte)
    ensures Encrypted(low + 0x100 * high) <==> low % 2 == 1
    ensures HasDataDescriptor(low + 0x100 * high) <==> low / 8 % 2 == 1
  {
    assert (low + 0x100 * high) / 8 == low / 8 + 32 * high;
  }

  /** A local header: name, extra field and data follow it in this order. */
  lemma EntryInBytes(s: seq<Byte>, offset: nat)
    ensures EntryIn(s, offset) ==
      if |s| < 30 then Err(Truncated)
      else if !Signed(s, 3, 4) then Err(BadMagic)
      else if s[6] % 2 == 1 || s[6] / 8 % 2 == 1 then Err(Unsupported)
      else
        var name, start := Two(s, 26), 30 + Two(s, 26) + Two(s, 28);
        if |s| < start + Four(s, 18) then Err(Truncated)
        else Ok(Entry(Two(s, 8), s[30..30 + name], offset + start, s[start..start + Four(s, 18)]))
  {
    if |s| >= 30 {
      LocalBytes(s);
      SignedIff(s, 3, 4);
      FlagBits(s[6], s[7]);
      var name, start := Two(s, 26), 30 + Two(s, 26) + Two(s, 28);
      if |s| >= start + Four(s, 18) {
        Cut(s, 30, name);
        Cut(s, 30, start - 30);
        Cut(s, start, Four(s, 18));
      }
    }
  }

  /** How much of three strings is read when a record is not complete: those that are. */
  function ReadBefore(size: nat, name: nat, extra: nat): nat {
    if size < name then 0 else if size < name + extra then name else name + extra
  }

  /** A directory record: the entry is at its offset, and the next record is behind name, extra field and comment. */
  lemma NextRecordBytes(archive: seq<Byte>, cd: seq<Byte>)
    ensures |cd| < 46 ==> NextRecord(archive, cd) == (Err(Truncated), cd)
    ensures |cd| >= 46 && !Signed(cd, 1, 2) ==> NextRecord(archive, cd) == (Err(BadMagic), cd[46..])
    ensures |cd| >= 46 && Signed(cd, 1, 2) ==>
      var next := 46 + Two(cd, 28) + Two(cd, 30) + Two(cd, 32);
      NextRecord(archive, cd) ==
      if |cd| < next then (Err(Truncated), cd[46 + ReadBefore(|cd| - 46, Two(cd, 28), Two(cd, 30))..])
      else if Four(cd, 42) > |archive| then (Err(Truncated), cd[next..])
      else (EntryIn(archive[Four(cd, 42)..], Four(cd, 42)), cd[next..])
  {
    if |cd| >= 46 {
      CdBytes(cd);
      SignedIff(cd, 1, 2);
      var next := 46 + Two(cd, 28) + Two(cd, 30) + Two(cd, 32);
      var n := ReadBefore(|cd| - 46, Two(cd, 28), Two(cd, 30));
      if |cd| < next {
        Cut(cd, 46, n);
      } else {
        Cut(cd, 46, next - 46);
      }
    }
  }

  /** The search covers every end record that leaves room for at most 65536 more bytes, and no other. */
  lemma WindowExact(data: seq<Byte>, offset: nat)
    requires |data| >= 22
    ensures WindowStart(data) <= offset <= WindowEnd(data) <==> 22 <= |data| - offset <= 22 + 65536
  {
  }
}
