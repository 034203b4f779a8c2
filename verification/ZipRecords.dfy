/** The three fixed-size records of a ZIP archive (PKWARE APPNOTE, section 4.3). */
module ZipRecords {
  import opened Pod
  import opened Words

  const CD_FILE_HEADER_MAGIC := 0x02014b50
  const END_OF_CD_RECORD_MAGIC := 0x06054b50
  const LOCAL_FILE_HEADER_MAGIC := 0x04034b50

  const END_SIZE := 22
  const CD_SIZE := 46
  const LOCAL_SIZE := 30

  /** Section 4.3.16. */
  datatype EndOfCdRecord = EndOfCdRecord(
    magic: nat, thisDisk: nat, cdDisk: nat, cdRecords: nat, cdRecordsTotal: nat, cdSize: nat, cdOffset: nat,
    commentLength: nat)

  /** Section 4.3.12. */
  datatype CdFileHeader = CdFileHeader(
    magic: nat, version: nat, minVersion: nat, flags: nat, compression: nat, time: nat, date: nat, crc: nat,
    compressedSize: nat, uncompressedSize: nat, fileNameLength: nat, extraFieldLength: nat, fileCommentLength: nat,
    disk: nat, internalAttributes: nat, externalAttributes: nat, offset: nat)

  /** Section 4.3.7. */
  datatype LocalFileHeader = LocalFileHeader(
    magic: nat, minVersion: nat, flags: nat, compression: nat, time: nat, date: nat, crc: nat,
    compressedSize: nat, uncompressedSize: nat, fileNameLength: nat, extraFieldLength: nat)

  function EndOf(s: seq<Byte>): EndOfCdRecord
    requires |s| >= END_SIZE
  {
    EndOfCdRecord(U32(s, 0), U16(s, 4), U16(s, 6), U16(s, 8), U16(s, 10), U32(s, 12), U32(s, 16), U16(s, 20))
  }

  function CdOf(s: seq<Byte>): CdFileHeader
    requires |s| >= CD_SIZE
  {
    CdFileHeader(
      U32(s, 0), U16(s, 4), U16(s, 6), U16(s, 8), U16(s, 10), U16(s, 12), U16(s, 14), U32(s, 16), U32(s, 20),
      U32(s, 24), U16(s, 28), U16(s, 30), U16(s, 32), U16(s, 34), U16(s, 36), U32(s, 38), U32(s, 42))
  }

  function LocalOf(s: seq<Byte>): LocalFileHeader
    requires |s| >= LOCAL_SIZE
  {
    LocalFileHeader(
      U32(s, 0), U16(s, 4), U16(s, 6), U16(s, 8), U16(s, 10), U16(s, 12), U32(s, 14), U32(s, 18), U32(s, 22),
      U16(s, 26), U16(s, 28))
  }

  // ---------------------------------------------------------------- writing them

  predicate Short(n: nat) { n < 0x1_0000 }
  predicate Long(n: nat) { n < 0x1_0000_0000 }

  predicate EndFits(h: EndOfCdRecord) {
    && Long(h.magic) && Short(h.thisDisk) && Short(h.cdDisk) && Short(h.cdRecords) && Short(h.cdRecordsTotal)
    && Long(h.cdSize) && Long(h.cdOffset) && Short(h.commentLength)
  }

  predicate CdFits(h: CdFileHeader) {
    && Long(h.magic) && Short(h.version) && Short(h.minVersion) && Short(h.flags) && Short(h.compression)
    && Short(h.time) && Short(h.date) && Long(h.crc) && Long(h.compressedSize) && Long(h.uncompressedSize)
    && Short(h.fileNameLength) && Short(h.extraFieldLength) && Short(h.fileCommentLength) && Short(h.disk)
    && Short(h.internalAttributes) && Long(h.externalAttributes) && Long(h.offset)
  }

  predicate LocalFits(h: LocalFileHeader) {
    && Long(h.magic) && Short(h.minVersion) && Short(h.flags) && Short(h.compression) && Short(h.time)
    && Short(h.date) && Long(h.crc) && Long(h.compressedSize) && Long(h.uncompressedSize)
    && Short(h.fileNameLength) && Short(h.extraFieldLength)
  }

  ghost function EndLayout(): seq<Width> { [W32, W16, W16, W16, W16, W32, W32, W16] }

  ghost function CdLayout(): seq<Width> {
    [W32, W16, W16, W16, W16, W16, W16, W32, W32, W32, W16, W16, W16, W16, W16, W32, W32]
  }

  ghost function LocalLayout(): seq<Width> { [W32, W16, W16, W16, W16, W16, W32, W32, W32, W16, W16] }

  ghost function EndFields(e: EndOfCdRecord): seq<nat> {
    [e.magic, e.thisDisk, e.cdDisk, e.cdRecords, e.cdRecordsTotal, e.cdSize, e.cdOffset, e.commentLength]
  }

  ghost function CdFields(h: CdFileHeader): seq<nat> {
    [h.magic, h.version, h.minVersion, h.flags, h.compression, h.time, h.date, h.crc, h.compressedSize,
     h.uncompressedSize, h.fileNameLength, h.extraFieldLength, h.fileCommentLength, h.disk, h.internalAttributes,
     h.externalAttributes, h.offset]
  }

  ghost function LocalFields(h: LocalFileHeader): seq<nat> {
    [h.magic, h.minVersion, h.flags, h.compression, h.time, h.date, h.crc, h.compressedSize, h.uncompressedSize,
     h.fileNameLength, h.extraFieldLength]
  }

  /** Field `k` is found at its place, and the next one after it. */
  lemma FieldIs(layout: seq<Width>, fields: seq<nat>, k: nat, place: nat)
    requires Fits(layout, fields) && k < |layout| && Place(layout, k) == place
    ensures place + Bytes(layout[k]) <= Place(layout, |layout|)
    ensures Field(layout[k], Put(layout, fields, |layout|), place) == fields[k]
    ensures Place(layout, k + 1) == place + Bytes(layout[k])
  {
    PutAt(layout, fields, |layout|, k);
  }

  lemma EndFieldsFit(h: EndOfCdRecord)
    requires EndFits(h)
    ensures Fits(EndLayout(), EndFields(h))
  {
  }

  /** Every end record that fits can be written so that it is read back. */
  lemma EndWritable(h: EndOfCdRecord)
    requires EndFits(h)
    ensures exists s: seq<Byte> :: |s| == END_SIZE && EndOf(s) == h
  {
    var l, f := EndLayout(), EndFields(h);
    EndFieldsFit(h);
    var s := Put(l, f, |l|);
    FieldIs(l, f, 0, 0);
    FieldIs(l, f, 1, 4);
    FieldIs(l, f, 2, 6);
    FieldIs(l, f, 3, 8);
    FieldIs(l, f, 4, 10);
    FieldIs(l, f, 5, 12);
    FieldIs(l, f, 6, 16);
    FieldIs(l, f, 7, 20);
    assert |s| == 22;
    assert EndOf(s) == h;
  }

  ghost function PutEnd(h: EndOfCdRecord): (s: seq<Byte>)
    requires EndFits(h)
    ensures |s| == END_SIZE && EndOf(s) == h
  {
    EndWritable(h);
    var s: seq<Byte> :| |s| == END_SIZE && EndOf(s) == h;
    s
  }

  lemma CdFieldsFit(h: CdFileHeader)
    requires CdFits(h)
    ensures Fits(CdLayout(), CdFields(h))
  {
  }

  /** Every directory record that fits can be written so that it is read back. */
  lemma CdWritable(h: CdFileHeader)
    requires CdFits(h)
    ensures exists s: seq<Byte> :: |s| == CD_SIZE && CdOf(s) == h
  {
    var l, f := CdLayout(), CdFields(h);
    CdFieldsFit(h);
    var s := Put(l, f, |l|);
    FieldIs(l, f, 0, 0);
    FieldIs(l, f, 1, 4);
    FieldIs(l, f, 2, 6);
    FieldIs(l, f, 3, 8);
    FieldIs(l, f, 4, 10);
    FieldIs(l, f, 5, 12);
    FieldIs(l, f, 6, 14);
    FieldIs(l, f, 7, 16);
    FieldIs(l, f, 8, 20);
    FieldIs(l, f, 9, 24);
    FieldIs(l, f, 10, 28);
    FieldIs(l, f, 11, 30);
    FieldIs(l, f, 12, 32);
    FieldIs(l, f, 13, 34);
    FieldIs(l, f, 14, 36);
    FieldIs(l, f, 15, 38);
    FieldIs(l, f, 16, 42);
    assert |s| == 46;
    assert CdOf(s) == h;
  }

  ghost function PutCd(h: CdFileHeader): (s: seq<Byte>)
    requires CdFits(h)
    ensures |s| == CD_SIZE && CdOf(s) == h
  {
    CdWritable(h);
    var s: seq<Byte> :| |s| == CD_SIZE && CdOf(s) == h;
    s
  }

  lemma LocalFieldsFit(h: LocalFileHeader)
    requires LocalFits(h)
    ensures Fits(LocalLayout(), LocalFields(h))
  {
  }

  /** Every local header that fits can be written so that it is read back. */
  lemma LocalWritable(h: LocalFileHeader)
    requires LocalFits(h)
    ensures exists s: seq<Byte> :: |s| == LOCAL_SIZE && LocalOf(s) == h
  {
    var l, f := LocalLayout(), LocalFields(h);
    LocalFieldsFit(h);
    var s := Put(l, f, |l|);
    FieldIs(l, f, 0, 0);
    FieldIs(l, f, 1, 4);
    FieldIs(l, f, 2, 6);
    FieldIs(l, f, 3, 8);
    FieldIs(l, f, 4, 10);
    FieldIs(l, f, 5, 12);
    FieldIs(l, f, 6, 14);
    FieldIs(l, f, 7, 18);
    FieldIs(l, f, 8, 22);
    FieldIs(l, f, 9, 26);
    FieldIs(l, f, 10, 28);
    assert |s| == 30;
    assert LocalOf(s) == h;
  }

  ghost function PutLocal(h: LocalFileHeader): (s: seq<Byte>)
    requires LocalFits(h)
    ensures |s| == LOCAL_SIZE && LocalOf(s) == h
  {
    LocalWritable(h);
    var s: seq<Byte> :| |s| == LOCAL_SIZE && LocalOf(s) == h;
    s
  }

  // A record is not changed by what follows it.

  lemma EndPrefix(s: seq<Byte>)
    requires |s| >= END_SIZE
    ensures EndOf(s[..END_SIZE]) == EndOf(s)
  {
  }

  lemma CdPrefix(s: seq<Byte>)
    requires |s| >= CD_SIZE
    ensures CdOf(s[..CD_SIZE]) == CdOf(s)
  {
  }

  lemma LocalPrefix(s: seq<Byte>)
    requires |s| >= LOCAL_SIZE
    ensures LocalOf(s[..LOCAL_SIZE]) == LocalOf(s)
  {
  }

  lemma EndRead(h: EndOfCdRecord, rest: seq<Byte>)
    requires EndFits(h)
    ensures EndOf(PutEnd(h) + rest) == h && (PutEnd(h) + rest)[END_SIZE..] == rest
  {
    var s := PutEnd(h) + rest;
    assert s[..END_SIZE] == PutEnd(h);
    EndPrefix(s);
  }

  lemma CdRead(h: CdFileHeader, rest: seq<Byte>)
    requires CdFits(h)
    ensures CdOf(PutCd(h) + rest) == h && (PutCd(h) + rest)[CD_SIZE..] == rest
  {
    var s := PutCd(h) + rest;
    assert s[..CD_SIZE] == PutCd(h);
    CdPrefix(s);
  }

  lemma LocalRead(h: LocalFileHeader, rest: seq<Byte>)
    requires LocalFits(h)
    ensures LocalOf(PutLocal(h) + rest) == h && (PutLocal(h) + rest)[LOCAL_SIZE..] == rest
  {
    var s := PutLocal(h) + rest;
    assert s[..LOCAL_SIZE] == PutLocal(h);
    LocalPrefix(s);
  }
}
