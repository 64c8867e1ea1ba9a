/**
 * The metadata part of a PSARC archive as the Rust reader decodes it: the
 * 32-byte big-endian header, the table of 30-byte entries and the table of
 * u16 block sizes ("zsizes") that follows it.
 */
module PsarcToc {
  import opened Bytes
  import opened Wrappers

  const HEADER_SIZE: nat := 32
  const ENTRY_SIZE: nat := 30

  /** "PSAR" */
  const MAGIC: seq<byte> := [0x50, 0x53, 0x41, 0x52]
  /** "zlib" */
  const ZLIB: seq<byte> := [0x7A, 0x6C, 0x69, 0x62]

  /**
   * The `io::ErrorKind`s the reader reports. `Panic` stands for the places
   * where the Rust code does not return an error but panics (an integer
   * subtraction that underflows, an index past the end of the mapped file).
   */
  datatype IoError = InvalidData | Unsupported | NotFound | UnexpectedEof | Panic

  /** A 16-byte MD5 digest, as used for entry name hashes. */
  type Hash = s: seq<byte> | |s| == 16 witness [0, 0, 0, 0, 0, 0, 0, 0, 0, 0, 0, 0, 0, 0, 0, 0]

  /** The all-zero hash that identifies the manifest entry. */
  const ZERO_HASH: Hash := [0, 0, 0, 0, 0, 0, 0, 0, 0, 0, 0, 0, 0, 0, 0, 0]

  datatype Header = Header(
    major: u16,
    minor: u16,
    compression: seq<byte>,
    tocLength: u32,
    entrySize: u32,
    fileCount: u32,
    blockSize: u32,
    flags: u32)

  /** One table-of-contents record. The two 40-bit fields are below 2^40. */
  datatype Entry = Entry(nameHash: Hash, zsizeIndex: u32, uncompressedSize: nat, offset: nat)

  /** The decoded metadata: header, entries in file order and the zsize table. */
  datatype Tables = Tables(header: Header, entries: seq<Entry>, zsizes: seq<u16>)

  // ---------------------------------------------------------------------
  // Header
  // ---------------------------------------------------------------------

  /**
   * The header reads of `extract_psarc_internal` (`checkCompression`) and of
   * `load_psarc_cache` (which never looks at the compression tag). The reads
   * are sequential `read_exact` calls, so a short input fails with
   * UnexpectedEof at the first field that does not fit, and the magic (and
   * the tag, when checked) are tested as soon as they are read.
   */
  function DecodeHeader(data: seq<byte>, checkCompression: bool): (r: Result<Header, IoError>)
    ensures |data| >= 4 && data[..4] != MAGIC ==> r == Err(InvalidData)
    ensures |data| >= 12 && data[..4] == MAGIC && checkCompression && data[8..12] != ZLIB
            ==> r == Err(Unsupported)
    ensures r.Ok? <==> |data| >= HEADER_SIZE && data[..4] == MAGIC
                       && (checkCompression ==> data[8..12] == ZLIB)
    ensures r.Err? ==> r.error in {InvalidData, Unsupported, UnexpectedEof}
  {
    if |data| < 4 then Err(UnexpectedEof)
    else if data[..4] != MAGIC then Err(InvalidData)
    else if |data| < 12 then Err(UnexpectedEof)
    else if checkCompression && data[8..12] != ZLIB then Err(Unsupported)
    else if |data| < HEADER_SIZE then Err(UnexpectedEof)
    else
      Ok(Header(
        BeU16(data[4..6]), BeU16(data[6..8]), data[8..12],
        BeU32(data[12..16]), BeU32(data[16..20]), BeU32(data[20..24]),
        BeU32(data[24..28]), BeU32(data[28..32])))
  }

  /**
   * The header the writer emits: "PSAR", version 1.4, "zlib", the TOC length
   * cast to u32, entry size 30, the entry count cast to u32, the block size and
   * flags 1 (ignore case).
   */
  function EncodeHeader(tocLength: nat, entryCount: nat, blockSize: u32): (s: seq<byte>)
    ensures |s| == HEADER_SIZE
  {
    MAGIC + EncodeBeU16(1) + EncodeBeU16(4) + ZLIB
    + EncodeBeU32(TruncU32(tocLength)) + EncodeBeU32(30) + EncodeBeU32(TruncU32(entryCount))
    + EncodeBeU32(blockSize) + EncodeBeU32(1)
  }

  /** Reading back a written header gives the written fields (the two counts modulo 2^32). */
  lemma DecodeEncodeHeader(tocLength: nat, entryCount: nat, blockSize: u32, rest: seq<byte>, check: bool)
    ensures DecodeHeader(EncodeHeader(tocLength, entryCount, blockSize) + rest, check)
            == Ok(Header(1, 4, ZLIB, TruncU32(tocLength), 30, TruncU32(entryCount), blockSize, 1))
  {
    var h := EncodeHeader(tocLength, entryCount, blockSize);
    var d := h + rest;
    assert d[..4] == MAGIC;
    assert d[4..6] == EncodeBeU16(1);
    assert d[6..8] == EncodeBeU16(4);
    assert d[8..12] == ZLIB;
    assert d[12..16] == EncodeBeU32(TruncU32(tocLength));
    assert d[16..20] == EncodeBeU32(30);
    assert d[20..24] == EncodeBeU32(TruncU32(entryCount));
    assert d[24..28] == EncodeBeU32(blockSize);
    assert d[28..32] == EncodeBeU32(1);
  }

  // ---------------------------------------------------------------------
  // Table of contents
  // ---------------------------------------------------------------------

  /**
   * One 30-byte record: name hash (16 bytes), zsize index (u32), uncompressed
   * size and offset (40 bits each, a high byte then a big-endian u32).
   */
  function DecodeEntry(e: seq<byte>): (r: Entry)
    requires |e| == ENTRY_SIZE
    ensures r.nameHash == e[..16] && r.zsizeIndex == BeU32(e[16..20])
    ensures r.uncompressedSize == e[20] as int * TWO32 + BeU32(e[21..25])
    ensures r.offset == e[25] as int * TWO32 + BeU32(e[26..30])
    ensures r.uncompressedSize < TWO40 && r.offset < TWO40
  {
    assert e[20..25][1..5] == e[21..25] && e[25..30][1..5] == e[26..30];
    Entry(e[..16], BeU32(e[16..20]), Decode40(e[20..25]), Decode40(e[25..30]))
  }

  /** The 30 bytes the writer emits for one entry, with an absolute offset. */
  function EncodeEntry(nameHash: Hash, zsizeIndex: u32, size: nat, absOffset: nat): (s: seq<byte>)
    ensures |s| == ENTRY_SIZE
  {
    nameHash + EncodeBeU32(zsizeIndex) + Encode40(size) + Encode40(absOffset)
  }

  /** A written entry reads back with both 40-bit fields reduced modulo 2^40. */
  lemma DecodeEncodeEntry(nameHash: Hash, zsizeIndex: u32, size: nat, absOffset: nat)
    ensures DecodeEntry(EncodeEntry(nameHash, zsizeIndex, size, absOffset))
            == Entry(nameHash, zsizeIndex, size % TWO40, absOffset % TWO40)
  {
    var a, b, c, d := nameHash, EncodeBeU32(zsizeIndex), Encode40(size), Encode40(absOffset);
    var s := EncodeEntry(nameHash, zsizeIndex, size, absOffset);
    assert s == a + b + c + d;
    assert s[..16] == a;
    assert s[16..20] == b;
    assert s[20..25] == c;
    assert s[25..30] == d;
    assert c[1..5] == EncodeBeU32(Low32(size));
    assert d[1..5] == EncodeBeU32(Low32(absOffset));
    Split40RoundTrip(size);
    Split40RoundTrip(absOffset);
  }

  /** Where entry `i` starts: right after the header, 30 bytes per entry. */
  function EntryPos(i: nat): nat
  {
    HEADER_SIZE + ENTRY_SIZE * i
  }

  /**
   * The table of contents: `count` consecutive records after the header, or
   * UnexpectedEof when the input is too short to hold them all.
   */
  function Toc(data: seq<byte>, count: nat): (r: Result<seq<Entry>, IoError>)
    ensures r.Ok? <==> |data| >= EntryPos(count)
    ensures r.Ok? ==> |r.value| == count
    ensures r.Err? ==> r.error == UnexpectedEof
  {
    if |data| < EntryPos(count) then Err(UnexpectedEof)
    else Ok(seq(count, i requires 0 <= i < count => DecodeEntry(data[EntryPos(i)..EntryPos(i) + ENTRY_SIZE])))
  }

  lemma EntryPosNext(i: nat)
    ensures EntryPos(i) + ENTRY_SIZE == EntryPos(i + 1)
  {
  }

  lemma EntryPosMonotone(i: nat, j: nat)
    requires i <= j
    ensures EntryPos(i) <= EntryPos(j)
  {
  }

  /**
   * The `for _ in 0..file_count` loop: reads one record per iteration from a
   * cursor that starts after the header, pushing each onto `entries`.
   */
  method ReadToc(data: seq<byte>, fileCount: u32) returns (r: Result<seq<Entry>, IoError>)
    requires |data| >= HEADER_SIZE
    ensures r == Toc(data, fileCount)
  {
    var entries: seq<Entry> := [];
    var pos := HEADER_SIZE;
    var i := 0;
    while i < fileCount
      invariant 0 <= i <= fileCount && pos == EntryPos(i)
      invariant pos <= |data|
      invariant |entries| == i
      invariant forall j | 0 <= j < i :: entries[j] == DecodeEntry(data[EntryPos(j)..EntryPos(j) + ENTRY_SIZE])
    {
      EntryPosNext(i);
      if pos + ENTRY_SIZE > |data| {
        EntryPosMonotone(i + 1, fileCount as nat);
        return Err(UnexpectedEof);
      }
      entries := entries + [DecodeEntry(data[pos..pos + ENTRY_SIZE])];
      pos := pos + ENTRY_SIZE;
      i := i + 1;
    }
    assert entries == Toc(data, fileCount).value;
    r := Ok(entries);
  }

  // ---------------------------------------------------------------------
  // ZSize table
  // ---------------------------------------------------------------------

  /**
   * `(toc_length as usize - 32 - (file_count as usize * 30)) / 2`. The
   * subtraction is on `usize`: when the TOC length is too small for the entries
   * it underflows, which panics (and in a release build wraps to a count far
   * past the end of the file, whose first read then panics).
   */
  function ZSizeCount(tocLength: u32, fileCount: u32): (r: Result<nat, IoError>)
    ensures r.Ok? <==> tocLength >= EntryPos(fileCount)
    ensures r.Ok? ==> EntryPos(fileCount) + 2 * r.value <= tocLength <= EntryPos(fileCount) + 2 * r.value + 1
    ensures r.Err? ==> r.error == Panic
  {
    if tocLength < EntryPos(fileCount) then Err(Panic)
    else Ok((tocLength - EntryPos(fileCount)) / 2)
  }

  /**
   * `(0..count).map(|i| u16::from_be_bytes([mmap[pos], mmap[pos + 1]]))`: the
   * indexing panics when the table runs past the end of the input.
   */
  function ZSizeTable(data: seq<byte>, start: nat, count: nat): (r: Result<seq<u16>, IoError>)
    ensures r.Ok? <==> start + 2 * count <= |data|
    ensures r.Ok? ==> |r.value| == count
    ensures r.Ok? ==> forall i | 0 <= i < count :: r.value[i] == BeU16(data[start + 2 * i..start + 2 * i + 2])
    ensures r.Err? ==> r.error == Panic
  {
    if start + 2 * count > |data| then Err(Panic)
    else Ok(seq(count, i requires 0 <= i < count => BeU16(data[start + 2 * i..start + 2 * i + 2])))
  }

  /** The writer's zsize table: each value as a big-endian u16. */
  function EncodeZSizes(zs: seq<u16>): (s: seq<byte>)
    ensures |s| == 2 * |zs|
  {
    seq(2 * |zs|, j requires 0 <= j < 2 * |zs| => if j % 2 == 0 then zs[j / 2] / 0x100 else zs[j / 2] % 0x100)
  }

  lemma EncodeZSizesAt(zs: seq<u16>, i: nat)
    requires i < |zs|
    ensures EncodeZSizes(zs)[2 * i..2 * i + 2] == EncodeBeU16(zs[i])
  {
    var e := EncodeZSizes(zs);
    assert e[2 * i] == zs[i] / 0x100 && e[2 * i + 1] == zs[i] % 0x100;
  }

  /** Writing one more value appends its two bytes. */
  lemma EncodeZSizesSnoc(zs: seq<u16>, z: u16)
    ensures EncodeZSizes(zs + [z]) == EncodeZSizes(zs) + EncodeBeU16(z)
  {
    var a, b := EncodeZSizes(zs + [z]), EncodeZSizes(zs) + EncodeBeU16(z);
    forall j | 0 <= j < |a|
      ensures a[j] == b[j]
    {
      if j < 2 * |zs| {
        assert (zs + [z])[j / 2] == zs[j / 2];
      }
    }
  }

  lemma SliceMiddle(p: seq<byte>, e: seq<byte>, q: seq<byte>, a: nat, b: nat)
    requires a <= b <= |e|
    ensures (p + e + q)[|p| + a..|p| + b] == e[a..b]
  {
    assert (p + e + q)[|p|..|p| + |e|] == e;
  }

  lemma ZSizeAt(d: seq<byte>, prefix: seq<byte>, zs: seq<u16>, rest: seq<byte>, i: nat)
    requires d == prefix + EncodeZSizes(zs) + rest
    requires i < |zs|
    ensures |prefix| + 2 * i + 2 <= |d|
    ensures BeU16(d[|prefix| + 2 * i..|prefix| + 2 * i + 2]) == zs[i]
  {
    SliceMiddle(prefix, EncodeZSizes(zs), rest, 2 * i, 2 * i + 2);
    EncodeZSizesAt(zs, i);
  }

  lemma ZSizeTableOf(d: seq<byte>, start: nat, zs: seq<u16>)
    requires start + 2 * |zs| <= |d|
    requires forall i | 0 <= i < |zs| :: BeU16(d[start + 2 * i..start + 2 * i + 2]) == zs[i]
    ensures ZSizeTable(d, start, |zs|) == Ok(zs)
  {
    var v := ZSizeTable(d, start, |zs|).value;
    assert v == zs;
  }

  /** A written zsize table reads back unchanged, wherever it sits in the input. */
  lemma ZSizeTableRoundTrip(prefix: seq<byte>, zs: seq<u16>, rest: seq<byte>)
    ensures ZSizeTable(prefix + EncodeZSizes(zs) + rest, |prefix|, |zs|) == Ok(zs)
  {
    var d := prefix + EncodeZSizes(zs) + rest;
    forall i | 0 <= i < |zs|
      ensures BeU16(d[|prefix| + 2 * i..|prefix| + 2 * i + 2]) == zs[i]
    {
      ZSizeAt(d, prefix, zs, rest, i);
    }
    ZSizeTableOf(d, |prefix|, zs);
  }

  /**
   * The count the reader derives from the writer's
   * `toc_length = 32 + 30 * entries + 2 * zsizes` is the number of zsizes
   * written.
   */
  lemma ZSizeCountOfWrittenLength(entryCount: u32, zsizeCount: nat)
    requires EntryPos(entryCount) + 2 * zsizeCount < TWO32
    ensures ZSizeCount(EntryPos(entryCount) + 2 * zsizeCount, entryCount) == Ok(zsizeCount)
  {
  }

  // ---------------------------------------------------------------------
  // All metadata
  // ---------------------------------------------------------------------

  /**
   * Header, then the TOC through a cursor positioned at byte 32, then the zsize
   * table from the cursor position after the last entry.
   */
  function ReadTablesSpec(data: seq<byte>, checkCompression: bool): (r: Result<Tables, IoError>)
  {
    var header :- DecodeHeader(data, checkCompression);
    var entries :- Toc(data, header.fileCount);
    var count :- ZSizeCount(header.tocLength, header.fileCount);
    var zsizes :- ZSizeTable(data, EntryPos(header.fileCount), count);
    Ok(Tables(header, entries, zsizes))
  }

  /**
   * The metadata reads of `extract_psarc_internal` (with the compression check)
   * and of `load_psarc_cache` (without).
   */
  method ReadTables(data: seq<byte>, checkCompression: bool) returns (r: Result<Tables, IoError>)
    ensures r == ReadTablesSpec(data, checkCompression)
    ensures r.Ok? ==> |r.value.entries| == r.value.header.fileCount
    ensures r.Ok? ==> |r.value.zsizes| == (r.value.header.tocLength - EntryPos(r.value.header.fileCount)) / 2
  {
    var header :- DecodeHeader(data, checkCompression);
    var entries :- ReadToc(data, header.fileCount);
    var count :- ZSizeCount(header.tocLength, header.fileCount);
    var zsizes :- ZSizeTable(data, EntryPos(header.fileCount), count);
    r := Ok(Tables(header, entries, zsizes));
  }
}
