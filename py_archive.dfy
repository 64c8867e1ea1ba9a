/**
 * The Python reference reader of psarc_compare.py and psarc_parse_tmp.py set
 * against the Rust side of src/psarc.rs: where the Rust reader decodes an
 * archive's tables, `load_psarc` decodes the same ones, and on an archive the
 * Rust writer produced, `extract_entry` gives back the manifest and every
 * file except one whose last block is a raw partial block. The Python reader
 * takes every non-zero zsize for a compressed block, so such a block is
 * handed to zlib.
 */
module PyArchiveReads {
  import opened Bytes
  import opened Wrappers
  import opened Blocks
  import opened PsarcToc
  import opened Zlib
  import opened PsarcWrite
  import opened PsarcRoundTrip
  import opened PsarcArchive
  import opened PyReader

  // ---------------------------------------------------------------------
  // The tables
  // ---------------------------------------------------------------------

  /** A Python entry dictionary holding the fields of a Rust table entry. */
  predicate Agrees(p: PyEntry, e: Entry)
  {
    && p.hash == e.nameHash && p.zidx == e.zsizeIndex
    && p.uncomp == e.uncompressedSize && p.offset == e.offset
  }

  /** A whole 30-byte record decodes to the same fields in both readers. */
  lemma RecordAgrees(data: seq<byte>, k: nat)
    requires EntryPos(k) + ENTRY_SIZE <= |data|
    ensures DecodePyEntry(Record(data, ENTRY_SIZE, k)).Ok?
    ensures Agrees(DecodePyEntry(Record(data, ENTRY_SIZE, k)).value, DecodeEntry(data[EntryPos(k)..EntryPos(k) + ENTRY_SIZE]))
  {
    var e := data[EntryPos(k)..EntryPos(k) + ENTRY_SIZE];
    assert Record(data, ENTRY_SIZE, k) == e;
    BeIntFive(e[20..25]);
    BeIntFive(e[25..30]);
  }

  /** With 30-byte records that all fit, the Python record loop succeeds. */
  lemma {:induction false} PyEntriesOk(data: seq<byte>, n: nat)
    requires EntryPos(n) <= |data|
    ensures PyEntries(data, ENTRY_SIZE, n).Ok?
  {
    if n > 0 {
      PyEntriesOk(data, n - 1);
      RecordAgrees(data, n - 1);
      var init := PyEntries(data, ENTRY_SIZE, n - 1);
      var e := DecodePyEntry(Record(data, ENTRY_SIZE, n - 1));
      assert init.Ok? && e.Ok?;
    }
  }

  /** ... and its entries are the Rust ones. */
  lemma PyEntriesAgree(data: seq<byte>, n: nat)
    requires EntryPos(n) <= |data|
    ensures PyEntries(data, ENTRY_SIZE, n).Ok?
    ensures forall k | 0 <= k < n ::
              Agrees(PyEntries(data, ENTRY_SIZE, n).value[k], DecodeEntry(data[EntryPos(k)..EntryPos(k) + ENTRY_SIZE]))
  {
    PyEntriesOk(data, n);
    forall k | 0 <= k < n
      ensures Agrees(PyEntries(data, ENTRY_SIZE, n).value[k], DecodeEntry(data[EntryPos(k)..EntryPos(k) + ENTRY_SIZE]))
    {
      RecordAgrees(data, k);
    }
  }

  /** For a non-negative byte count both readers take the same number of zsizes. */
  lemma ZSizeCountsAgree(tocLength: u32, fileCount: u32)
    requires ZSizeCount(tocLength, fileCount).Ok?
    ensures PyZSizeCount(tocLength, ENTRY_SIZE, fileCount) == ZSizeCount(tocLength, fileCount).value
  {
  }

  /**
   * Wherever the Rust reader decodes an archive's tables and the header
   * declares 30-byte entries, `load_psarc` succeeds with the same header
   * fields, the same entries, the same zsize table and `data_start` at the
   * TOC length.
   */
  lemma LoadAgreesWithTables(data: seq<byte>, check: bool)
    requires ReadTablesSpec(data, check).Ok?
    requires ReadTablesSpec(data, check).value.header.entrySize == ENTRY_SIZE
    ensures LoadPsarcSpec(data).Ok?
    ensures LoadMatches(LoadPsarcSpec(data).value, ReadTablesSpec(data, check).value, data)
  {
    var t := ReadTablesSpec(data, check).value;
    TablesParts(data, check);
    LoadAgreesWithParts(data, check, t.header, t.entries, t.zsizes);
  }

  /** The same, from the pieces the Rust reader decodes. */
  lemma LoadAgreesWithParts(data: seq<byte>, check: bool, h: Header, entries: seq<Entry>, zsizes: seq<u16>)
    requires DecodeHeader(data, check) == Ok(h) && h.entrySize == ENTRY_SIZE
    requires Toc(data, h.fileCount) == Ok(entries)
    requires ZSizeCount(h.tocLength, h.fileCount).Ok?
    requires ZSizeTable(data, EntryPos(h.fileCount), ZSizeCount(h.tocLength, h.fileCount).value) == Ok(zsizes)
    ensures LoadPsarcSpec(data).Ok?
    ensures LoadMatches(LoadPsarcSpec(data).value, Tables(h, entries, zsizes), data)
  {
    var n := h.fileCount;
    assert PyEntries(data, ENTRY_SIZE, n).Ok? by {
      PyEntriesOk(data, n);
    }
    var pys := PyEntries(data, ENTRY_SIZE, n).value;
    assert forall k | 0 <= k < n :: Agrees(pys[k], DecodeEntry(data[EntryPos(k)..EntryPos(k) + ENTRY_SIZE])) by {
      PyEntriesAgree(data, n);
    }
    assert PyZSizes(data, RecordPos(ENTRY_SIZE, n), PyZSizeCount(h.tocLength, ENTRY_SIZE, n)) == Ok(zsizes) by {
      var count := ZSizeCount(h.tocLength, n).value;
      ZSizeCountsAgree(h.tocLength, n);
      PyZSizesOfTable(data, EntryPos(n), count);
      assert RecordPos(ENTRY_SIZE, n) == EntryPos(n);
    }
    LoadOf(data, pys, zsizes, h);
    PartsMatch(data, h, entries, zsizes, pys);
  }

  /** The archive `load_psarc` builds from agreeing records matches the Rust tables. */
  lemma PartsMatch(data: seq<byte>, h: Header, entries: seq<Entry>, zsizes: seq<u16>, pys: seq<PyEntry>)
    requires h.entrySize == ENTRY_SIZE && Toc(data, h.fileCount) == Ok(entries)
    requires |pys| == h.fileCount
    requires forall k | 0 <= k < h.fileCount :: Agrees(pys[k], DecodeEntry(data[EntryPos(k)..EntryPos(k) + ENTRY_SIZE]))
    ensures LoadMatches(PyArchive(h.major, h.minor, ENTRY_SIZE, h.fileCount, h.blockSize, h.flags, pys, zsizes, data, h.tocLength),
                        Tables(h, entries, zsizes), data)
  {
    forall k | 0 <= k < |entries|
      ensures Agrees(pys[k], entries[k])
    {
      assert entries[k] == DecodeEntry(data[EntryPos(k)..EntryPos(k) + ENTRY_SIZE]);
    }
  }

  /**
   * What `load_psarc` gives back where the Rust reader decodes the tables
   * `t`: the same header fields, entries that agree one by one, the same
   * zsize table and `data_start` at the TOC length.
   */
  predicate LoadMatches(a: PyArchive, t: Tables, data: seq<byte>)
  {
    && a.data == data
    && a.major == t.header.major && a.minor == t.header.minor
    && a.fileCount == t.header.fileCount && a.blockSize == t.header.blockSize
    && a.flags == t.header.flags && a.dataStart == t.header.tocLength
    && |a.entries| == |t.entries|
    && (forall k | 0 <= k < |t.entries| :: Agrees(a.entries[k], t.entries[k]))
    && a.zsizes == t.zsizes
  }

  /** The parts of a successful Rust table decode. */
  lemma TablesParts(data: seq<byte>, check: bool)
    requires ReadTablesSpec(data, check).Ok?
    ensures var t := ReadTablesSpec(data, check).value;
            && DecodeHeader(data, check) == Ok(t.header)
            && Toc(data, t.header.fileCount) == Ok(t.entries)
            && ZSizeCount(t.header.tocLength, t.header.fileCount).Ok?
            && ZSizeTable(data, EntryPos(t.header.fileCount), ZSizeCount(t.header.tocLength, t.header.fileCount).value)
               == Ok(t.zsizes)
  {
  }

  /** Where the Rust zsize table decodes, the Python comprehension decodes the same values. */
  lemma PyZSizesOfTable(data: seq<byte>, start: nat, count: nat)
    requires ZSizeTable(data, start, count).Ok?
    ensures PyZSizes(data, start, count) == Ok(ZSizeTable(data, start, count).value)
  {
    var r := PyZSizes(data, start, count).value;
    var u := ZSizeTable(data, start, count).value;
    assert r == u;
  }

  /** `load_psarc` on an input whose header, records and zsizes all decode. */
  lemma LoadOf(data: seq<byte>, entries: seq<PyEntry>, zsizes: seq<u16>, h: Header)
    requires DecodeHeader(data, false).Ok? || DecodeHeader(data, true).Ok?
    requires DecodeHeader(data, false) == Ok(h) || DecodeHeader(data, true) == Ok(h)
    requires h.entrySize == ENTRY_SIZE
    requires PyEntries(data, ENTRY_SIZE, h.fileCount) == Ok(entries)
    requires PyZSizes(data, RecordPos(ENTRY_SIZE, h.fileCount), PyZSizeCount(h.tocLength, ENTRY_SIZE, h.fileCount)) == Ok(zsizes)
    ensures LoadPsarcSpec(data) == Ok(PyArchive(h.major, h.minor, ENTRY_SIZE, h.fileCount, h.blockSize, h.flags,
                                                 entries, zsizes, data, h.tocLength))
  {
    assert Clip(data, 0, 4) == data[..4];
  }

  // ---------------------------------------------------------------------
  // One written run
  // ---------------------------------------------------------------------

  /**
   * Where the blocks of a run are for the Python reader: their zsizes at
   * `idx` and their stored bytes at `off`. Unlike the Rust reader it needs no
   * room beyond the bytes actually stored.
   */
  predicate StoredAt(data: seq<byte>, zsizes: seq<u16>, idx: nat, off: nat, blocks: seq<Block>)
  {
    && idx + |blocks| <= |zsizes| && zsizes[idx..idx + |blocks|] == ZSizesOf(blocks)
    && off <= |data| && Flatten(StoredOf(blocks)) <= data[off..]
  }

  lemma StoredFront(data: seq<byte>, zsizes: seq<u16>, idx: nat, off: nat, b: Block, rest: seq<Block>)
    requires StoredAt(data, zsizes, idx, off, [b] + rest)
    ensures zsizes[idx] == b.zsize
    ensures off + |b.stored| <= |data| && data[off..off + |b.stored|] == b.stored
    ensures StoredAt(data, zsizes, idx + 1, off + |b.stored|, rest)
  {
    BlocksFront(b, rest);
    var n := 1 + |rest|;
    assert zsizes[idx] == zsizes[idx..idx + n][0];
    assert zsizes[idx + 1..idx + n] == zsizes[idx..idx + n][1..];
    assert ZSizesOf(rest) == ZSizesOf([b] + rest)[1..];
    var tail := data[off..];
    assert b.stored + Flatten(StoredOf(rest)) <= tail;
    assert data[off..off + |b.stored|] == tail[..|b.stored|];
    assert data[off + |b.stored|..] == tail[|b.stored|..];
  }

  /**
   * One iteration of `extract_entry` over a block the writer stored, when it
   * is not a raw partial block of an ordinary file: a compressed block has a
   * non-zero zsize and inflates to the chunk, a raw one has zsize 0 and is
   * copied.
   */
  lemma PyWrittenBlock(data: seq<byte>, deflate: Deflate, inflate: Inflate, chunk: seq<byte>, rule: BlockRule, off: nat)
    requires ZlibPair(deflate, inflate)
    requires 0 < |chunk| <= BLOCK_SIZE
    requires rule == FileRule ==> !RawPartial(deflate, chunk)
    requires off + |ChooseBlock(deflate, chunk, rule).stored| <= |data|
    requires data[off..off + |ChooseBlock(deflate, chunk, rule).stored|] == ChooseBlock(deflate, chunk, rule).stored
    ensures PyBlock(data, ChooseBlock(deflate, chunk, rule).zsize, off, |chunk|, inflate)
            == Ok(Step(chunk, off + |ChooseBlock(deflate, chunk, rule).stored|))
  {
    var b := ChooseBlock(deflate, chunk, rule);
    assert LooksLikeZlib(deflate(chunk));
    if |deflate(chunk)| < |chunk| {
      assert b.zsize == |b.stored| > 0;
      assert Clip(data, off, off + b.zsize) == deflate(chunk);
    }
  }

  /**
   * `extract_entry`'s loop over a run the writer stored reads back the data,
   * provided the run does not end in a raw partial block of an ordinary file.
   */
  lemma {:induction false} PyReadsWrittenRun(data: seq<byte>, zsizes: seq<u16>, deflate: Deflate, inflate: Inflate,
                                             rule: BlockRule, idx: nat, off: nat, content: seq<byte>)
    requires ZlibPair(deflate, inflate)
    requires StoredAt(data, zsizes, idx, off, EncodeBlocks(deflate, content, rule))
    requires rule == FileRule && content != [] ==> !RawPartial(deflate, LastChunk(content))
    ensures PyLoop(data, zsizes, idx, off, |content|, inflate) == Ok(content)
    decreases |content|, 1
  {
    if |content| > BLOCK_SIZE {
      PyMoreFirstBlock(data, zsizes, deflate, inflate, rule, idx, off, content);
      LastChunkOfRest(content);
      PyReadsWrittenMore(data, zsizes, deflate, inflate, rule, idx, off, content,
                         off + |ChooseBlock(deflate, content[..BLOCK_SIZE], rule).stored|);
    } else if content != [] {
      PyReadsLastBlock(data, zsizes, deflate, inflate, rule, idx, off, content);
    }
  }

  /** A run of one block, possibly partial. */
  lemma PyReadsLastBlock(data: seq<byte>, zsizes: seq<u16>, deflate: Deflate, inflate: Inflate,
                         rule: BlockRule, idx: nat, off: nat, content: seq<byte>)
    requires ZlibPair(deflate, inflate)
    requires 0 < |content| <= BLOCK_SIZE
    requires StoredAt(data, zsizes, idx, off, EncodeBlocks(deflate, content, rule))
    requires rule == FileRule ==> !RawPartial(deflate, LastChunk(content))
    ensures PyLoop(data, zsizes, idx, off, |content|, inflate) == Ok(content)
  {
    var b := ChooseBlock(deflate, content, rule);
    SingleStoredAt(data, zsizes, idx, off, deflate, content, rule);
    assert LastChunk(content) == content;
    assert BlockUncomp(|content|) == |content|;
    PyWrittenBlock(data, deflate, inflate, content, rule, off);
    PyLoopUnfold(data, zsizes, idx, off, |content|, inflate, Step(content, off + |b.stored|));
    assert content + [] == content;
  }

  /** A run of a full block, read up to `next`, followed by more. */
  lemma {:induction false} PyReadsWrittenMore(data: seq<byte>, zsizes: seq<u16>, deflate: Deflate, inflate: Inflate,
                                              rule: BlockRule, idx: nat, off: nat, content: seq<byte>, next: nat)
    requires ZlibPair(deflate, inflate)
    requires |content| > BLOCK_SIZE && idx < |zsizes|
    requires PyBlock(data, zsizes[idx], off, BlockUncomp(|content|), inflate) == Ok(Step(content[..BLOCK_SIZE], next))
    requires StoredAt(data, zsizes, idx + 1, next, EncodeBlocks(deflate, content[BLOCK_SIZE..], rule))
    requires rule == FileRule ==> !RawPartial(deflate, LastChunk(content[BLOCK_SIZE..]))
    ensures PyLoop(data, zsizes, idx, off, |content|, inflate) == Ok(content)
    decreases |content|, 0
  {
    var chunk, tail := content[..BLOCK_SIZE], content[BLOCK_SIZE..];
    PyReadsWrittenRun(data, zsizes, deflate, inflate, rule, idx + 1, next, tail);
    PyLoopStepTo(data, zsizes, idx, off, |content|, inflate, Step(chunk, next), |tail|, Ok(tail));
    assert chunk + tail == content;
  }

  /**
   * The first block of a run of more than one, as the loop meets it: its
   * zsize is at `idx` and it reads back as the first chunk; the rest of the
   * run is where the loop goes on.
   */
  lemma PyMoreFirstBlock(data: seq<byte>, zsizes: seq<u16>, deflate: Deflate, inflate: Inflate,
                         rule: BlockRule, idx: nat, off: nat, content: seq<byte>)
    requires ZlibPair(deflate, inflate)
    requires |content| > BLOCK_SIZE
    requires StoredAt(data, zsizes, idx, off, EncodeBlocks(deflate, content, rule))
    ensures idx < |zsizes|
    ensures PyBlock(data, zsizes[idx], off, BlockUncomp(|content|), inflate)
            == Ok(Step(content[..BLOCK_SIZE], off + |ChooseBlock(deflate, content[..BLOCK_SIZE], rule).stored|))
    ensures StoredAt(data, zsizes, idx + 1, off + |ChooseBlock(deflate, content[..BLOCK_SIZE], rule).stored|,
                     EncodeBlocks(deflate, content[BLOCK_SIZE..], rule))
  {
    EncodeBlocksFront(deflate, content, rule);
    var chunk, tail := content[..BLOCK_SIZE], content[BLOCK_SIZE..];
    var b := ChooseBlock(deflate, chunk, rule);
    StoredFront(data, zsizes, idx, off, b, EncodeBlocks(deflate, tail, rule));
    assert BlockUncomp(|content|) == BLOCK_SIZE;
    PyWrittenBlock(data, deflate, inflate, chunk, rule, off);
  }

  /**
   * The loop over a written file whose last chunk is a raw partial block that
   * is not a zlib stream: every full block before it reads back, then its
   * non-zero zsize sends it to zlib, which raises.
   */
  lemma {:induction false} PyMisreadsWrittenRun(data: seq<byte>, zsizes: seq<u16>, deflate: Deflate, inflate: Inflate,
                                                idx: nat, off: nat, content: seq<byte>)
    requires ZlibPair(deflate, inflate)
    requires StoredAt(data, zsizes, idx, off, EncodeBlocks(deflate, content, FileRule))
    requires content != [] && RawPartial(deflate, LastChunk(content)) && inflate(LastChunk(content)) == None
    ensures PyLoop(data, zsizes, idx, off, |content|, inflate) == Err(ZlibError)
    decreases |content|, 1
  {
    if |content| > BLOCK_SIZE {
      PyMoreFirstBlock(data, zsizes, deflate, inflate, FileRule, idx, off, content);
      LastChunkOfRest(content);
      PyMisreadsWrittenMore(data, zsizes, deflate, inflate, idx, off, content,
                            off + |ChooseBlock(deflate, content[..BLOCK_SIZE], FileRule).stored|);
    } else {
      assert LastChunk(content) == content;
      PyMisreadsLastBlock(data, zsizes, deflate, inflate, idx, off, content);
    }
  }

  lemma {:induction false} PyMisreadsWrittenMore(data: seq<byte>, zsizes: seq<u16>, deflate: Deflate, inflate: Inflate,
                                                 idx: nat, off: nat, content: seq<byte>, next: nat)
    requires ZlibPair(deflate, inflate)
    requires |content| > BLOCK_SIZE && idx < |zsizes|
    requires PyBlock(data, zsizes[idx], off, BlockUncomp(|content|), inflate) == Ok(Step(content[..BLOCK_SIZE], next))
    requires StoredAt(data, zsizes, idx + 1, next, EncodeBlocks(deflate, content[BLOCK_SIZE..], FileRule))
    requires RawPartial(deflate, LastChunk(content[BLOCK_SIZE..])) && inflate(LastChunk(content[BLOCK_SIZE..])) == None
    ensures PyLoop(data, zsizes, idx, off, |content|, inflate) == Err(ZlibError)
    decreases |content|, 0
  {
    var chunk, tail := content[..BLOCK_SIZE], content[BLOCK_SIZE..];
    PyMisreadsWrittenRun(data, zsizes, deflate, inflate, idx + 1, next, tail);
    PyLoopStepTo(data, zsizes, idx, off, |content|, inflate, Step(chunk, next), |tail|, Err(ZlibError));
  }

  lemma PyMisreadsLastBlock(data: seq<byte>, zsizes: seq<u16>, deflate: Deflate, inflate: Inflate,
                            idx: nat, off: nat, content: seq<byte>)
    requires 0 < |content| <= BLOCK_SIZE
    requires StoredAt(data, zsizes, idx, off, EncodeBlocks(deflate, content, FileRule))
    requires RawPartial(deflate, content) && inflate(content) == None
    ensures PyLoop(data, zsizes, idx, off, |content|, inflate) == Err(ZlibError)
  {
    var b := ChooseBlock(deflate, content, FileRule);
    SingleStoredAt(data, zsizes, idx, off, deflate, content, FileRule);
    assert b.zsize == |content| > 0 && b.stored == content;
    assert Clip(data, off, off + b.zsize) == content;
    PyLoopBlockFails(data, zsizes, idx, off, |content|, inflate);
  }

  /** The single block of a run no longer than a block: its zsize at `idx`, its stored bytes at `off`. */
  lemma SingleStoredAt(data: seq<byte>, zsizes: seq<u16>, idx: nat, off: nat,
                       deflate: Deflate, content: seq<byte>, rule: BlockRule)
    requires 0 < |content| <= BLOCK_SIZE
    requires StoredAt(data, zsizes, idx, off, EncodeBlocks(deflate, content, rule))
    ensures idx < |zsizes| && zsizes[idx] == ChooseBlock(deflate, content, rule).zsize
    ensures off + |ChooseBlock(deflate, content, rule).stored| <= |data|
    ensures data[off..off + |ChooseBlock(deflate, content, rule).stored|] == ChooseBlock(deflate, content, rule).stored
  {
    EncodeBlocksFront(deflate, content, rule);
    var b := ChooseBlock(deflate, content, rule);
    assert EncodeBlocks(deflate, content, rule) == [b] + [];
    StoredFront(data, zsizes, idx, off, b, []);
  }

  /** An iteration whose block raises ends the loop with that exception. */
  lemma PyLoopBlockFails(data: seq<byte>, zsizes: seq<u16>, zidx: nat, cursor: nat, remaining: nat, inflate: Inflate)
    requires remaining > 0 && zidx < |zsizes|
    requires PyBlock(data, zsizes[zidx], cursor, BlockUncomp(remaining), inflate).Err?
    ensures PyLoop(data, zsizes, zidx, cursor, remaining, inflate)
            == Err(PyBlock(data, zsizes[zidx], cursor, BlockUncomp(remaining), inflate).error)
  {
  }

  // ---------------------------------------------------------------------
  // Written archives
  // ---------------------------------------------------------------------

  /**
   * Run `i` of a written archive, loaded by `load_psarc`: its entry points at
   * its zsizes and its stored bytes.
   */
  lemma PyEntryOfRun(runs: seq<Run>, i: nat, deflate: Deflate, content: seq<byte>, rule: BlockRule)
    requires Fits(runs) && i < |runs| && runs[i].blocks == Packed(deflate, content, rule)
    ensures var a := LoadPsarcSpec(ArchiveOf(runs));
            && a.Ok? && |a.value.entries| == |runs| && a.value.data == ArchiveOf(runs)
            && a.value.entries[i].uncomp == |content|
            && StoredAt(a.value.data, a.value.zsizes, a.value.entries[i].zidx, a.value.entries[i].offset,
                        EncodeBlocks(deflate, content, rule))
  {
    LoadOfRuns(runs);
    var a := LoadPsarcSpec(ArchiveOf(runs)).value;
    var e := Absolute(LayoutEntries(runs), TocOf(runs))[i];
    LayoutEntryRead(runs, i);
    RunPlacedForPy(runs, i, deflate, content, rule, a.data, a.zsizes, a.entries[i], e);
  }

  /** `load_psarc` on a written archive: the Rust tables, entry by entry. */
  lemma LoadOfRuns(runs: seq<Run>)
    requires Fits(runs)
    ensures LoadPsarcSpec(ArchiveOf(runs)).Ok?
    ensures LoadMatches(LoadPsarcSpec(ArchiveOf(runs)).value,
                        Tables(Header(1, 4, ZLIB, TocOf(runs), 30, |runs|, BLOCK_SIZE, 1),
                               Absolute(LayoutEntries(runs), TocOf(runs)), AllZSizes(runs)),
                        ArchiveOf(runs))
  {
    ArchiveTables(runs, false);
    LoadAgreesWithTables(ArchiveOf(runs), false);
  }

  /** A Python entry agreeing with the Rust entry of run `i` points at the run's stored blocks. */
  lemma RunPlacedForPy(runs: seq<Run>, i: nat, deflate: Deflate, content: seq<byte>, rule: BlockRule,
                       data: seq<byte>, zsizes: seq<u16>, p: PyEntry, e: Entry)
    requires i < |runs| && runs[i].blocks == Packed(deflate, content, rule)
    requires data == ArchiveOf(runs) && zsizes == AllZSizes(runs)
    requires EntryOf(runs, i, e) && Agrees(p, e)
    ensures p.uncomp == |content|
    ensures StoredAt(data, zsizes, p.zidx, p.offset, EncodeBlocks(deflate, content, rule))
  {
    RunPlaced(runs, i);
  }

  /**
   * Every file run the writer stored without a raw partial last block, the
   * empty file included, comes back from `load_psarc` and `extract_entry`
   * as its bytes.
   */
  lemma PyReadsFile(runs: seq<Run>, i: nat, deflate: Deflate, inflate: Inflate, content: seq<byte>)
    requires ZlibPair(deflate, inflate)
    requires Fits(runs) && i < |runs| && runs[i].blocks == Packed(deflate, content, FileRule)
    requires content != [] ==> !RawPartial(deflate, LastChunk(content))
    ensures var a := LoadPsarcSpec(ArchiveOf(runs));
            a.Ok? && ExtractEntrySpec(a.value, i, inflate) == Ok(content)
  {
    PyEntryOfRun(runs, i, deflate, content, FileRule);
    var a := LoadPsarcSpec(ArchiveOf(runs)).value;
    var e := a.entries[i];
    PyReadsWrittenRun(a.data, a.zsizes, deflate, inflate, FileRule, e.zidx, e.offset, content);
  }

  /**
   * A file whose last block was stored raw and partial (zsize equal to its
   * length) is handed to zlib by `extract_entry`: when it is not a zlib
   * stream the extraction raises.
   */
  lemma PyRawPartialFile(runs: seq<Run>, i: nat, deflate: Deflate, inflate: Inflate, content: seq<byte>)
    requires ZlibPair(deflate, inflate)
    requires Fits(runs) && i < |runs| && runs[i].blocks == Packed(deflate, content, FileRule)
    requires content != [] && RawPartial(deflate, LastChunk(content)) && inflate(LastChunk(content)) == None
    ensures var a := LoadPsarcSpec(ArchiveOf(runs));
            a.Ok? && ExtractEntrySpec(a.value, i, inflate) == Err(ZlibError)
  {
    PyEntryOfRun(runs, i, deflate, content, FileRule);
    var a := LoadPsarcSpec(ArchiveOf(runs)).value;
    var e := a.entries[i];
    PyMisreadsWrittenRun(a.data, a.zsizes, deflate, inflate, e.zidx, e.offset, content);
  }

  /**
   * The manifest, run 0, always comes back from `extract_entry`: its raw
   * blocks all carry zsize 0 and the reader copies `min(BLOCK_SIZE,
   * remaining)` bytes for each.
   */
  lemma PyReadsManifest(runs: seq<Run>, deflate: Deflate, inflate: Inflate, manifest: seq<byte>)
    requires ZlibPair(deflate, inflate)
    requires Fits(runs) && |runs| > 0 && runs[0] == Run(ZERO_HASH, Packed(deflate, manifest, ManifestRule))
    ensures var a := LoadPsarcSpec(ArchiveOf(runs));
            && a.Ok? && |a.value.entries| > 0 && a.value.entries[0].hash == ZERO_HASH
            && ExtractEntrySpec(a.value, 0, inflate) == Ok(manifest)
  {
    PyEntryOfRun(runs, 0, deflate, manifest, ManifestRule);
    ArchiveTables(runs, false);
    LoadAgreesWithTables(ArchiveOf(runs), false);
    EntryOfRun(runs, 0, false);
    var a := LoadPsarcSpec(ArchiveOf(runs)).value;
    var e := a.entries[0];
    PyReadsWrittenRun(a.data, a.zsizes, deflate, inflate, ManifestRule, e.zidx, e.offset, manifest);
  }

  /**
   * The two readers part on the manifest quirk: a single raw partial
   * manifest block in an archive with less than a block of data fails in
   * `read_file_data` but comes back whole from `extract_entry`.
   */
  lemma QuirkyManifestReaders(runs: seq<Run>, deflate: Deflate, inflate: Inflate, manifest: seq<byte>,
                              v: PsarcRead.Variant, check: bool)
    requires ZlibPair(deflate, inflate)
    requires Fits(runs) && |runs| > 0 && runs[0] == Run(ZERO_HASH, Packed(deflate, manifest, ManifestRule))
    requires 0 < |manifest| && RawPartial(deflate, manifest)
    requires |AllData(runs)| < BLOCK_SIZE
    ensures var t := ReadTablesSpec(ArchiveOf(runs), check);
            && t.Ok? && |t.value.entries| > 0
            && PsarcRead.ReadFileDataSpec(ArchiveOf(runs), t.value.entries[0], t.value.zsizes, t.value.header.blockSize,
                                          inflate, v) == Err(PsarcToc.InvalidData)
    ensures var a := LoadPsarcSpec(ArchiveOf(runs));
            a.Ok? && ExtractEntrySpec(a.value, 0, inflate) == Ok(manifest)
  {
    ManifestQuirk(runs, deflate, inflate, manifest, v, check);
    PyReadsManifest(runs, deflate, inflate, manifest);
  }
}
