/**
 * The writer of src/psarc.rs (`pack_directory_internal`): how each block of
 * the manifest and of every file is stored, how the per-file block runs are
 * laid out one after another, and the bytes of the finished archive.
 */
module PsarcWrite {
  import opened Bytes
  import opened Blocks
  import opened PsarcToc
  import opened PsarcRead
  import opened Zlib

  /** One stored block: its zsize table value and the bytes written for it. */
  datatype Block = Block(zsize: u16, stored: seq<byte>)

  /**
   * The manifest loop and the file loop store blocks by different rules: the
   * manifest records every raw block with zsize 0, ordinary files record a raw
   * partial block with its own length.
   */
  datatype BlockRule = ManifestRule | FileRule

  /**
   * A block is stored compressed only if its compressed form is strictly
   * shorter; a raw block's zsize then depends on the rule.
   */
  function ChooseBlock(deflate: Deflate, chunk: seq<byte>, rule: BlockRule): Block
    requires 0 < |chunk| <= BLOCK_SIZE
  {
    var compressed := deflate(chunk);
    if |compressed| < |chunk| then Block(|compressed|, compressed)
    else match rule
      case ManifestRule => Block(0, chunk)
      case FileRule => Block(if |chunk| == BLOCK_SIZE then 0 else |chunk|, chunk)
  }

  /** A raw block of an ordinary file that is shorter than a full block. */
  predicate RawPartial(deflate: Deflate, chunk: seq<byte>)
  {
    |deflate(chunk)| >= |chunk| && |chunk| < BLOCK_SIZE
  }

  /**
   * For an ordinary file, the zsize says exactly how many bytes were stored:
   * 0 for a raw full block, the stored length otherwise; the stored bytes are
   * the chunk itself or its (strictly shorter) compressed form.
   */
  lemma FileBlockZSize(deflate: Deflate, chunk: seq<byte>)
    requires 0 < |chunk| <= BLOCK_SIZE
    requires |deflate(chunk)| > 0
    ensures var b := ChooseBlock(deflate, chunk, FileRule);
            && StoredLen(b.zsize, BLOCK_SIZE) == |b.stored|
            && (b.zsize == 0 <==> b.stored == chunk && |chunk| == BLOCK_SIZE)
            && (b.stored == chunk || (b.stored == deflate(chunk) && |b.stored| < |chunk|))
  {
  }

  /**
   * For the manifest, the zsize gives the stored length except for a raw
   * partial block: it is recorded as 0, so a reader takes a full block's worth
   * of bytes for it.
   */
  lemma ManifestBlockZSize(deflate: Deflate, chunk: seq<byte>)
    requires 0 < |chunk| <= BLOCK_SIZE
    requires |deflate(chunk)| > 0
    ensures var b := ChooseBlock(deflate, chunk, ManifestRule);
            && (StoredLen(b.zsize, BLOCK_SIZE) == |b.stored| <==> !RawPartial(deflate, chunk))
            && (RawPartial(deflate, chunk) ==> b.zsize == 0 && b.stored == chunk && |b.stored| < BLOCK_SIZE)
  {
  }

  /** The blocks of one file: `data.chunks(BLOCK_SIZE)`, each stored by `rule`. */
  function EncodeBlocks(deflate: Deflate, data: seq<byte>, rule: BlockRule): (r: seq<Block>)
    ensures |r| == BlockCount(|data|, BLOCK_SIZE)
  {
    var cs := Chunks(data, BLOCK_SIZE);
    seq(|cs|, k requires 0 <= k < |cs| => ChooseBlock(deflate, cs[k], rule))
  }

  function ZSizesOf(blocks: seq<Block>): (r: seq<u16>)
    ensures |r| == |blocks|
  {
    seq(|blocks|, k requires 0 <= k < |blocks| => blocks[k].zsize)
  }

  function StoredOf(blocks: seq<Block>): (r: seq<seq<byte>>)
    ensures |r| == |blocks|
  {
    seq(|blocks|, k requires 0 <= k < |blocks| => blocks[k].stored)
  }

  /** A file's blocks as the writer keeps them: its stored bytes, its zsizes and its length. */
  function Packed(deflate: Deflate, data: seq<byte>, rule: BlockRule): CachedFileData
  {
    var blocks := EncodeBlocks(deflate, data, rule);
    CachedFileData(Flatten(StoredOf(blocks)), ZSizesOf(blocks), |data|)
  }

  /** Extending a prefix of blocks by one block extends its bytes and zsizes. */
  lemma BlocksSnoc(blocks: seq<Block>, i: nat)
    requires i < |blocks|
    ensures Flatten(StoredOf(blocks[..i + 1])) == Flatten(StoredOf(blocks[..i])) + blocks[i].stored
    ensures ZSizesOf(blocks[..i + 1]) == ZSizesOf(blocks[..i]) + [blocks[i].zsize]
  {
    var ss := StoredOf(blocks[..i + 1]);
    assert ss[..i] == StoredOf(blocks[..i]);
    assert ss[i] == blocks[i].stored;
  }

  /**
   * The per-block loop of the manifest (rule ManifestRule) and of an ordinary
   * file (rule FileRule): every chunk is compressed, the stored form is chosen
   * and its bytes and zsize are appended. An empty file has no chunk.
   */
  method CompressBlocks(deflate: Deflate, data: seq<byte>, rule: BlockRule) returns (p: CachedFileData)
    ensures p == Packed(deflate, data, rule)
  {
    var chunks := Chunks(data, BLOCK_SIZE);
    ghost var blocks := EncodeBlocks(deflate, data, rule);
    var fileData: seq<byte> := [];
    var fileZsizes: seq<u16> := [];
    for i := 0 to |chunks|
      invariant fileData == Flatten(StoredOf(blocks[..i]))
      invariant fileZsizes == ZSizesOf(blocks[..i])
    {
      var compressed := deflate(chunks[i]);
      var finalData: seq<byte>;
      var zsize: u16;
      if |compressed| < |chunks[i]| {
        finalData, zsize := compressed, |compressed|;
      } else if rule == ManifestRule {
        finalData, zsize := chunks[i], 0;
      } else {
        finalData := chunks[i];
        zsize := if |chunks[i]| == BLOCK_SIZE then 0 else |chunks[i]|;
      }
      assert Block(zsize, finalData) == ChooseBlock(deflate, chunks[i], rule);
      BlocksSnoc(blocks, i);
      fileData := fileData + finalData;
      fileZsizes := fileZsizes + [zsize];
    }
    assert blocks[..|chunks|] == blocks;
    p := CachedFileData(fileData, fileZsizes, |data|);
  }

  // ---------------------------------------------------------------------
  // Layout of the block runs
  // ---------------------------------------------------------------------

  /**
   * Where a file's blocks come from: compressed now, or reused unchanged from
   * the cache of the previous archive (which of the two is the incremental
   * packing policy, not part of this model).
   */
  datatype Source = Fresh(content: seq<byte>) | Reused(cached: CachedFileData)

  function Process(deflate: Deflate, s: Source): CachedFileData
  {
    match s
    case Fresh(content) => Packed(deflate, content, FileRule)
    case Reused(cached) => cached
  }

  /** A named block run, in archive order: the manifest first, then the files. */
  datatype Run = Run(nameHash: Hash, blocks: CachedFileData)

  function Runs(deflate: Deflate, manifest: seq<byte>, files: seq<(Hash, Source)>): (r: seq<Run>)
    ensures |r| == |files| + 1
  {
    [Run(ZERO_HASH, Packed(deflate, manifest, ManifestRule))]
    + seq(|files|, i requires 0 <= i < |files| => Run(files[i].0, Process(deflate, files[i].1)))
  }

  /** The zsizes of the first `k` runs, concatenated. */
  function ZSizesBefore(runs: seq<Run>, k: nat): seq<u16>
    requires k <= |runs|
  {
    if k == 0 then [] else ZSizesBefore(runs, k - 1) + runs[k - 1].blocks.zsizes
  }

  /** The stored bytes of the first `k` runs, concatenated. */
  function DataBefore(runs: seq<Run>, k: nat): seq<byte>
    requires k <= |runs|
  {
    if k == 0 then [] else DataBefore(runs, k - 1) + runs[k - 1].blocks.compressedData
  }

  /**
   * The entry the writer records for run `i`: its zsizes start where the
   * previous runs' zsizes end (`zsizes.len() as u32`), and its data where the
   * previous runs' data end, counted from the start of the data area.
   */
  function LayoutEntry(runs: seq<Run>, i: nat): Entry
    requires i < |runs|
  {
    Entry(runs[i].nameHash, TruncU32(|ZSizesBefore(runs, i)|), runs[i].blocks.uncompressedSize, |DataBefore(runs, i)|)
  }

  function LayoutEntries(runs: seq<Run>): (r: seq<Entry>)
    ensures |r| == |runs|
  {
    seq(|runs|, i requires 0 <= i < |runs| => LayoutEntry(runs, i))
  }

  /**
   * The write phase of `pack_directory_internal`: the manifest's blocks, then
   * each file's processed blocks in order, each run pushing its entry, its
   * zsizes and its data.
   */
  method PackRuns(deflate: Deflate, manifest: seq<byte>, files: seq<(Hash, Source)>)
    returns (entries: seq<Entry>, zsizes: seq<u16>, data: seq<byte>)
    ensures var runs := Runs(deflate, manifest, files);
            && entries == LayoutEntries(runs)
            && zsizes == ZSizesBefore(runs, |runs|)
            && data == DataBefore(runs, |runs|)
  {
    ghost var runs := Runs(deflate, manifest, files);
    var m := CompressBlocks(deflate, manifest, ManifestRule);
    entries := [Entry(ZERO_HASH, TruncU32(0), |manifest|, 0)];
    zsizes := m.zsizes;
    data := m.compressedData;
    assert runs[0] == Run(ZERO_HASH, m);
    assert ZSizesBefore(runs, 1) == [] + zsizes && DataBefore(runs, 1) == [] + data;
    assert entries[0] == LayoutEntry(runs, 0);
    for i := 0 to |files|
      invariant |entries| == i + 1
      invariant forall j | 0 <= j <= i :: entries[j] == LayoutEntry(runs, j)
      invariant zsizes == ZSizesBefore(runs, i + 1)
      invariant data == DataBefore(runs, i + 1)
    {
      var processed: CachedFileData;
      match files[i].1 {
        case Fresh(content) =>
          processed := CompressBlocks(deflate, content, FileRule);
        case Reused(cached) =>
          processed := cached;
      }
      assert runs[i + 1] == Run(files[i].0, processed);
      entries := entries + [Entry(files[i].0, TruncU32(|zsizes|), processed.uncompressedSize, |data|)];
      zsizes := zsizes + processed.zsizes;
      data := data + processed.compressedData;
    }
  }

  // ---------------------------------------------------------------------
  // Archive bytes
  // ---------------------------------------------------------------------

  /** `toc_length = 32 + 30 * entries + 2 * zsizes`. */
  function TocLength(entryCount: nat, zsizeCount: nat): nat
  {
    HEADER_SIZE + ENTRY_SIZE * entryCount + 2 * zsizeCount
  }

  /** The 30-byte records, each with its offset made absolute by adding `toc`. */
  function EncodeEntries(entries: seq<Entry>, toc: nat): (s: seq<byte>)
    ensures |s| == ENTRY_SIZE * |entries|
  {
    if entries == [] then []
    else
      var e := entries[|entries| - 1];
      EncodeEntries(entries[..|entries| - 1], toc) + EncodeEntry(e.nameHash, e.zsizeIndex, e.uncompressedSize, e.offset + toc)
  }

  lemma EncodeEntriesSnoc(entries: seq<Entry>, i: nat, toc: nat)
    requires i < |entries|
    ensures EncodeEntries(entries[..i + 1], toc)
            == EncodeEntries(entries[..i], toc)
               + EncodeEntry(entries[i].nameHash, entries[i].zsizeIndex, entries[i].uncompressedSize, entries[i].offset + toc)
  {
    assert entries[..i + 1][..i] == entries[..i];
  }

  /** The six writes for one record are its 30-byte encoding. */
  lemma EntryRecord(nameHash: Hash, zsizeIndex: u32, size: nat, absOffset: nat)
    ensures nameHash + EncodeBeU32(zsizeIndex) + [High8(size)] + EncodeBeU32(Low32(size))
            + [High8(absOffset)] + EncodeBeU32(Low32(absOffset))
            == EncodeEntry(nameHash, zsizeIndex, size, absOffset)
  {
    assert Encode40(size) == [High8(size)] + EncodeBeU32(Low32(size));
    assert Encode40(absOffset) == [High8(absOffset)] + EncodeBeU32(Low32(absOffset));
  }

  /**
   * The archive: header (with `toc_length` and the entry count cast to u32),
   * the records, the zsize table, then the data.
   */
  function ArchiveBytes(entries: seq<Entry>, zsizes: seq<u16>, data: seq<byte>): seq<byte>
  {
    var toc := TocLength(|entries|, |zsizes|);
    EncodeHeader(toc, |entries|, BLOCK_SIZE) + EncodeEntries(entries, toc) + EncodeZSizes(zsizes) + data
  }

  /** Phase 3 of `pack_directory_internal`: the writes to the output file, in order. */
  method WriteArchive(entries: seq<Entry>, zsizes: seq<u16>, data: seq<byte>) returns (out: seq<byte>)
    ensures out == ArchiveBytes(entries, zsizes, data)
  {
    var tocLength := HEADER_SIZE + |entries| * 30 + |zsizes| * 2;
    out := MAGIC + EncodeBeU16(1) + EncodeBeU16(4) + ZLIB;
    out := out + EncodeBeU32(TruncU32(tocLength)) + EncodeBeU32(30) + EncodeBeU32(TruncU32(|entries|));
    out := out + EncodeBeU32(BLOCK_SIZE) + EncodeBeU32(1);
    assert out == EncodeHeader(tocLength, |entries|, BLOCK_SIZE);
    out := WriteEntries(out, entries, tocLength);
    out := WriteZSizes(out, zsizes);
    out := out + data;
  }

  /** The `for entry in &entries` loop: one 30-byte record per entry. */
  method WriteEntries(prefix: seq<byte>, entries: seq<Entry>, tocLength: nat) returns (out: seq<byte>)
    ensures out == prefix + EncodeEntries(entries, tocLength)
  {
    out := prefix;
    for i := 0 to |entries|
      invariant out == prefix + EncodeEntries(entries[..i], tocLength)
    {
      var e := entries[i];
      var absoluteOffset := e.offset + tocLength;
      var record := e.nameHash + EncodeBeU32(e.zsizeIndex)
        + [High8(e.uncompressedSize)] + EncodeBeU32(Low32(e.uncompressedSize))
        + [High8(absoluteOffset)] + EncodeBeU32(Low32(absoluteOffset));
      EntryRecord(e.nameHash, e.zsizeIndex, e.uncompressedSize, absoluteOffset);
      EncodeEntriesSnoc(entries, i, tocLength);
      assert out + record == prefix + (EncodeEntries(entries[..i], tocLength) + record);
      out := out + record;
    }
    assert entries[..|entries|] == entries;
  }

  /** The `for zsize in &zsizes` loop: one big-endian u16 per block. */
  method WriteZSizes(prefix: seq<byte>, zsizes: seq<u16>) returns (out: seq<byte>)
    ensures out == prefix + EncodeZSizes(zsizes)
  {
    out := prefix;
    for i := 0 to |zsizes|
      invariant out == prefix + EncodeZSizes(zsizes[..i])
    {
      EncodeZSizesSnoc(zsizes[..i], zsizes[i]);
      assert zsizes[..i + 1] == zsizes[..i] + [zsizes[i]];
      out := out + EncodeBeU16(zsizes[i]);
    }
    assert zsizes[..|zsizes|] == zsizes;
  }

  /**
   * `pack_directory_internal` from the resolved, hashed file list onwards:
   * the archive assembled from the manifest text and every file's blocks.
   */
  function PackedArchive(deflate: Deflate, manifest: seq<byte>, files: seq<(Hash, Source)>): seq<byte>
  {
    var runs := Runs(deflate, manifest, files);
    ArchiveBytes(LayoutEntries(runs), ZSizesBefore(runs, |runs|), DataBefore(runs, |runs|))
  }

  method PackArchive(deflate: Deflate, manifest: seq<byte>, files: seq<(Hash, Source)>) returns (out: seq<byte>)
    ensures out == PackedArchive(deflate, manifest, files)
  {
    var entries, zsizes, data := PackRuns(deflate, manifest, files);
    out := WriteArchive(entries, zsizes, data);
  }
}
