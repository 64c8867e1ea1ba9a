/**
 * Whole archives: the metadata of an archive the writer produced reads back
 * as the entries and zsizes it laid out, each file's entry reads back as the
 * file's bytes, and the blocks `load_psarc_cache` copies out of it are the
 * blocks that were written.
 */
module PsarcArchive {
  import opened Bytes
  import opened Wrappers
  import opened Blocks
  import opened PsarcToc
  import opened Zlib
  import opened PsarcRead
  import opened PsarcWrite
  import opened PsarcRoundTrip

  // ---------------------------------------------------------------------
  // Metadata
  // ---------------------------------------------------------------------

  /** The entries as the reader sees them: offsets counted from the start of the archive. */
  function Absolute(entries: seq<Entry>, toc: nat): (r: seq<Entry>)
    ensures |r| == |entries|
  {
    seq(|entries|, i requires 0 <= i < |entries| => entries[i].(offset := entries[i].offset + toc))
  }

  /** Record `i` of the written table sits at bytes `30 i .. 30 i + 30`. */
  lemma {:induction false} EncodeEntriesAt(entries: seq<Entry>, toc: nat, i: nat)
    requires i < |entries|
    ensures EncodeEntries(entries, toc)[ENTRY_SIZE * i..ENTRY_SIZE * i + ENTRY_SIZE]
            == EncodeEntry(entries[i].nameHash, entries[i].zsizeIndex, entries[i].uncompressedSize, entries[i].offset + toc)
    decreases |entries|
  {
    var front := entries[..|entries| - 1];
    var e := entries[|entries| - 1];
    var p := EncodeEntries(front, toc);
    var q := EncodeEntry(e.nameHash, e.zsizeIndex, e.uncompressedSize, e.offset + toc);
    assert EncodeEntries(entries, toc) == p + q;
    var a, b := ENTRY_SIZE * i, ENTRY_SIZE * i + ENTRY_SIZE;
    if i < |entries| - 1 {
      assert front[i] == entries[i];
      EncodeEntriesAt(front, toc, i);
      SliceOfFront(p, q, a, b);
      assert (p + q)[a..b] == p[a..b];
    } else {
      assert |p| == a;
      SliceOfBack(p, q);
      assert (p + q)[a..b] == q;
    }
  }

  lemma SliceOfFront(p: seq<byte>, q: seq<byte>, a: nat, b: nat)
    requires a <= b <= |p|
    ensures (p + q)[a..b] == p[a..b]
  {
  }

  lemma SliceOfBack(p: seq<byte>, q: seq<byte>)
    ensures (p + q)[|p|..|p| + |q|] == q
  {
  }

  /**
   * The limits within which the writer's casts lose nothing: `toc_length`
   * fits in a u32, and every size and absolute offset in 40 bits.
   */
  predicate Representable(entries: seq<Entry>, zsizes: seq<u16>)
  {
    var toc := TocLength(|entries|, |zsizes|);
    && toc < TWO32
    && forall i | 0 <= i < |entries| :: entries[i].uncompressedSize < TWO40 && entries[i].offset + toc < TWO40
  }

  /** The bytes of record `i` in an archive laid out as header, records, rest. */
  lemma RecordSlice(h: seq<byte>, es: seq<byte>, zs: seq<byte>, data: seq<byte>, i: nat)
    requires |h| == HEADER_SIZE && ENTRY_SIZE * i + ENTRY_SIZE <= |es|
    ensures EntryPos(i) + ENTRY_SIZE <= |h + es + zs + data|
    ensures (h + es + zs + data)[EntryPos(i)..EntryPos(i) + ENTRY_SIZE] == es[ENTRY_SIZE * i..ENTRY_SIZE * i + ENTRY_SIZE]
  {
    assert h + es + zs + data == h + es + (zs + data);
    SliceMiddle(h, es, zs + data, ENTRY_SIZE * i, ENTRY_SIZE * i + ENTRY_SIZE);
  }

  /** A record written within the limits decodes to the entry with its absolute offset. */
  lemma RecordRoundTrip(e: Entry, toc: nat)
    requires e.uncompressedSize < TWO40 && e.offset + toc < TWO40
    ensures DecodeEntry(EncodeEntry(e.nameHash, e.zsizeIndex, e.uncompressedSize, e.offset + toc)) == e.(offset := e.offset + toc)
  {
    var abs := e.offset + toc;
    DecodeEncodeEntry(e.nameHash, e.zsizeIndex, e.uncompressedSize, abs);
    ModSmall(e.uncompressedSize, TWO40);
    ModSmall(abs, TWO40);
  }

  lemma ModSmall(x: nat, m: nat)
    requires x < m
    ensures x % m == x
  {
  }

  lemma WrittenEntry(entries: seq<Entry>, toc: nat, h: seq<byte>, zs: seq<byte>, data: seq<byte>, out: seq<byte>, i: nat)
    requires |h| == HEADER_SIZE && i < |entries| && out == h + EncodeEntries(entries, toc) + zs + data
    requires entries[i].uncompressedSize < TWO40 && entries[i].offset + toc < TWO40
    ensures EntryPos(i) + ENTRY_SIZE <= |out|
    ensures DecodeEntry(out[EntryPos(i)..EntryPos(i) + ENTRY_SIZE]) == Absolute(entries, toc)[i]
  {
    var e := entries[i];
    var record := EncodeEntry(e.nameHash, e.zsizeIndex, e.uncompressedSize, e.offset + toc);
    assert EntryPos(i) + ENTRY_SIZE <= |out| && out[EntryPos(i)..EntryPos(i) + ENTRY_SIZE] == record by {
      RecordSlice(h, EncodeEntries(entries, toc), zs, data, i);
      EncodeEntriesAt(entries, toc, i);
    }
    assert DecodeEntry(record) == Absolute(entries, toc)[i] by {
      RecordRoundTrip(e, toc);
    }
  }

  lemma WrittenToc(entries: seq<Entry>, toc: nat, h: seq<byte>, zs: seq<byte>, data: seq<byte>)
    requires |h| == HEADER_SIZE
    requires forall i | 0 <= i < |entries| :: entries[i].uncompressedSize < TWO40 && entries[i].offset + toc < TWO40
    ensures Toc(h + EncodeEntries(entries, toc) + zs + data, |entries|) == Ok(Absolute(entries, toc))
  {
    var out := h + EncodeEntries(entries, toc) + zs + data;
    assert |out| >= EntryPos(|entries|);
    var t := Toc(out, |entries|).value;
    forall i | 0 <= i < |entries|
      ensures t[i] == Absolute(entries, toc)[i]
    {
      WrittenEntry(entries, toc, h, zs, data, out, i);
    }
    assert t == Absolute(entries, toc);
  }

  lemma HeaderThenRest(h: seq<byte>, es: seq<byte>, zs: seq<byte>, data: seq<byte>)
    ensures h + es + zs + data == h + (es + zs + data)
  {
  }

  /**
   * The metadata of a written archive, read back with or without the
   * compression check: version 1.4, entry size 30, block size 65536, flags 1,
   * `toc_length` and the entries as written (offsets made absolute), and the
   * zsize table as written. The table is exactly as long as the writer's,
   * so no zsize is lost or invented.
   */
  lemma {:induction false} WrittenTables(entries: seq<Entry>, zsizes: seq<u16>, data: seq<byte>, check: bool)
    requires Representable(entries, zsizes)
    ensures var toc := TocLength(|entries|, |zsizes|);
            ReadTablesSpec(ArchiveBytes(entries, zsizes, data), check)
            == Ok(Tables(Header(1, 4, ZLIB, toc, 30, |entries|, BLOCK_SIZE, 1), Absolute(entries, toc), zsizes))
  {
    var toc := TocLength(|entries|, |zsizes|);
    var n := |entries|;
    var h, es, zs := EncodeHeader(toc, n, BLOCK_SIZE), EncodeEntries(entries, toc), EncodeZSizes(zsizes);
    var out := ArchiveBytes(entries, zsizes, data);
    assert out == h + es + zs + data;
    var header := Header(1, 4, ZLIB, toc, 30, n, BLOCK_SIZE, 1);
    assert DecodeHeader(out, check) == Ok(header) by {
      HeaderThenRest(h, es, zs, data);
      DecodeEncodeHeader(toc, n, BLOCK_SIZE, es + zs + data, check);
      ModSmall(toc, TWO32);
      ModSmall(n, TWO32);
    }
    assert Toc(out, n) == Ok(Absolute(entries, toc)) by {
      WrittenToc(entries, toc, h, zs, data);
    }
    assert ZSizeCount(toc, n) == Ok(|zsizes|) by {
      ZSizeCountOfWrittenLength(n, |zsizes|);
    }
    assert ZSizeTable(out, EntryPos(n), |zsizes|) == Ok(zsizes) by {
      ZSizeTableRoundTrip(h + es, zsizes, data);
    }
    ReadTablesOf(out, check, header, Absolute(entries, toc), |zsizes|, zsizes);
  }

  /** The reads of `ReadTablesSpec`, each succeeding, give the tables they read. */
  lemma ReadTablesOf(data: seq<byte>, check: bool, header: Header, entries: seq<Entry>, count: nat, zsizes: seq<u16>)
    requires DecodeHeader(data, check) == Ok(header)
    requires Toc(data, header.fileCount) == Ok(entries)
    requires ZSizeCount(header.tocLength, header.fileCount) == Ok(count)
    requires ZSizeTable(data, EntryPos(header.fileCount), count) == Ok(zsizes)
    ensures ReadTablesSpec(data, check) == Ok(Tables(header, entries, zsizes))
  {
  }

  // ---------------------------------------------------------------------
  // Layout of the written runs
  // ---------------------------------------------------------------------

  lemma {:induction false} ZSizesBeforePrefix(runs: seq<Run>, i: nat, k: nat)
    requires i <= k <= |runs|
    ensures ZSizesBefore(runs, i) <= ZSizesBefore(runs, k)
    decreases k
  {
    if i < k {
      ZSizesBeforePrefix(runs, i, k - 1);
    }
  }

  lemma {:induction false} DataBeforePrefix(runs: seq<Run>, i: nat, k: nat)
    requires i <= k <= |runs|
    ensures DataBefore(runs, i) <= DataBefore(runs, k)
    decreases k
  {
    if i < k {
      DataBeforePrefix(runs, i, k - 1);
    }
  }

  /** All zsizes and all stored data of the runs, in archive order. */
  function AllZSizes(runs: seq<Run>): seq<u16>
  {
    ZSizesBefore(runs, |runs|)
  }

  function AllData(runs: seq<Run>): seq<byte>
  {
    DataBefore(runs, |runs|)
  }

  /** The archive the writer produces for these runs. */
  function ArchiveOf(runs: seq<Run>): seq<byte>
  {
    ArchiveBytes(LayoutEntries(runs), AllZSizes(runs), AllData(runs))
  }

  function TocOf(runs: seq<Run>): nat
  {
    TocLength(|runs|, |AllZSizes(runs)|)
  }

  /**
   * The archive stays within the limits of its 32-bit `toc_length` and its
   * 40-bit sizes and offsets.
   */
  predicate Fits(runs: seq<Run>)
  {
    && TocOf(runs) < TWO32
    && TocOf(runs) + |AllData(runs)| < TWO40
    && forall i | 0 <= i < |runs| :: runs[i].blocks.uncompressedSize < TWO40
  }

  lemma FitsRepresentable(runs: seq<Run>)
    requires Fits(runs)
    ensures Representable(LayoutEntries(runs), AllZSizes(runs))
  {
    forall i | 0 <= i < |runs|
      ensures LayoutEntries(runs)[i].offset + TocOf(runs) < TWO40
    {
      DataBeforePrefix(runs, i, |runs|);
    }
  }

  /**
   * The entry the reader decodes for run `i` of a written archive: the run's
   * hash and size, the index of its first zsize and the absolute position of
   * its first stored byte.
   */
  lemma LayoutEntryRead(runs: seq<Run>, i: nat)
    requires Fits(runs) && i < |runs|
    ensures var e := Absolute(LayoutEntries(runs), TocOf(runs))[i];
            && e.nameHash == runs[i].nameHash
            && e.zsizeIndex == |ZSizesBefore(runs, i)|
            && e.uncompressedSize == runs[i].blocks.uncompressedSize
            && e.offset == TocOf(runs) + |DataBefore(runs, i)|
  {
    ZSizesBeforePrefix(runs, i, |runs|);
    ModSmall(|ZSizesBefore(runs, i)|, TWO32);
  }

  /** The metadata of the archive of a run list, read back. */
  lemma ArchiveTables(runs: seq<Run>, check: bool)
    requires Fits(runs)
    ensures ReadTablesSpec(ArchiveOf(runs), check)
            == Ok(Tables(Header(1, 4, ZLIB, TocOf(runs), 30, |runs|, BLOCK_SIZE, 1),
                         Absolute(LayoutEntries(runs), TocOf(runs)), AllZSizes(runs)))
  {
    FitsRepresentable(runs);
    WrittenTables(LayoutEntries(runs), AllZSizes(runs), AllData(runs), check);
  }

  lemma SliceOfPrefix<T>(a: seq<T>, b: seq<T>, whole: seq<T>)
    requires a + b <= whole
    ensures |a| + |b| <= |whole| && whole[|a|..|a| + |b|] == b
  {
    assert whole[..|a| + |b|] == a + b;
    assert (a + b)[|a|..|a| + |b|] == b;
  }

  lemma SuffixStart(p: seq<byte>, a: seq<byte>, b: seq<byte>, d: seq<byte>)
    requires a + b <= d
    ensures |p| + |a| <= |p + d| && b <= (p + d)[|p| + |a|..]
  {
    assert (p + d)[|p| + |a|..] == d[|a|..];
    assert d[..|a| + |b|] == a + b;
    assert d[|a|..][..|b|] == b;
  }

  /** The archive is its metadata, `toc_length` bytes of it, followed by the data. */
  lemma ArchiveSplit(runs: seq<Run>)
    ensures var toc := TocOf(runs);
            var entries := LayoutEntries(runs);
            ArchiveOf(runs)
            == (EncodeHeader(toc, |entries|, BLOCK_SIZE) + EncodeEntries(entries, toc) + EncodeZSizes(AllZSizes(runs))) + AllData(runs)
    ensures |EncodeHeader(TocOf(runs), |runs|, BLOCK_SIZE) + EncodeEntries(LayoutEntries(runs), TocOf(runs)) + EncodeZSizes(AllZSizes(runs))|
            == TocOf(runs)
  {
  }

  /**
   * Run `i` lies where the reader looks for it: its zsizes at its zsize index
   * and its stored bytes at its absolute offset, within the archive.
   */
  lemma RunPlaced(runs: seq<Run>, i: nat)
    requires i < |runs|
    ensures var c := runs[i].blocks;
            var zi := |ZSizesBefore(runs, i)|;
            var off := TocOf(runs) + |DataBefore(runs, i)|;
            && zi + |c.zsizes| <= |AllZSizes(runs)| && AllZSizes(runs)[zi..zi + |c.zsizes|] == c.zsizes
            && off + |c.compressedData| <= |ArchiveOf(runs)|
            && c.compressedData <= ArchiveOf(runs)[off..]
  {
    var c := runs[i].blocks;
    ZSizesBeforePrefix(runs, i + 1, |runs|);
    SliceOfPrefix(ZSizesBefore(runs, i), c.zsizes, AllZSizes(runs));
    DataBeforePrefix(runs, i + 1, |runs|);
    ArchiveSplit(runs);
    var meta := EncodeHeader(TocOf(runs), |runs|, BLOCK_SIZE) + EncodeEntries(LayoutEntries(runs), TocOf(runs)) + EncodeZSizes(AllZSizes(runs));
    SuffixStart(meta, DataBefore(runs, i), c.compressedData, AllData(runs));
  }

  // ---------------------------------------------------------------------
  // Reading the files back
  // ---------------------------------------------------------------------

  /** An ordinary file's zsizes account for exactly the bytes stored for it. */
  lemma {:induction false} FileRunStoredLen(deflate: Deflate, inflate: Inflate, data: seq<byte>)
    requires ZlibPair(deflate, inflate)
    ensures var blocks := EncodeBlocks(deflate, data, FileRule);
            SumStored(ZSizesOf(blocks), BLOCK_SIZE) == |Flatten(StoredOf(blocks))|
    decreases |data|
  {
    if data != [] {
      EncodeBlocksFront(deflate, data, FileRule);
      var chunk := if |data| <= BLOCK_SIZE then data else data[..BLOCK_SIZE];
      var tail := if |data| <= BLOCK_SIZE then [] else data[BLOCK_SIZE..];
      assert LooksLikeZlib(deflate(chunk));
      FileBlockZSize(deflate, chunk);
      var b := ChooseBlock(deflate, chunk, FileRule);
      if |data| <= BLOCK_SIZE {
        assert EncodeBlocks(deflate, data, FileRule) == [b] + [];
        BlocksFront(b, []);
      } else {
        FileRunStoredLen(deflate, inflate, tail);
        BlocksFront(b, EncodeBlocks(deflate, tail, FileRule));
      }
    }
  }

  lemma SumStoredPositive(zs: seq<u16>)
    requires zs != []
    ensures SumStored(zs, BLOCK_SIZE) > 0
  {
  }

  /**
   * Run `i` of a written archive holds the blocks of `data` stored by
   * `rule`; given room for what its zsizes claim, the reader's loop, started
   * where the run's entry points, finds exactly the run.
   */
  lemma {:induction false} RunAtEntry(runs: seq<Run>, i: nat, deflate: Deflate, data: seq<byte>, rule: BlockRule)
    requires i < |runs| && runs[i].blocks.zsizes == ZSizesOf(EncodeBlocks(deflate, data, rule))
    requires runs[i].blocks.compressedData == Flatten(StoredOf(EncodeBlocks(deflate, data, rule)))
    requires TocOf(runs) + |DataBefore(runs, i)| + SumStored(runs[i].blocks.zsizes, BLOCK_SIZE) <= |ArchiveOf(runs)|
    ensures RunAt(ArchiveOf(runs), AllZSizes(runs), |ZSizesBefore(runs, i)|, TocOf(runs) + |DataBefore(runs, i)|,
                  EncodeBlocks(deflate, data, rule))
  {
    RunPlaced(runs, i);
  }

  /** What the reader decodes for run `i`: its table entry and the archive's zsizes and block size. */
  lemma EntryOfRun(runs: seq<Run>, i: nat, check: bool)
    requires Fits(runs) && i < |runs|
    ensures var t := ReadTablesSpec(ArchiveOf(runs), check);
            && t.Ok? && |t.value.entries| == |runs|
            && t.value.zsizes == AllZSizes(runs) && t.value.header.blockSize == BLOCK_SIZE
            && EntryOf(runs, i, t.value.entries[i])
  {
    ArchiveTables(runs, check);
    LayoutEntryRead(runs, i);
  }

  /** `e` locates run `i`: the run's hash and size, first zsize index and absolute offset. */
  predicate EntryOf(runs: seq<Run>, i: nat, e: Entry)
    requires i < |runs|
  {
    && e.nameHash == runs[i].nameHash
    && e.zsizeIndex == |ZSizesBefore(runs, i)|
    && e.uncompressedSize == runs[i].blocks.uncompressedSize
    && e.offset == TocOf(runs) + |DataBefore(runs, i)|
  }

  /** `read_file_data` on the entry of a written file's run. */
  lemma {:induction false} FileRunReads(runs: seq<Run>, i: nat, e: Entry, deflate: Deflate, inflate: Inflate, data: seq<byte>, v: Variant)
    requires ZlibPair(deflate, inflate)
    requires i < |runs| && runs[i].blocks == Packed(deflate, data, FileRule) && EntryOf(runs, i, e)
    requires v == AsWritten ==> !MisreadTail(deflate, data, |data|)
    requires v == AsWritten && data == [] ==> |DataBefore(runs, i)| < |AllData(runs)|
    ensures ReadFileDataSpec(ArchiveOf(runs), e, AllZSizes(runs), BLOCK_SIZE, inflate, v) == Ok(data)
  {
    RunPlaced(runs, i);
    ArchiveSplit(runs);
    FileRunStoredLen(deflate, inflate, data);
    RunAtEntry(runs, i, deflate, data, FileRule);
    ReadWrittenRun(ArchiveOf(runs), AllZSizes(runs), deflate, inflate, v, FileRule, |data|, e.zsizeIndex, e.offset, data, []);
    assert [] + data == data;
    if data != [] {
      SumStoredPositive(runs[i].blocks.zsizes);
    }
  }

  /**
   * Every ordinary file of a written archive reads back as its bytes: the
   * entry's metadata is read, then `read_file_data` on it. The corrected
   * reader always does; the reader as written needs the file not to end in
   * a raw partial block that begins like zlib, and an empty file to have some
   * data after its offset.
   */
  lemma ReadBackFile(runs: seq<Run>, i: nat, deflate: Deflate, inflate: Inflate, data: seq<byte>,
                     v: Variant, check: bool)
    requires ZlibPair(deflate, inflate)
    requires Fits(runs) && i < |runs| && runs[i].blocks == Packed(deflate, data, FileRule)
    requires v == AsWritten ==> !MisreadTail(deflate, data, |data|)
    requires v == AsWritten && data == [] ==> |DataBefore(runs, i)| < |AllData(runs)|
    ensures var t := ReadTablesSpec(ArchiveOf(runs), check);
            && t.Ok? && i < |t.value.entries|
            && ReadFileDataSpec(ArchiveOf(runs), t.value.entries[i], t.value.zsizes, t.value.header.blockSize, inflate, v)
               == Ok(data)
  {
    EntryOfRun(runs, i, check);
    var t := ReadTablesSpec(ArchiveOf(runs), check).value;
    FileRunReads(runs, i, t.entries[i], deflate, inflate, data, v);
  }

  lemma ManifestRunReads(runs: seq<Run>, e: Entry, deflate: Deflate, inflate: Inflate, manifest: seq<byte>, v: Variant)
    requires ZlibPair(deflate, inflate)
    requires |runs| > 0 && runs[0].blocks == Packed(deflate, manifest, ManifestRule) && EntryOf(runs, 0, e)
    requires v == AsWritten && manifest == [] ==> 0 < |AllData(runs)|
    requires SumStored(runs[0].blocks.zsizes, BLOCK_SIZE) <= |AllData(runs)|
    ensures ReadFileDataSpec(ArchiveOf(runs), e, AllZSizes(runs), BLOCK_SIZE, inflate, v) == Ok(manifest)
  {
    ArchiveSplit(runs);
    RunAtEntry(runs, 0, deflate, manifest, ManifestRule);
    ReadWrittenRun(ArchiveOf(runs), AllZSizes(runs), deflate, inflate, v, ManifestRule, |manifest|, e.zsizeIndex, e.offset, manifest, []);
    assert [] + manifest == manifest;
    if manifest != [] {
      SumStoredPositive(runs[0].blocks.zsizes);
    }
  }

  /**
   * The manifest, run 0, reads back as written whenever the archive holds as
   * many bytes after its offset as its zsizes claim. Extraction then finds it
   * where it looks for it: first, all-zero hash, non-zero offset.
   */
  lemma ReadBackManifest(runs: seq<Run>, deflate: Deflate, inflate: Inflate, manifest: seq<byte>,
                         v: Variant, check: bool)
    requires ZlibPair(deflate, inflate)
    requires Fits(runs) && |runs| > 0 && runs[0] == Run(ZERO_HASH, Packed(deflate, manifest, ManifestRule))
    requires v == AsWritten && manifest == [] ==> 0 < |AllData(runs)|
    requires SumStored(runs[0].blocks.zsizes, BLOCK_SIZE) <= |AllData(runs)|
    ensures var t := ReadTablesSpec(ArchiveOf(runs), check);
            && t.Ok? && |t.value.entries| > 0
            && t.value.entries[0].nameHash == ZERO_HASH && t.value.entries[0].offset != 0
            && ReadFileDataSpec(ArchiveOf(runs), t.value.entries[0], t.value.zsizes, t.value.header.blockSize, inflate, v)
               == Ok(manifest)
  {
    EntryOfRun(runs, 0, check);
    var t := ReadTablesSpec(ArchiveOf(runs), check).value;
    ManifestRunReads(runs, t.entries[0], deflate, inflate, manifest, v);
  }

  lemma ManifestRunFails(runs: seq<Run>, e: Entry, deflate: Deflate, inflate: Inflate, manifest: seq<byte>, v: Variant)
    requires |runs| > 0 && runs[0].blocks == Packed(deflate, manifest, ManifestRule) && EntryOf(runs, 0, e)
    requires 0 < |manifest| && RawPartial(deflate, manifest)
    requires |AllData(runs)| < BLOCK_SIZE
    ensures ReadFileDataSpec(ArchiveOf(runs), e, AllZSizes(runs), BLOCK_SIZE, inflate, v) == Err(InvalidData)
  {
    ArchiveSplit(runs);
    EncodeBlocksFront(deflate, manifest, ManifestRule);
    ManifestBlockZSize(deflate, manifest);
    RunPlaced(runs, 0);
    assert AllZSizes(runs)[0] == 0 by {
      assert AllZSizes(runs)[0..1] == [0];
    }
  }

  /**
   * The manifest quirk: a manifest of a single block that does not compress
   * is recorded with zsize 0, so the reader wants a whole 64 KiB block at its
   * offset. In an archive whose data is shorter than that, reading the
   * manifest fails with InvalidData, with either reader, and extraction goes
   * on without the file names.
   */
  lemma ManifestQuirk(runs: seq<Run>, deflate: Deflate, inflate: Inflate, manifest: seq<byte>,
                      v: Variant, check: bool)
    requires Fits(runs) && |runs| > 0 && runs[0] == Run(ZERO_HASH, Packed(deflate, manifest, ManifestRule))
    requires 0 < |manifest| && RawPartial(deflate, manifest)
    requires |AllData(runs)| < BLOCK_SIZE
    ensures var t := ReadTablesSpec(ArchiveOf(runs), check);
            && t.Ok? && |t.value.entries| > 0
            && ReadFileDataSpec(ArchiveOf(runs), t.value.entries[0], t.value.zsizes, t.value.header.blockSize, inflate, v)
               == Err(InvalidData)
  {
    EntryOfRun(runs, 0, check);
    var t := ReadTablesSpec(ArchiveOf(runs), check).value;
    ManifestRunFails(runs, t.entries[0], deflate, inflate, manifest, v);
  }

  /**
   * Finding: an empty file packed last has its offset at the very end of the
   * archive, and the reader as written rejects it although it has nothing to
   * read; the corrected reader returns it, empty.
   */
  lemma EmptyLastFile(runs: seq<Run>, deflate: Deflate, inflate: Inflate, check: bool)
    requires ZlibPair(deflate, inflate)
    requires Fits(runs) && |runs| > 0 && runs[|runs| - 1].blocks == Packed(deflate, [], FileRule)
    ensures var t := ReadTablesSpec(ArchiveOf(runs), check);
            var i := |runs| - 1;
            && t.Ok? && |t.value.entries| == |runs|
            && ReadFileDataSpec(ArchiveOf(runs), t.value.entries[i], t.value.zsizes, t.value.header.blockSize, inflate, AsWritten)
               == Err(InvalidData)
            && ReadFileDataSpec(ArchiveOf(runs), t.value.entries[i], t.value.zsizes, t.value.header.blockSize, inflate, Corrected)
               == Ok([])
  {
    var i := |runs| - 1;
    EntryOfRun(runs, i, check);
    var t := ReadTablesSpec(ArchiveOf(runs), check).value;
    ArchiveSplit(runs);
    assert DataBefore(runs, i + 1) == DataBefore(runs, i) + [];
    FileRunReads(runs, i, t.entries[i], deflate, inflate, [], Corrected);
  }

  /**
   * An empty folder packs to an archive of one entry, an empty manifest
   * whose offset is the archive's length: the reader as written rejects it,
   * the corrected reader reads it as empty.
   */
  lemma EmptyFolder(deflate: Deflate, inflate: Inflate, check: bool)
    requires ZlibPair(deflate, inflate)
    ensures var runs := [Run(ZERO_HASH, Packed(deflate, [], ManifestRule))];
            var t := ReadTablesSpec(ArchiveOf(runs), check);
            && t.Ok? && |t.value.entries| == 1
            && ReadFileDataSpec(ArchiveOf(runs), t.value.entries[0], t.value.zsizes, t.value.header.blockSize, inflate, AsWritten)
               == Err(InvalidData)
            && ReadFileDataSpec(ArchiveOf(runs), t.value.entries[0], t.value.zsizes, t.value.header.blockSize, inflate, Corrected)
               == Ok([])
  {
    var runs := [Run(ZERO_HASH, Packed(deflate, [], ManifestRule))];
    assert Packed(deflate, [], ManifestRule) == Packed(deflate, [], FileRule);
    assert Packed(deflate, [], FileRule).zsizes == [] && Packed(deflate, [], FileRule).compressedData == [];
    assert runs[0].blocks.zsizes == [] && runs[0].blocks.compressedData == [];
    assert ZSizesBefore(runs, 1) == ZSizesBefore(runs, 0) + runs[0].blocks.zsizes;
    assert DataBefore(runs, 1) == DataBefore(runs, 0) + runs[0].blocks.compressedData;
    assert AllZSizes(runs) == [] && AllData(runs) == [];
    assert TocOf(runs) == HEADER_SIZE + ENTRY_SIZE;
    EmptyLastFile(runs, deflate, inflate, check);
  }

  /**
   * The as-written reader on a file of one full block and a raw tail that
   * looks like zlib but is not a zlib stream: it hands the tail to the
   * decoder and fails.
   */
  lemma MisreadRun(mmap: seq<byte>, zsizes: seq<u16>, deflate: Deflate, inflate: Inflate,
                   idx: nat, off: nat, data: seq<byte>)
    requires ZlibPair(deflate, inflate)
    requires BLOCK_SIZE < |data| < 2 * BLOCK_SIZE
    requires RunAt(mmap, zsizes, idx, off, EncodeBlocks(deflate, data, FileRule))
    requires MisreadTail(deflate, data, |data|) && inflate(data[BLOCK_SIZE..]) == None
    ensures ReadLoop(mmap, zsizes, BLOCK_SIZE, inflate, AsWritten, |data|, idx, off, |data|, []) == Err(InvalidData)
  {
    var chunk, tail := data[..BLOCK_SIZE], data[BLOCK_SIZE..];
    var b := ChooseBlock(deflate, chunk, FileRule);
    MoreFirstBlockAt(mmap, zsizes, deflate, inflate, AsWritten, FileRule, |data|, idx, off, data);
    ReadLoopStep(mmap, zsizes, BLOCK_SIZE, inflate, AsWritten, |data|, idx, off, |data|, [], b.zsize, chunk);
    assert SatSub(|data|, BLOCK_SIZE) == |tail|;
    LastChunkOfRest(data);
    EncodeBlocksFront(deflate, tail, FileRule);
    MisreadTailBlock(mmap, zsizes, deflate, inflate, idx + 1, off + StoredLen(b.zsize, BLOCK_SIZE), tail, |data|, [] + chunk);
  }

  /** The last block of such a file, reached after the full blocks before it. */
  lemma MisreadTailBlock(mmap: seq<byte>, zsizes: seq<u16>, deflate: Deflate, inflate: Inflate,
                         idx: nat, off: nat, tail: seq<byte>, size: nat, acc: seq<byte>)
    requires 0 < |tail| && |acc| + |tail| == size && |tail| != size
    requires RawPartial(deflate, tail) && LooksLikeZlib(tail) && inflate(tail) == None
    requires RunAt(mmap, zsizes, idx, off, EncodeBlocks(deflate, tail, FileRule))
    ensures ReadLoop(mmap, zsizes, BLOCK_SIZE, inflate, AsWritten, size, idx, off, |tail|, acc) == Err(InvalidData)
  {
    EncodeBlocksFront(deflate, tail, FileRule);
    var bt := ChooseBlock(deflate, tail, FileRule);
    assert bt == Block(|tail|, tail);
    assert [bt] == [bt] + [];
    RunFront(mmap, zsizes, idx, off, bt, []);
    assert mmap[off..off + |tail|] == tail;
  }

  /**
   * Finding: a file of more than one block whose last, partial block does
   * not compress and begins with a zlib header is stored raw with zsize equal
   * to its length, and the reader as written tries to decompress it; where
   * the decoder rejects it, the file cannot be read back. The corrected
   * reader takes such a block as raw and reads the file back.
   */
  lemma MisreadLastBlock(runs: seq<Run>, i: nat, deflate: Deflate, inflate: Inflate,
                         data: seq<byte>, check: bool)
    requires ZlibPair(deflate, inflate)
    requires Fits(runs) && i < |runs| && runs[i].blocks == Packed(deflate, data, FileRule)
    requires BLOCK_SIZE < |data| < 2 * BLOCK_SIZE
    requires MisreadTail(deflate, data, |data|) && inflate(data[BLOCK_SIZE..]) == None
    ensures var t := ReadTablesSpec(ArchiveOf(runs), check);
            && t.Ok? && i < |t.value.entries|
            && ReadFileDataSpec(ArchiveOf(runs), t.value.entries[i], t.value.zsizes, t.value.header.blockSize, inflate, AsWritten)
               == Err(InvalidData)
            && ReadFileDataSpec(ArchiveOf(runs), t.value.entries[i], t.value.zsizes, t.value.header.blockSize, inflate, Corrected)
               == Ok(data)
  {
    EntryOfRun(runs, i, check);
    var t := ReadTablesSpec(ArchiveOf(runs), check).value;
    MisreadFileRun(runs, i, t.entries[i], deflate, inflate, data);
    FileRunReads(runs, i, t.entries[i], deflate, inflate, data, Corrected);
  }

  lemma MisreadFileRun(runs: seq<Run>, i: nat, e: Entry, deflate: Deflate, inflate: Inflate, data: seq<byte>)
    requires ZlibPair(deflate, inflate)
    requires i < |runs| && runs[i].blocks == Packed(deflate, data, FileRule) && EntryOf(runs, i, e)
    requires BLOCK_SIZE < |data| < 2 * BLOCK_SIZE
    requires MisreadTail(deflate, data, |data|) && inflate(data[BLOCK_SIZE..]) == None
    ensures ReadFileDataSpec(ArchiveOf(runs), e, AllZSizes(runs), BLOCK_SIZE, inflate, AsWritten) == Err(InvalidData)
  {
    RunPlaced(runs, i);
    ArchiveSplit(runs);
    FileRunStoredLen(deflate, inflate, data);
    RunAtEntry(runs, i, deflate, data, FileRule);
    MisreadRun(ArchiveOf(runs), AllZSizes(runs), deflate, inflate, e.zsizeIndex, e.offset, data);
    SumStoredPositive(runs[i].blocks.zsizes);
  }

  // ---------------------------------------------------------------------
  // The cache of a written archive
  // ---------------------------------------------------------------------

  /**
   * Blocks as the writer produces them for a file: one zsize per block of
   * the file, and zsizes that add up to the bytes stored.
   */
  predicate WellFormed(c: CachedFileData)
  {
    && |c.zsizes| == BlockCount(c.uncompressedSize, BLOCK_SIZE)
    && SumStored(c.zsizes, BLOCK_SIZE) == |c.compressedData|
  }

  /** Every file the writer compresses is well formed. */
  lemma PackedWellFormed(deflate: Deflate, inflate: Inflate, data: seq<byte>)
    requires ZlibPair(deflate, inflate)
    ensures WellFormed(Packed(deflate, data, FileRule))
  {
    FileRunStoredLen(deflate, inflate, data);
  }

  /**
   * `read_cached_file_data` on the entry of a well-formed run copies out
   * exactly the run: its stored bytes, its zsizes and its size.
   */
  lemma CachedRunOfWritten(runs: seq<Run>, i: nat, e: Entry)
    requires i < |runs| && EntryOf(runs, i, e) && WellFormed(runs[i].blocks)
    ensures CachedRun(ArchiveOf(runs), e, AllZSizes(runs), BLOCK_SIZE) == Ok(runs[i].blocks)
  {
    var c := runs[i].blocks;
    RunPlaced(runs, i);
    if c.uncompressedSize > 0 {
      var out := ArchiveOf(runs);
      assert out[e.offset..e.offset + |c.compressedData|] == c.compressedData by {
        assert out[e.offset..][..|c.compressedData|] == c.compressedData;
      }
    }
  }

  /** No run after run `i`, among the first `k`, has run `i`'s hash. */
  predicate LastWithHash(runs: seq<Run>, i: nat, k: nat)
    requires i < k <= |runs|
  {
    forall j | i < j < k :: runs[j].nameHash != runs[i].nameHash
  }

  /** Some run among the first `k` has hash `h`. */
  predicate HashAmong(runs: seq<Run>, k: nat, h: Hash)
    requires k <= |runs|
  {
    exists i | 0 <= i < k :: runs[i].nameHash == h
  }

  /** The keys of `m` are the hashes of the first `k` runs, the manifest's excepted. */
  ghost predicate CacheKeys(runs: seq<Run>, k: nat, m: map<Hash, CachedFileData>)
    requires k <= |runs|
  {
    forall h :: h in m <==> h != ZERO_HASH && HashAmong(runs, k, h)
  }

  /** Each non-manifest hash among the first `k` runs maps to the blocks of its last run. */
  ghost predicate CacheValues(runs: seq<Run>, k: nat, m: map<Hash, CachedFileData>)
    requires k <= |runs|
  {
    forall i | 0 <= i < k && runs[i].nameHash != ZERO_HASH && LastWithHash(runs, i, k)
      :: runs[i].nameHash in m && m[runs[i].nameHash] == runs[i].blocks
  }

  /**
   * `m` caches the first `k` runs: it holds exactly their non-manifest
   * hashes, each mapped to the blocks of the last run with that hash.
   */
  ghost predicate CachesRuns(runs: seq<Run>, k: nat, m: map<Hash, CachedFileData>)
    requires k <= |runs|
  {
    CacheKeys(runs, k, m) && CacheValues(runs, k, m)
  }

  /** Adding run `k - 1` to a cache of the runs before it, unless it is the manifest. */
  lemma CacheStep(runs: seq<Run>, k: nat, m0: map<Hash, CachedFileData>, m: map<Hash, CachedFileData>)
    requires 0 < k <= |runs| && CachesRuns(runs, k - 1, m0)
    requires m == if runs[k - 1].nameHash == ZERO_HASH then m0 else m0[runs[k - 1].nameHash := runs[k - 1].blocks]
    ensures CachesRuns(runs, k, m)
  {
    forall h
      ensures h in m <==> h != ZERO_HASH && HashAmong(runs, k, h)
    {
      CacheStepKey(runs, k, m0, m, h);
    }
    forall i | 0 <= i < k && runs[i].nameHash != ZERO_HASH && LastWithHash(runs, i, k)
      ensures runs[i].nameHash in m && m[runs[i].nameHash] == runs[i].blocks
    {
      CacheStepValue(runs, k, m0, m, i);
    }
  }

  /** After the step, the keys are the hashes of the first `k` runs but the manifest's. */
  lemma CacheStepKey(runs: seq<Run>, k: nat, m0: map<Hash, CachedFileData>, m: map<Hash, CachedFileData>, h: Hash)
    requires 0 < k <= |runs| && CacheKeys(runs, k - 1, m0)
    requires m == if runs[k - 1].nameHash == ZERO_HASH then m0 else m0[runs[k - 1].nameHash := runs[k - 1].blocks]
    ensures h in m <==> h != ZERO_HASH && HashAmong(runs, k, h)
  {
    var hk := runs[k - 1].nameHash;
    assert HashAmong(runs, k, h) <==> HashAmong(runs, k - 1, h) || h == hk by {
      if HashAmong(runs, k, h) && h != hk {
        var i :| 0 <= i < k && runs[i].nameHash == h;
        assert i < k - 1;
      }
      if HashAmong(runs, k - 1, h) {
        var i :| 0 <= i < k - 1 && runs[i].nameHash == h;
        assert runs[i].nameHash == h;
      }
      if h == hk {
        assert runs[k - 1].nameHash == h;
      }
    }
    assert h in m0 <==> h != ZERO_HASH && HashAmong(runs, k - 1, h);
  }

  /** After the step, each hash maps to the blocks of its last run among the first `k`. */
  lemma CacheStepValue(runs: seq<Run>, k: nat, m0: map<Hash, CachedFileData>, m: map<Hash, CachedFileData>, i: nat)
    requires 0 < k <= |runs| && CacheValues(runs, k - 1, m0)
    requires m == if runs[k - 1].nameHash == ZERO_HASH then m0 else m0[runs[k - 1].nameHash := runs[k - 1].blocks]
    requires i < k && runs[i].nameHash != ZERO_HASH && LastWithHash(runs, i, k)
    ensures runs[i].nameHash in m && m[runs[i].nameHash] == runs[i].blocks
  {
    if i < k - 1 {
      assert runs[k - 1].nameHash != runs[i].nameHash;
      assert LastWithHash(runs, i, k - 1);
    }
  }

  /** The entries of `mmap` locate the runs, each non-manifest one readable as its blocks. */
  predicate CopiesRuns(runs: seq<Run>, mmap: seq<byte>, entries: seq<Entry>, zsizes: seq<u16>)
  {
    && |entries| == |runs|
    && forall i | 0 <= i < |runs| :: entries[i].nameHash == runs[i].nameHash
         && (runs[i].nameHash != ZERO_HASH ==> CachedRun(mmap, entries[i], zsizes, BLOCK_SIZE) == Ok(runs[i].blocks))
  }

  /** The runs' blocks added to an empty map in order, under their hashes, skipping the manifest. */
  function RunsMap(runs: seq<Run>, k: nat): map<Hash, CachedFileData>
    requires k <= |runs|
  {
    if k == 0 then map[]
    else if runs[k - 1].nameHash == ZERO_HASH then RunsMap(runs, k - 1)
    else RunsMap(runs, k - 1)[runs[k - 1].nameHash := runs[k - 1].blocks]
  }

  /** That map caches the runs: their hashes, each with the last run's blocks. */
  lemma {:induction false} RunsMapCaches(runs: seq<Run>, k: nat)
    requires k <= |runs|
    ensures CachesRuns(runs, k, RunsMap(runs, k))
    decreases k
  {
    if k > 0 {
      RunsMapCaches(runs, k - 1);
      CacheStep(runs, k, RunsMap(runs, k - 1), RunsMap(runs, k));
    }
  }

  /** `load_psarc_cache`'s loop over entries that copy out the runs builds that map. */
  lemma {:induction false} CacheOfRuns(runs: seq<Run>, mmap: seq<byte>, entries: seq<Entry>, zsizes: seq<u16>, k: nat)
    requires CopiesRuns(runs, mmap, entries, zsizes) && k <= |runs|
    ensures CacheOf(mmap, entries, zsizes, BLOCK_SIZE, k) == RunsMap(runs, k)
    decreases k
  {
    if k > 0 {
      CacheOfRuns(runs, mmap, entries, zsizes, k - 1);
      assert entries[k - 1].nameHash == runs[k - 1].nameHash;
      if runs[k - 1].nameHash != ZERO_HASH {
        assert CachedRun(mmap, entries[k - 1], zsizes, BLOCK_SIZE) == Ok(runs[k - 1].blocks);
      }
    }
  }

  /**
   * `load_psarc_cache` on an archive the writer produced (its metadata read
   * without the compression check) caches every file run under its hash, the
   * last one winning when two files share a hash, and nothing else.
   */
  lemma LoadedCacheOfWritten(runs: seq<Run>)
    requires Fits(runs)
    requires forall i | 0 <= i < |runs| && runs[i].nameHash != ZERO_HASH :: WellFormed(runs[i].blocks)
    ensures var t := ReadTablesSpec(ArchiveOf(runs), false);
            && t.Ok?
            && CachesRuns(runs, |runs|, CacheOf(ArchiveOf(runs), t.value.entries, t.value.zsizes, t.value.header.blockSize, |t.value.entries|))
  {
    ArchiveTables(runs, false);
    var t := ReadTablesSpec(ArchiveOf(runs), false).value;
    forall i | 0 <= i < |runs|
      ensures t.entries[i].nameHash == runs[i].nameHash
      ensures runs[i].nameHash != ZERO_HASH ==> CachedRun(ArchiveOf(runs), t.entries[i], t.zsizes, BLOCK_SIZE) == Ok(runs[i].blocks)
    {
      EntryOfRun(runs, i, false);
      if runs[i].nameHash != ZERO_HASH {
        CachedRunOfWritten(runs, i, t.entries[i]);
      }
    }
    CacheOfRuns(runs, ArchiveOf(runs), t.entries, t.zsizes, |runs|);
    RunsMapCaches(runs, |runs|);
  }

  // ---------------------------------------------------------------------
  // Packing, then reading
  // ---------------------------------------------------------------------

  lemma PackedRuns(deflate: Deflate, manifest: seq<byte>, files: seq<(Hash, Source)>)
    ensures ArchiveOf(Runs(deflate, manifest, files)) == PackedArchive(deflate, manifest, files)
    ensures Runs(deflate, manifest, files)[0] == Run(ZERO_HASH, Packed(deflate, manifest, ManifestRule))
    ensures forall j | 0 <= j < |files| :: Runs(deflate, manifest, files)[j + 1] == Run(files[j].0, Process(deflate, files[j].1))
  {
  }

  /**
   * Packing and then extracting: the corrected reader gives back every file
   * that was compressed afresh (entry `j + 1`, after the manifest), and every
   * reused file whose cached blocks are those of some content; the reader as
   * written does too for a non-empty file whose last block is not misread.
   */
  lemma PackThenRead(deflate: Deflate, inflate: Inflate, manifest: seq<byte>, files: seq<(Hash, Source)>,
                     j: nat, content: seq<byte>, v: Variant, check: bool)
    requires ZlibPair(deflate, inflate)
    requires Fits(Runs(deflate, manifest, files)) && j < |files|
    requires files[j].1 == Fresh(content) || files[j].1 == Reused(Packed(deflate, content, FileRule))
    requires v == AsWritten ==> content != [] && !MisreadTail(deflate, content, |content|)
    ensures var out := PackedArchive(deflate, manifest, files);
            var t := ReadTablesSpec(out, check);
            && t.Ok? && |t.value.entries| == |files| + 1
            && t.value.entries[j + 1].nameHash == files[j].0
            && ReadFileDataSpec(out, t.value.entries[j + 1], t.value.zsizes, t.value.header.blockSize, inflate, v) == Ok(content)
  {
    var runs := Runs(deflate, manifest, files);
    assert ArchiveOf(runs) == PackedArchive(deflate, manifest, files)
        && runs[j + 1] == Run(files[j].0, Process(deflate, files[j].1)) by {
      PackedRuns(deflate, manifest, files);
    }
    assert runs[j + 1].blocks == Packed(deflate, content, FileRule);
    EntryOfRun(runs, j + 1, check);
    ReadBackFile(runs, j + 1, deflate, inflate, content, v, check);
  }

  /**
   * Packing and then loading the cache of the result, for the next
   * incremental pack: every file is cached under its hash with exactly the
   * blocks written for it (the last file winning on a shared hash), provided
   * the reused blocks were well formed.
   */
  lemma PackThenLoadCache(deflate: Deflate, inflate: Inflate, manifest: seq<byte>, files: seq<(Hash, Source)>)
    requires ZlibPair(deflate, inflate)
    requires Fits(Runs(deflate, manifest, files))
    requires forall j | 0 <= j < |files| && files[j].1.Reused? :: WellFormed(files[j].1.cached)
    ensures var out := PackedArchive(deflate, manifest, files);
            var t := ReadTablesSpec(out, false);
            && t.Ok?
            && CachesRuns(Runs(deflate, manifest, files), |files| + 1,
                          CacheOf(out, t.value.entries, t.value.zsizes, t.value.header.blockSize, |t.value.entries|))
  {
    var runs := Runs(deflate, manifest, files);
    PackedRuns(deflate, manifest, files);
    forall i | 0 <= i < |runs| && runs[i].nameHash != ZERO_HASH
      ensures WellFormed(runs[i].blocks)
    {
      assert i > 0;
      if files[i - 1].1.Fresh? {
        PackedWellFormed(deflate, inflate, files[i - 1].1.content);
      }
    }
    LoadedCacheOfWritten(runs);
  }
}
