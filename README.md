# PSARC archives of gd_tools, modelled in Dafny

gd_tools unpacks and repacks the PSARC archives of the game: an archive holds a
32-byte big-endian header, a table of 30-byte entries (a 16-byte MD5 name hash,
the index of the entry's first block size, a 40-bit uncompressed size and a
40-bit absolute offset), a table of u16 block sizes ("zsizes"), and then the
data, cut into 65536-byte blocks that are stored zlib-compressed or raw. The
first entry, with the all-zero hash, is the manifest (`FileList.xml`), the
list of archive paths in archive order.

This project models, and proves properties of:

- the Rust reader (`src/psarc.rs`): the header and table decode of extraction
  and of the incremental cache, `read_file_data`, `read_cached_file_data` and
  `load_psarc_cache`;
- the Rust writer (`pack_directory_internal`): how each block is stored and
  what zsize it gets, how the block runs of the manifest and the files are laid
  out, the header, the entry records, the zsize table and the data as written;
- `resolve_file_order`, `normalize_manifest_lines`, `manifest_bytes_from_paths`,
  `calculate_md5` (with the digest itself a parameter) and `hash_to_string`;
- the Python reference reader that `psarc_compare.py` and `psarc_parse_tmp.py`
  both carry (`load_psarc`, `extract_entry`), and how it reads what the Rust
  writer produces;
- `get_modified_files_for_arc` of the pack confirmation dialog;
- the `EVBParser` of `evb_to_json.py` (`check_type`, `parse`, `to_dict`).

The main results are round trips: packing a set of files and reading the
archive back gives every file's bytes (`PsarcArchive.PackThenRead`), loading
the cache of a written archive gives back the stored block runs
(`PsarcArchive.PackThenLoadCache`), the Python reader agrees with the Rust
decode and reads the files back (`PyArchiveReads.PyReadsFile`), and a
normalized manifest survives writing and re-reading
(`Manifest.NormalizeJoin`). Two of these round trips hold only for a corrected
reader; see "## Findings".

Modules, one per file:

| file | module | models |
|---|---|---|
| wrappers.dfy | Wrappers | `Option`, `Result` |
| bytes.dfy | Bytes | byte and integer widths, big- and little-endian fields, the 40-bit split |
| blocks.dfy | Blocks | block counts, stored lengths, splitting into blocks |
| zlib.dfy | Zlib | the zlib header test; zlib itself is a pair of function parameters |
| psarc_toc.dfy | PsarcToc | header, entry records, zsize table |
| psarc_read.dfy | PsarcRead | `read_file_data`, `read_cached_file_data`, `load_psarc_cache` |
| psarc_write.dfy | PsarcWrite | the block rules, the run layout and the bytes of `pack_directory_internal` |
| psarc_roundtrip.dfy | PsarcRoundTrip | reading one written block run back |
| psarc_archive.dfy | PsarcArchive | whole-archive round trips, the manifest quirk, the findings |
| manifest.dfy | Manifest | `normalize_manifest_lines`, `manifest_bytes_from_paths` |
| name_hash.dfy | NameHash | `calculate_md5`, hash order, `hash_to_string` |
| file_order.dfy | FileOrder | `resolve_file_order` |
| arc_paths.dfy | ArcPaths | `get_modified_files_for_arc` |
| py_reader.dfy | PyReader | the Python `load_psarc` and `extract_entry` |
| py_archive.dfy | PyArchiveReads | the Python reader against the Rust decode and writer |
| evb.dfy | Evb | `EVBParser` |

Conventions. zlib appears as two parameters, `deflate` (one call of
`compress_block`) and `inflate` (a complete decode, `None` on a decoder error),
related by `Zlib.ZlibPair`: every compressed stream starts with a zlib header
the reader recognises and inflates back to its input. The digest of
`calculate_md5` is a parameter `md5`. Files, the archive and the manifest are
byte or character sequences; opening, mapping and writing files are left out.
A Rust panic (an underflowing `usize` subtraction, an index past the end of
the mapped file) is the error value `PsarcToc.Panic`; a Python exception is a
`PyReader.PyError`. Every loop of the source is a method with a `while` or
`for` loop, proved equal to a function that the lemmas are about.

## Model

| member | source | states |
|---|---|---|
| Bytes.BeU16 | src/psarc.rs:246 | the two bytes are the high and low byte of the value |
| Bytes.EncodeBeU16 | src/psarc.rs:637 | two bytes that decode back to the value |
| Bytes.EncodeBeU32 | src/psarc.rs:608-612 | four bytes that decode back to the value |
| Bytes.EncodeDecodeBeU32 | src/psarc.rs:211-215 | re-encoding a decoded u32 gives its four bytes back |
| Bytes.EncodeDecodeBeU16 | src/psarc.rs:243-248 | re-encoding a decoded u16 gives its two bytes back |
| Bytes.Join40 | src/psarc.rs:224-230 | the joined value is below 2^40, with the high byte and low word as its quotient and remainder by 2^32 |
| Bytes.Encode40 | src/psarc.rs:620-632 | a 40-bit field is five bytes |
| Bytes.Decode40 | src/psarc.rs:224-230 | five bytes decode to a value below 2^40 |
| Bytes.Split40RoundTrip | src/psarc.rs:620-632 | writing a size as `>> 32` byte and `as u32` word and joining them gives the size modulo 2^40, the size itself below 2^40 |
| Bytes.Encode40RoundTrip | psarc_compare.py:21-22 | five big-endian bytes decode back to any value below 2^40 |
| Bytes.BeIntBound | psarc_compare.py:21-22 | `int.from_bytes` of n bytes is below 256^n |
| Bytes.BeIntFour | psarc_compare.py:20 | `int.from_bytes` of four bytes equals the `>I` unpack |
| Bytes.BeIntFive | psarc_compare.py:21-22 | `int.from_bytes` of five bytes equals the Rust 40-bit join |
| Bytes.Clip | psarc_compare.py:18 | a Python slice `s[a:b]`: the sub-sequence when in range, the rest of `s` when `b` overhangs its end, empty when `b <= a` or `a` is past the end |
| Blocks.BlockCount | src/psarc.rs:1151 | the number of iterations of a loop that subtracts the block size with saturation: zero exactly for size 0 |
| Blocks.BlockCountCeil | src/psarc.rs:1151 | that count is the ceiling of size over block size |
| Blocks.BlockCountFormula | src/psarc.rs:377 | for 65536-byte blocks the count is `(size + 65535) / 65536`, the number of `chunks(BLOCK_SIZE)` |
| Blocks.BlockCountStep | src/psarc.rs:1151 | one iteration removes exactly one block from the count |
| Blocks.SumStoredAppend | src/psarc.rs:1150 | the bytes the reader skips over two runs of zsizes is the sum of each |
| Blocks.FlattenAppend | src/psarc.rs:511 | concatenating block contents distributes over joining the block lists |
| Blocks.FlattenLength | src/psarc.rs:568 | the length of concatenated blocks is the sum of their lengths |
| Blocks.Chunks | src/psarc.rs:475 | `chunks(BLOCK_SIZE)`: as many chunks as blocks, none empty or over the block size, all but the last full |
| Blocks.ChunksFlatten | src/psarc.rs:475 | concatenating the chunks gives the data back |
| Blocks.ChunkLength | src/psarc.rs:475 | chunk k starts at k blocks and has the length the reader expects for that remainder |
| Zlib.LooksLikeZlib | src/psarc.rs:1116-1119 | defining function, no contract: the zlib header test: 0x78 followed by 0x01, 0x5E, 0x9C or 0xDA |
| PsarcToc.DecodeHeader | src/psarc.rs:826-851 | the header decode succeeds exactly on 32 bytes starting `PSAR` (and, for extraction, tagged `zlib`); a wrong magic is InvalidData, a wrong tag Unsupported, a short input UnexpectedEof |
| PsarcToc.EncodeHeader | src/psarc.rs:594-612 | the written header is 32 bytes |
| PsarcToc.DecodeEncodeHeader | src/psarc.rs:594-612 | decoding the written header gives version 1.4, `zlib`, the u32-truncated TOC length and entry count, entry size 30, the block size and flags 1 |
| PsarcToc.DecodeEntry | src/psarc.rs:219-237 | the hash, the big-endian zsize index and the two 40-bit fields of a record, each below 2^40 |
| PsarcToc.EncodeEntry | src/psarc.rs:615-633 | a written record is 30 bytes |
| PsarcToc.DecodeEncodeEntry | src/psarc.rs:615-633 | decoding a written record gives its hash, zsize index and the size and absolute offset modulo 2^40 |
| PsarcToc.EntryPosNext | src/psarc.rs:219-238 | each record starts 30 bytes after the previous one |
| PsarcToc.EntryPosMonotone | src/psarc.rs:219-238 | later records start no earlier |
| PsarcToc.Toc | src/psarc.rs:217-238 | the table decodes exactly when the input holds all records, then to `file_count` entries; otherwise UnexpectedEof |
| PsarcToc.ReadToc | src/psarc.rs:217-238 | the record loop computes `Toc` |
| PsarcToc.ZSizeCount | src/psarc.rs:240-242 | the zsize count is half of what the TOC length leaves after header and records, rounded down; a TOC length too small for the records panics |
| PsarcToc.ZSizeTable | src/psarc.rs:243-248 | the table reads each zsize as a big-endian u16 at `start + 2i`, and panics when it runs past the input |
| PsarcToc.EncodeZSizes | src/psarc.rs:635-638 | two bytes per zsize |
| PsarcToc.EncodeZSizesSnoc | src/psarc.rs:636-638 | each iteration appends one zsize's two bytes |
| PsarcToc.ZSizeAt | src/psarc.rs:243-248 | zsize i of a written table is at `start + 2i` |
| PsarcToc.ZSizeTableOf | src/psarc.rs:243-248 | the table reads as any zsizes found at those places |
| PsarcToc.ZSizeTableRoundTrip | src/psarc.rs:635-638 | the written zsize table reads back as the same zsizes wherever it sits |
| PsarcToc.ZSizeCountOfWrittenLength | src/psarc.rs:604-606 | the TOC length the writer records makes the reader count exactly the zsizes written |
| PsarcToc.ReadTables | src/psarc.rs:826-884 | header, records and zsize table read in order; on success as many entries as the count and `(toc_length - 32 - 30n) / 2` zsizes |
| PsarcToc.ReadTablesSpec | src/psarc.rs:826-884 | defining function, no contract: header, then records, then zsize count and table, the first error stopping the read |
| PsarcRead.DecodeBlock | src/psarc.rs:1094-1142 | one block's output: only a nonzero zsize can fail, with InvalidData; a zero-zsize block is copied, cut to `remaining` on the last block |
| PsarcRead.ReadLoop | src/psarc.rs:1066-1153 | the loop state machine: fails only with InvalidData and otherwise yields at least the entry's size |
| PsarcRead.ReadFileDataSpec | src/psarc.rs:1047-1156 | `read_file_data` (as written or corrected): fails only with InvalidData, otherwise at least `uncompressed_size` bytes |
| PsarcRead.ReadFileDataStart | src/psarc.rs:1058-1064 | an offset inside the archive passes the bounds check and goes to the loop |
| PsarcRead.DecodeStoredBlock | src/psarc.rs:1094-1142 | the block decode of the source computes `DecodeBlock` as written |
| PsarcRead.ReadFileData | src/psarc.rs:1047-1156 | the loop computes `ReadFileDataSpec` as written; an offset at or past the end is InvalidData; results have at least the entry's size |
| PsarcRead.CachedLoopZeroBlock | src/psarc.rs:150-180 | with a block size of 0 from the header, a non-empty entry is never cached |
| PsarcRead.CachedLoopClosedForm | src/psarc.rs:150-180 | the copy loop runs exactly one iteration per block of the entry's size |
| PsarcRead.CachedBlocksStep | src/psarc.rs:172-179 | one iteration copies the stored bytes of one zsize and records that zsize |
| PsarcRead.CachedBlocksFirstFails | src/psarc.rs:151-170 | a missing zsize or a block past the end of the file is InvalidData |
| PsarcRead.CachedRun | src/psarc.rs:138-187 | defining function, no contract: the copy of one entry's stored blocks and zsizes |
| PsarcRead.ReadCachedFileData | src/psarc.rs:138-187 | the copy loop computes `CachedRun`; on success it keeps the entry's size, failing only with InvalidData |
| PsarcRead.CachedLoopIsCachedRun | src/psarc.rs:145-180 | the loop from the entry's fields is `CachedRun` |
| PsarcRead.CachedRunBlocks | src/psarc.rs:150-180 | a non-empty entry copies exactly its block count of blocks |
| PsarcRead.CacheOfKeys | src/psarc.rs:250-261 | the cache never holds the manifest's zero hash, and every key is the hash of some entry |
| PsarcRead.CacheOf | src/psarc.rs:250-261 | defining function, no contract: the cache built from the entries in order |
| PsarcRead.BuildCache | src/psarc.rs:250-261 | the loop over the entries builds `CacheOf`, skipping the manifest and entries that fail to copy, later entries replacing earlier ones |
| PsarcRead.LoadPsarcCache | src/psarc.rs:190-265 | the cache loads exactly when the tables decode (without the compression check), and is then the cache of those tables |
| PsarcWrite.FileBlockZSize | src/psarc.rs:486-511 | for a file block the zsize gives the stored length exactly, is 0 only for a raw full block, and the stored bytes are the chunk or its strictly shorter compressed form |
| PsarcWrite.ManifestBlockZSize | src/psarc.rs:383-401 | for a manifest block the zsize gives the stored length except for a raw partial block, which gets zsize 0 although it is shorter than a block |
| PsarcWrite.ChooseBlock | src/psarc.rs:484-511 | defining function, no contract: one block stored compressed when that is strictly shorter, else raw, with the zsize of the rule |
| PsarcWrite.Packed | src/psarc.rs:475-524 | defining function, no contract: a file's blocks, zsizes and length |
| PsarcWrite.Process | src/psarc.rs:425-526 | defining function, no contract: a fresh file is packed, a reused one keeps its cached run |
| PsarcWrite.EncodeBlocks | src/psarc.rs:475-511 | one stored block per chunk |
| PsarcWrite.BlocksSnoc | src/psarc.rs:510-511 | one iteration appends one block's bytes and zsize |
| PsarcWrite.CompressBlocks | src/psarc.rs:475-524 | the per-file loop computes `Packed`: the chunks' stored bytes, their zsizes and the file length |
| PsarcWrite.Runs | src/psarc.rs:373-577 | the manifest run first, then one run per file in order |
| PsarcWrite.LayoutEntries | src/psarc.rs:560-576 | one entry per run |
| PsarcWrite.PackRuns | src/psarc.rs:373-577 | the two write loops give the entries (zsize index and relative offset where earlier runs end), all zsizes and all data, in run order |
| PsarcWrite.EncodeEntries | src/psarc.rs:615-633 | 30 bytes per entry |
| PsarcWrite.EncodeEntriesSnoc | src/psarc.rs:615-633 | each iteration appends the record with the offset made absolute by `toc_length` |
| PsarcWrite.EntryRecord | src/psarc.rs:616-632 | the six writes of one record are `EncodeEntry` |
| PsarcWrite.ArchiveBytes | src/psarc.rs:594-642 | defining function, no contract: header, records, zsize table and data |
| PsarcWrite.WriteArchive | src/psarc.rs:594-642 | the output writes are `ArchiveBytes`: header, records, zsize table, data |
| PsarcWrite.WriteEntries | src/psarc.rs:615-633 | the record loop appends `EncodeEntries` |
| PsarcWrite.WriteZSizes | src/psarc.rs:636-638 | the zsize loop appends `EncodeZSizes` |
| PsarcWrite.PackArchive | src/psarc.rs:373-642 | the whole writer from the resolved, hashed file list: `PackedArchive` |
| PsarcWrite.PackedArchive | src/psarc.rs:373-642 | defining function, no contract: the layout of the manifest run and the file runs, written out |
| PsarcRoundTrip.DecodeWrittenBlock | src/psarc.rs:1094-1142 | a block as the writer stores it decodes to its chunk, provided a raw partial file block does not look like zlib to the as-written reader |
| PsarcRoundTrip.EncodeBlocksFront | src/psarc.rs:475 | the first block of a run is that of the first chunk |
| PsarcRoundTrip.LastChunkOfRest | src/psarc.rs:475 | dropping the first block keeps the same last chunk |
| PsarcRoundTrip.MisreadTailOfRest | src/psarc.rs:500-508 | whether the last block is misread does not change when the first block is dropped |
| PsarcRoundTrip.FullChunkStoredLen | src/psarc.rs:500-508 | a full block's zsize gives its stored length under both rules |
| PsarcRoundTrip.StoredFits | src/psarc.rs:1075-1079 | the reader's block length is never shorter than what was stored |
| PsarcRoundTrip.ReadLoopStep | src/psarc.rs:1144-1152 | one successful iteration advances index, offset and remaining and appends the block |
| PsarcRoundTrip.RunFront | src/psarc.rs:1068-1092 | in a placed run the first zsize and block are where the reader looks, and the rest follows |
| PsarcRoundTrip.FirstBlockAt | src/psarc.rs:1068-1142 | the first block of a placed run decodes to its chunk and, if full, leaves the rest placed after it |
| PsarcRoundTrip.MoreFirstBlockAt | src/psarc.rs:1068-1142 | the same for a run of more than one block |
| PsarcRoundTrip.ReadWrittenLast | src/psarc.rs:1066-1153 | a placed last block completes the entry's bytes |
| PsarcRoundTrip.ReadWrittenRun | src/psarc.rs:1066-1153 | the loop over a placed run of any length yields exactly the data (as-written reader: when the tail is not misread) |
| PsarcRoundTrip.ReadWrittenMore | src/psarc.rs:1066-1153 | the inductive step of that for runs of more than one block |
| PsarcRoundTrip.MoreStep | src/psarc.rs:1144-1152 | a first block followed by the rest's bytes gives the whole data |
| PsarcArchive.Absolute | src/psarc.rs:629 | one absolute entry per relative one |
| PsarcArchive.EncodeEntriesAt | src/psarc.rs:615-633 | record i sits at `30 i` in the written records |
| PsarcArchive.RecordRoundTrip | src/psarc.rs:615-633 | a record written with fields below 2^40 decodes to the entry with its offset made absolute |
| PsarcArchive.WrittenEntry | src/psarc.rs:615-633 | record i of a written archive decodes to the absolute entry i |
| PsarcArchive.WrittenToc | src/psarc.rs:217-238 | the table of a written archive decodes to the absolute entries |
| PsarcArchive.WrittenTables | src/psarc.rs:594-638 | reading the tables of written bytes gives the header written, the absolute entries and the zsizes |
| PsarcArchive.ReadTablesOf | src/psarc.rs:826-884 | the table read succeeds when each of its four steps does |
| PsarcArchive.ZSizesBeforePrefix | src/psarc.rs:560-564 | the zsizes of fewer runs are a prefix of those of more |
| PsarcArchive.DataBeforePrefix | src/psarc.rs:567-568 | the data of fewer runs is a prefix of that of more |
| PsarcArchive.FitsRepresentable | src/psarc.rs:604-633 | when sizes and counts fit their fields, every record has its size and absolute offset below 2^40 |
| PsarcArchive.LayoutEntryRead | src/psarc.rs:560-576 | entry i has the run's hash, the zsize index where earlier runs end, the run's size and an offset of TOC length plus the earlier data |
| PsarcArchive.ArchiveTables | src/psarc.rs:594-638 | the tables of a packed archive read back as written |
| PsarcArchive.ArchiveSplit | src/psarc.rs:594-642 | a packed archive is its first `toc_length` bytes followed by the data |
| PsarcArchive.RunPlaced | src/psarc.rs:560-576 | each run's zsizes sit at its zsize index and its bytes at its offset |
| PsarcArchive.FileRunStoredLen | src/psarc.rs:500-508 | for a file the zsizes add up to exactly the bytes stored |
| PsarcArchive.SumStoredPositive | src/psarc.rs:1075-1079 | a non-empty zsize run covers at least one byte |
| PsarcArchive.RunAtEntry | src/psarc.rs:560-576 | a run lies where the reader looks for it |
| PsarcArchive.EntryOfRun | src/psarc.rs:826-884 | the tables of a packed archive hold, at i, the entry the writer made for run i |
| PsarcArchive.FileRunReads | src/psarc.rs:1047-1156 | the reader gives a packed file's bytes back (as written: unless its tail is misread or it is an empty last entry) |
| PsarcArchive.ReadBackFile | src/psarc.rs:1047-1156 | the same from the tables read off the archive |
| PsarcArchive.ManifestRunReads | src/psarc.rs:899-902 | the manifest entry reads back when its declared blocks fit in the data; an empty manifest reads back with the corrected reader, and with the reader as written only when some data follows it |
| PsarcArchive.ReadBackManifest | src/psarc.rs:899-902 | the tables of a packed archive start with the zero-hash manifest entry with a nonzero offset, and it reads back, an empty manifest under the same condition |
| PsarcArchive.ManifestRunFails | src/psarc.rs:383-401 | a raw partial manifest block with less than a block of data behind it makes the manifest read fail |
| PsarcArchive.ManifestQuirk | src/psarc.rs:899-950 | so extraction of such an archive cannot read its manifest, with either reader variant |
| PsarcArchive.EmptyLastFile | src/psarc.rs:1058-1064 | an empty last file of a packed archive fails to read as written and reads as empty when corrected |
| PsarcArchive.EmptyFolder | src/psarc.rs:1058-1064 | an empty folder packs to an archive whose empty manifest fails to read as written and reads as empty when corrected |
| PsarcArchive.MisreadRun | src/psarc.rs:1107-1131 | a two-block file whose raw partial tail looks like zlib fails to read |
| PsarcArchive.MisreadTailBlock | src/psarc.rs:1107-1131 | such a tail block alone fails |
| PsarcArchive.MisreadLastBlock | src/psarc.rs:1107-1131 | in a packed archive such a file fails to read as written and reads back when corrected |
| PsarcArchive.MisreadFileRun | src/psarc.rs:1107-1131 | the same as written, for a run placed anywhere |
| PsarcArchive.PackedWellFormed | src/psarc.rs:475-524 | a freshly packed file's zsizes cover exactly its stored bytes |
| PsarcArchive.CachedRunOfWritten | src/psarc.rs:138-187 | copying a written run gives the run back |
| PsarcArchive.CacheStep | src/psarc.rs:252-261 | one step of the cache loop keeps the cache equal to the non-manifest runs seen so far, the last one per hash |
| PsarcArchive.CacheStepKey | src/psarc.rs:254-260 | after a step, a hash is a key exactly when it is nonzero and among the runs seen |
| PsarcArchive.CacheStepValue | src/psarc.rs:258-260 | after a step, each hash maps to the last run with that hash |
| PsarcArchive.RunsMapCaches | src/psarc.rs:250-261 | the map of runs has those keys and values |
| PsarcArchive.CacheOfRuns | src/psarc.rs:250-261 | on a written archive the cache loop builds that map |
| PsarcArchive.LoadedCacheOfWritten | src/psarc.rs:190-265 | loading the cache of a written archive gives every file run, the last per hash |
| PsarcArchive.PackedRuns | src/psarc.rs:373-642 | the packed archive is the archive of the runs: the manifest, then each file's blocks |
| PsarcArchive.PackThenRead | src/psarc.rs:268-642 | packing files and extracting any of them gives its hash and its bytes back (as written: for a non-empty file whose tail is not misread) |
| PsarcArchive.PackThenLoadCache | src/psarc.rs:190-265 | loading the cache of a packed archive yields every packed file's blocks, as the next incremental pack reuses them |
| Manifest.TrimStart | src/psarc.rs:712 | `trim` (start): the longest suffix with no leading whitespace, only whitespace cut |
| Manifest.TrimEnd | src/psarc.rs:712 | `trim` (end): the longest prefix with no trailing whitespace, only whitespace cut |
| Manifest.TrimStartBom | src/psarc.rs:712 | `trim_start_matches('\u{feff}')`: every leading byte order mark removed, nothing else |
| Manifest.ReplaceBackslash | src/psarc.rs:716 | every `\` becomes `/`, every other character stays |
| Manifest.IndexOf | src/psarc.rs:710 | the first occurrence of a character |
| Manifest.StripCr | src/psarc.rs:710 | removing a line's `\r` keeps a prefix of it |
| Manifest.SplitNewlines | src/psarc.rs:710 | the pieces between newlines, none holding one |
| Manifest.EndedLines | src/psarc.rs:710 | the lines ended by a newline, each without its `\r` |
| Manifest.Lines | src/psarc.rs:710 | defining function, no contract: `str::lines`: split at `\n`, each ended line without its `\r`, no empty last line |
| Manifest.LinesHaveNoNewline | src/psarc.rs:710 | no line of `str::lines` holds a newline |
| Manifest.NormalizeManifestLinesClean | src/psarc.rs:709-720 | every normalized path is non-empty, has no newline and no backslash, does not end in whitespace and does not start with a byte order mark |
| Manifest.NormalizeAllClean | src/psarc.rs:709-720 | the same for any list of lines without newlines |
| Manifest.NormalizeLineClean | src/psarc.rs:712-718 | the same for one line |
| Manifest.NormalizeLineStart | src/psarc.rs:712-718 | a normalized line is `Normalized` (so a second normalization keeps it) exactly when it does not start with whitespace, and it starts with whitespace only when the trimmed line started with a byte order mark |
| Manifest.Trim | src/psarc.rs:712 | defining function, no contract: `trim`: whitespace dropped at both ends |
| Manifest.NormalizeLine | src/psarc.rs:712-718 | defining function, no contract: one line trimmed, stripped of leading byte order marks, dropped when empty, `\` made `/` |
| Manifest.NormalizeAll | src/psarc.rs:710-719 | defining function, no contract: the kept lines in order |
| Manifest.NormalizeManifestLines | src/psarc.rs:709-720 | defining function, no contract: `normalize_manifest_lines` |
| Manifest.BomThenSpace | src/psarc.rs:712 | U+FEFF, space, `a` normalizes to ` a`, and ` a` normalizes to `a`: normalization is not idempotent |
| Manifest.TrimmedLine | src/psarc.rs:712 | a trimmed, BOM-stripped line without newline has no newline, does not end in whitespace and does not start with a byte order mark |
| Manifest.ReplaceClean | src/psarc.rs:716 | replacing backslashes keeps such a line clean |
| Manifest.NormalizeLineOfNormalized | src/psarc.rs:712-718 | normalizing an already normalized path changes nothing |
| Manifest.JoinLinesSnoc | src/psarc.rs:722-732 | adding a path appends a newline and the path, except to an empty list |
| Manifest.JoinLines | src/psarc.rs:722-732 | defining function, no contract: the paths joined by `\n`, with no newline after the last |
| Manifest.WrittenPrefixStep | src/psarc.rs:724-730 | each iteration writes the path and a newline unless it is the last |
| Manifest.ManifestBytesFromPaths | src/psarc.rs:722-732 | the loop writes the paths joined by newlines, with no trailing newline |
| Manifest.JoinLinesEnds | src/psarc.rs:722-732 | the joined text ends with the last path |
| Manifest.SplitJoin | src/psarc.rs:722-732 | splitting the joined text at newlines gives the paths back |
| Manifest.LinesJoin | src/psarc.rs:709-732 | `str::lines` of the joined text gives back paths that hold no newline and do not end in `\r` |
| Manifest.NormalizeAllOfNormalized | src/psarc.rs:709-720 | normalizing normalized paths gives them back |
| Manifest.NormalizeJoin | src/psarc.rs:709-732 | normalizing the manifest written for normalized paths gives those paths back |
| NameHash.ToAsciiUpper | src/psarc.rs:750 | `to_ascii_uppercase`: same length, each character uppercased when ASCII lowercase |
| NameHash.CalculateMd5 | src/psarc.rs:742-755 | defining function, no contract: the digest of the path, uppercased when it holds an ASCII lowercase letter |
| NameHash.CalculateMd5Upper | src/psarc.rs:742-755 | both branches hash the ASCII-uppercased path |
| NameHash.CalculateMd5CaseInsensitive | src/psarc.rs:742-755 | two paths that differ only in ASCII case have the same name hash |
| NameHash.ToAsciiUpperIdempotent | src/psarc.rs:746-752 | uppercasing twice is uppercasing once |
| NameHash.LexLeTotal | src/psarc.rs:690-694 | the order the fallback sorts by (byte-wise on the digests) is total |
| NameHash.LexLeTransitive | src/psarc.rs:690-694 | that order is transitive |
| NameHash.LexLeAntisymmetric | src/psarc.rs:690-694 | and antisymmetric |
| NameHash.HexByte | src/psarc.rs:760 | `{:02X}` gives two characters |
| NameHash.HexValue | src/psarc.rs:760 | a hexadecimal digit's value is below 16 |
| NameHash.HexDigitValue | src/psarc.rs:760 | each printed digit reads back as its value |
| NameHash.HashToString | src/psarc.rs:757-763 | two characters per byte and one `-` between bytes, empty for no bytes |
| NameHash.ParseHexByte | src/psarc.rs:760 | the two digits of a byte are its high and low nibble |
| NameHash.HashToStringDigits | src/psarc.rs:757-763 | every third character is `-`, all others uppercase hexadecimal digits |
| NameHash.HashToStringLength | src/psarc.rs:757-763 | a 16-byte hash prints as 47 characters |
| NameHash.ParseHashToString | src/psarc.rs:757-763 | the printed form parses back to the bytes |
| NameHash.ParseGroup | src/psarc.rs:757-763 | a two-digit group, `-` and a parsed rest parse to the byte followed by the rest |
| NameHash.HashToStringInjective | src/psarc.rs:757-763 | different hashes print differently |
| FileOrder.Names | src/psarc.rs:696-702 | the archive paths of the files, in order |
| FileOrder.PathMap | src/psarc.rs:658-661 | defining function, no contract: archive path to disk path, later files replacing earlier ones |
| FileOrder.PathMapKeys | src/psarc.rs:658-661 | the path map's keys are exactly the discovered archive paths |
| FileOrder.PathMapLast | src/psarc.rs:658-661 | a path maps to the disk path of its last occurrence |
| FileOrder.Walk | src/psarc.rs:663-672 | defining function, no contract: the manifest paths taken out of the map in order, missing ones collected |
| FileOrder.WalkRest | src/psarc.rs:666-672 | after the walk the map holds exactly the discovered paths the manifest did not name, unchanged |
| FileOrder.WalkNoMissing | src/psarc.rs:666-672 | nothing is missing exactly when the manifest paths are distinct and all discovered |
| FileOrder.WalkOrdered | src/psarc.rs:666-672 | with nothing missing, the files come one per manifest path, in manifest order, with their disk paths |
| FileOrder.Insert | src/psarc.rs:690-694 | one insertion: one longer, a permutation of the input plus the element |
| FileOrder.SortByHash | src/psarc.rs:690-694 | the sort is a permutation |
| FileOrder.InsertSorted | src/psarc.rs:690-694 | insertion keeps a list sorted by name hash |
| FileOrder.SortByHashSorted | src/psarc.rs:690-694 | the sort's result is sorted by name hash |
| FileOrder.SortedPairwise | src/psarc.rs:690-694 | in a sorted list every earlier hash is at most every later one |
| FileOrder.InsertWithKey | src/psarc.rs:690-694 | among files of one hash, an inserted file comes first and the others keep their order |
| FileOrder.SortByHashStable | src/psarc.rs:690-694 | the sort is stable: files with the same name hash (paths differing only in ASCII case) keep their discovery order |
| FileOrder.Fallback | src/psarc.rs:689-706 | defining function, no contract: the files sorted by name hash and the manifest of their paths |
| FileOrder.WalkManifest | src/psarc.rs:663-672 | the walk loop computes `Walk` |
| FileOrder.ResolveFileOrder | src/psarc.rs:649-707 | the function computes `ResolveSpec` |
| FileOrder.ResolveSpec | src/psarc.rs:649-707 | defining function, no contract: the manifest order when every manifest path is found, NotFound when a non-empty manifest misses some, otherwise the fallback |
| FileOrder.ResolveManifestOrder | src/psarc.rs:673-676 | a manifest naming every discovered path once gives the files in manifest order and the normalized manifest |
| FileOrder.ResolveNotFound | src/psarc.rs:678-683 | the result is an error exactly when a non-empty manifest has a duplicate or undiscovered path, and the error is NotFound |
| FileOrder.ResolveFallback | src/psarc.rs:689-706 | with no usable manifest, or one naming only some files, the files are sorted by name hash as a permutation of the discovered files, and the manifest lists their paths |
| ArcPaths.Segments | src/ui/pack_confirm_modal.rs:26 | at least one piece |
| ArcPaths.SegmentsFirst | src/ui/pack_confirm_modal.rs:26 | the first piece is what comes before the first separator |
| ArcPaths.SegmentsWhole | src/ui/pack_confirm_modal.rs:26 | a text without separator is one piece |
| ArcPaths.Normal | src/ui/pack_confirm_modal.rs:29 | the kept components are non-empty and not `.` |
| ArcPaths.Components | src/ui/pack_confirm_modal.rs:26-29 | defining function, no contract: `Path::components`, keeping the normal components |
| ArcPaths.Contribution | src/ui/pack_confirm_modal.rs:14-31 | defining function, no contract: what one path adds to the result, if anything |
| ArcPaths.ArcFiles | src/ui/pack_confirm_modal.rs:9-36 | defining function, no contract: the set of all contributions |
| ArcPaths.GetModifiedFilesForArc | src/ui/pack_confirm_modal.rs:9-36 | the loop builds `ArcFiles`: every path's contribution |
| ArcPaths.ArcFilesAdd | src/ui/pack_confirm_modal.rs:14-33 | one more path adds its contribution, if any |
| ArcPaths.PrefixedContribution | src/ui/pack_confirm_modal.rs:17-25 | a path under `arc/` or `arc\` contributes its rest with `/` separators |
| ArcPaths.ContributionReplaced | src/ui/pack_confirm_modal.rs:25-30 | every contribution is a text with backslashes replaced |
| ArcPaths.ArcFilesNoBackslash | src/ui/pack_confirm_modal.rs:25-30 | no result holds a backslash |
| ArcPaths.NoBackslashAfterReplace | src/ui/pack_confirm_modal.rs:25 | replacing backslashes leaves none |
| ArcPaths.ArcFilesSize | src/ui/pack_confirm_modal.rs:14-33 | no more results than modified paths |
| ArcPaths.FirstComponentOfArc | src/ui/pack_confirm_modal.rs:26-28 | the first component of a folder name followed by a separator is the folder name |
| ArcPaths.WholeFolderName | src/ui/pack_confirm_modal.rs:17-31 | a path that only begins with the folder name (`arc_1x/...` for `arc_1`) contributes nothing |
| ArcPaths.ContributesIff | src/ui/pack_confirm_modal.rs:17-31 | a path contributes exactly when its first component is the folder, or (off Windows) it starts with `arc\` |
| ArcPaths.FolderItself | src/ui/pack_confirm_modal.rs:26-30 | the folder itself contributes the empty path |
| PyReader.DecodePyEntry | psarc_compare.py:18-28 | a record decodes when it has the 20 bytes `>I` needs; a full record gives the hash, index and the big-endian 40-bit fields |
| PyReader.PyEntries | psarc_compare.py:17-29 | on success one entry per record, each the decode of the record at `32 + k * entry_size`; otherwise a `struct.error` |
| PyReader.PyZSizeCount | psarc_compare.py:30-31 | half of what the TOC length leaves, or none when that is negative |
| PyReader.PyZSizes | psarc_compare.py:31 | the zsizes read when the table fits (or is empty), else a `struct.error` |
| PyReader.ReadPyEntries | psarc_compare.py:16-29 | the record loop computes `PyEntries` |
| PyReader.LoadPsarc | psarc_compare.py:8-43 | the loader computes `LoadPsarcSpec` |
| PyReader.LoadPsarcSpec | psarc_compare.py:8-43 | defining function, no contract: the loader's header fields, entries and zsizes, or the exception it raises |
| PyReader.PyEntriesStop | psarc_compare.py:17-19 | once a record fails every longer table fails |
| PyReader.LoadValueError | psarc_compare.py:10-12 | `ValueError` exactly when the first four bytes are not `PSAR` |
| PyReader.LoadFields | psarc_compare.py:13-43 | a successful load read 32 bytes starting `PSAR`, and has the header's TOC length, entry size and count, one entry per file and the computed number of zsizes |
| PyReader.PyBlock | psarc_compare.py:54-65 | a zero zsize copies `min(BLOCK_SIZE, remaining)` bytes; any other decompresses that many stored bytes, a bad stream being a `zlib.error` |
| PyReader.PyLoop | psarc_compare.py:53-66 | defining function, no contract: the block loop of `extract_entry` |
| PyReader.PyIndex | psarc_compare.py:47 | defining function, no contract: Python list indexing, negative indices counting from the end, `IndexError` outside |
| PyReader.ExtractEntrySpec | psarc_compare.py:46-67 | defining function, no contract: `extract_entry` |
| PyReader.ExtractEntry | psarc_compare.py:46-67 | the function computes `ExtractEntrySpec`, with Python's negative indexing |
| PyReader.ReadBlocks | psarc_compare.py:53-66 | the loop computes `PyLoop` |
| PyReader.PyLoopUnfold | psarc_compare.py:53-66 | one successful iteration prepends its block |
| PyReader.PyLoopStepTo | psarc_compare.py:53-66 | the same, from the rest's result |
| PyReader.PyLoopNoZSize | psarc_compare.py:55 | a missing zsize is an `IndexError` |
| PyReader.PyLoopBadBlock | psarc_compare.py:62-64 | a bad compressed block is a `zlib.error` |
| PyReader.PyLoopAdvance | psarc_compare.py:53-66 | the output so far plus the rest's result is unchanged by one iteration |
| PyReader.PrependAssoc | psarc_compare.py:60 | prepending twice is prepending the concatenation |
| PyReader.PyLoopBlocks | psarc_compare.py:53-66 | a successful read used one zsize per block of the entry |
| PyReader.PyLoopFrame | psarc_compare.py:53-66 | the read depends only on the entry's own zsizes |
| PyReader.PyLoopIndexError | psarc_compare.py:55 | raw zsizes that stop short of the entry's blocks give an `IndexError` |
| PyReader.PyLoopRaw | psarc_compare.py:57-61 | an entry of zero zsizes reads as the raw bytes at its offset |
| PyArchiveReads.RecordAgrees | psarc_compare.py:17-28 | a full record decodes in Python to the fields the Rust decode gives |
| PyArchiveReads.PyEntriesOk | psarc_compare.py:17-29 | the records decode when the input holds them all |
| PyArchiveReads.PyEntriesAgree | psarc_compare.py:17-29 | the Python table agrees with the Rust table, entry by entry |
| PyArchiveReads.ZSizeCountsAgree | psarc_compare.py:30 | both readers count the same number of zsizes |
| PyArchiveReads.LoadAgreesWithTables | psarc_compare.py:8-43 | when the Rust tables decode with entry size 30, the Python load succeeds and agrees with them |
| PyArchiveReads.LoadAgreesWithParts | psarc_compare.py:8-43 | the same from the four decoding steps |
| PyArchiveReads.PartsMatch | psarc_compare.py:32-43 | agreeing entries make agreeing archives |
| PyArchiveReads.TablesParts | src/psarc.rs:826-884 | a successful table read has all four steps successful |
| PyArchiveReads.PyZSizesOfTable | psarc_compare.py:31 | both readers read the same zsize table |
| PyArchiveReads.LoadOf | psarc_compare.py:8-43 | the Python load of a valid archive is built from its parts |
| PyArchiveReads.StoredFront | psarc_compare.py:55-65 | the first block of a stored run is where the Python reader looks |
| PyArchiveReads.PyWrittenBlock | psarc_compare.py:54-65 | a written block other than a raw partial file block reads back as its chunk |
| PyArchiveReads.PyReadsWrittenRun | psarc_compare.py:53-66 | a stored run reads back as its content unless it ends with a raw partial file block |
| PyArchiveReads.PyReadsLastBlock | psarc_compare.py:53-66 | the same for one block |
| PyArchiveReads.PyReadsWrittenMore | psarc_compare.py:53-66 | the inductive step of that |
| PyArchiveReads.PyMoreFirstBlock | psarc_compare.py:54-65 | the first block of a longer run reads back and leaves the rest in place |
| PyArchiveReads.PyMisreadsWrittenRun | psarc_compare.py:62-64 | a run ending in a raw partial file block that does not inflate raises `zlib.error` |
| PyArchiveReads.PyMisreadsWrittenMore | psarc_compare.py:62-64 | the inductive step of that |
| PyArchiveReads.PyMisreadsLastBlock | psarc_compare.py:62-64 | the same for one block |
| PyArchiveReads.SingleStoredAt | psarc_compare.py:55-63 | a one-block run is at the reader's place |
| PyArchiveReads.PyLoopBlockFails | psarc_compare.py:62-64 | a failing block is the loop's error |
| PyArchiveReads.PyEntryOfRun | psarc_compare.py:8-43 | the Python load of a packed archive has, at i, run i's size and place |
| PyArchiveReads.LoadOfRuns | psarc_compare.py:8-43 | the Python load of a packed archive agrees with the tables written |
| PyArchiveReads.RunPlacedForPy | psarc_compare.py:46-50 | the Python entry of a run has the run's size and place |
| PyArchiveReads.PyReadsFile | psarc_compare.py:46-67 | the Python reader reads a packed file back unless its last block is raw and partial |
| PyArchiveReads.PyRawPartialFile | psarc_compare.py:62-64 | a packed file whose raw partial last block does not inflate raises `zlib.error` |
| PyArchiveReads.PyReadsManifest | psarc_compare.py:46-67 | the Python reader reads the manifest of a packed archive back, raw partial blocks included |
| PyArchiveReads.QuirkyManifestReaders | psarc_compare.py:57-61 | for a raw partial manifest the Rust reader fails and the Python reader succeeds |
| Evb.AsciiIgnore | evb_to_json.py:20 | `decode("ascii", errors="ignore")` drops bytes, never adds one |
| Evb.RStripNul | evb_to_json.py:20 | `rstrip("\0")`: a prefix, not ending in NUL, only NULs removed |
| Evb.AsciiIgnoreAll | evb_to_json.py:20 | if nothing was dropped every byte was ASCII |
| Evb.HeaderAccepted | evb_to_json.py:20-23 | the header is `FBKK` exactly when the first four bytes are `FBKK` |
| Evb.HeaderText | evb_to_json.py:20 | defining function, no contract: the decoded, NUL-stripped first four bytes |
| Evb.CheckTypeSpec | evb_to_json.py:17-23 | defining function, no contract: too small, a bad header, or success |
| Evb.AsciiIgnoreAscii | evb_to_json.py:20 | ASCII bytes decode one to one |
| Evb.CheckTypeErrors | evb_to_json.py:17-23 | too small exactly below four bytes; otherwise accepted exactly for the `FBKK` bytes |
| Evb.WordsFromSpec | evb_to_json.py:30-34 | word i is the little-endian u32 at `offset + 4i`, and the loop stops at the limit or a short chunk |
| Evb.HeaderWordsSpec | evb_to_json.py:28-35 | at most 31 words, word i being the little-endian u32 at `4 + 4i`, stopping at 0x80 or the end |
| Evb.HeaderWords | evb_to_json.py:28-35 | defining function, no contract: the little-endian words at offsets 4, 8, ... below `min(len(data), 0x80)` |
| Evb.PrintablePrefix | evb_to_json.py:42 | the longest run of printable ASCII, up to the maximum |
| Evb.AsciiText | evb_to_json.py:45 | printable bytes decode to the same characters |
| Evb.RefOptions | evb_to_json.py:38-53 | one candidate per word |
| Evb.RefAt | evb_to_json.py:39-53 | defining function, no contract: the reference one word gives, if any |
| Evb.RefAtSpec | evb_to_json.py:39-53 | a word gives a reference exactly when it points into the file at a printable byte; the text is the 1..64 printable bytes there, as long as possible |
| Evb.RefsUpToSpec | evb_to_json.py:37-54 | the references come from their words in order, strictly increasing word index, one for every word that gives one |
| Evb.StringRefs | evb_to_json.py:37-54 | defining function, no contract: the references of all header words |
| Evb.RefOptionsIndexed | evb_to_json.py:38-49 | each candidate records its own word index |
| Evb.CollectFaithful | evb_to_json.py:38-53 | every collected reference comes from a candidate |
| Evb.CollectIncreasing | evb_to_json.py:38-53 | in increasing word order |
| Evb.CollectComplete | evb_to_json.py:38-53 | and none is left out |
| Evb.RunEnd | evb_to_json.py:56 | the end of the printable run from a position |
| Evb.FinditerSound | evb_to_json.py:56 | every match is a maximal run of at least four printable bytes, matches in increasing order and separated |
| Evb.SoundCons | evb_to_json.py:56 | a maximal run followed by later runs is still such a list |
| Evb.FinditerComplete | evb_to_json.py:56 | every maximal run of at least four printable bytes is matched |
| Evb.RunEndBefore | evb_to_json.py:56 | a run ends at or before the first unprintable byte |
| Evb.RunEndCovers | evb_to_json.py:56 | a run reaches at least as far as the printable bytes go |
| Evb.FoundOfSpec | evb_to_json.py:57-64 | one entry per match, its start and text |
| Evb.Strings | evb_to_json.py:56-64 | defining function, no contract: the found strings of the whole file |
| Evb.StringsSpec | evb_to_json.py:56-64 | every found string is a maximal printable run of at least four bytes, in increasing offset order, and every such run is found |
| Evb.StringsSound | evb_to_json.py:56-64 | each found string is a maximal run |
| Evb.FoundRunOfMatch | evb_to_json.py:57-64 | a match gives such a string |
| Evb.StringsOrdered | evb_to_json.py:56-64 | in increasing offset order |
| Evb.StringsComplete | evb_to_json.py:56-64 | and every run start is found |
| Evb.EvbParser.constructor | evb_to_json.py:10-15 | a parser over the data with no header and empty lists |
| Evb.EvbParser.CheckType | evb_to_json.py:17-23 | the checks of `check_type`; the header is stored (with four bytes) before it is tested; nothing else changes |
| Evb.EvbParser.Parse | evb_to_json.py:25-64 | after a successful check the header words and references are replaced and the strings appended; on an error only the header may change |
| Evb.EvbParser.ToDict | evb_to_json.py:66-72 | the four fields as they are |
| Evb.ReadHeaderWords | evb_to_json.py:28-35 | the loop computes `HeaderWords` |
| Evb.WordsFromShort | evb_to_json.py:31-33 | a short chunk means the end of the data |
| Evb.WordsFromEnd | evb_to_json.py:30-33 | the loop adds nothing past the limit |
| Evb.WordsFromStep | evb_to_json.py:30-34 | one iteration appends one word |
| Evb.ReadStringRefs | evb_to_json.py:37-54 | the loop computes `StringRefs` |
| Evb.RefsUpToNext | evb_to_json.py:38-53 | one iteration appends the word's reference, if any |
| Evb.ScanStrings | evb_to_json.py:56-64 | the loop computes `Strings` |

## Left out

- File system work: walking the folder, reading files, memory-mapping the archive, the temporary data file, creating directories and writing extracted files. The model starts from the discovered files and their contents and ends with the archive's bytes or an entry's bytes.
- The parallel compression (`par_iter`) and the sort by file index that undoes it: the model processes files in order, which is what the sort restores.
- Progress callbacks, their floating-point progress, log output and the recompressed/reused counters.
- zlib and MD5 themselves: both are function parameters (`deflate`/`inflate`, `md5`); the compression level is part of `deflate`.
- The incremental packing policy (modified set, `PackingMode`): a file's blocks are either freshly compressed or a given cached run (`PsarcWrite.Source`); which one is not modelled.
- UTF-8 decoding and encoding: the manifest is a character sequence, and a manifest that is not valid UTF-8 is a missing manifest. `Manifest.ManifestBytesFromPaths` returns the text, not its UTF-8 bytes.
- `filelist.xml` detection by lowercased name during the walk, and the output file skipped when it lies inside the folder.
- The text of the NotFound error (the list of missing paths), and the texts of all other errors.
- The extraction loop of `extract_psarc_internal` beyond reading: the filename map, `_Unknowns` names, separators. `PsarcArchive.ManifestQuirk` covers its reading of the manifest.
- Windows path prefixes (drive letters, UNC) in `ArcPaths.Components`; `\` counts as a separator only when `windows` is true.
- The script entry points (`__main__` of both Python scripts, `main()` of `evb_to_json.py`), their comparisons and JSON output; `GravityRush2_evb.py` and the other UI files are not part of this model.
- The two regular expressions of `EVBParser.parse` are modelled by what they match (a maximal printable prefix of at most 64 bytes, and maximal printable runs of at least four bytes), not as regular expressions.
- PyReader.LoadPsarc: `entry_size` is taken from the header and used as in the source; the agreement with the Rust reader (`PyArchiveReads.LoadAgreesWithTables`) is proved only for the entry size 30 that the writer records.
- PsarcRead.ReadFileData: `usize` and `u64` are unbounded integers, so an `offset + compressed_size` that wraps around is not modelled; on 64-bit targets the 40-bit fields cannot make it wrap.
- Manifest.NormalizeJoin: the manifest round trip is stated for `Normalized` paths. A manifest line made of U+FEFF followed by whitespace and a path normalizes to a path that starts with whitespace (`trim` does not count U+FEFF as whitespace), and writing and re-reading that path drops the whitespace (`Manifest.BomThenSpace`); `Manifest.NormalizeLineStart` says exactly which normalized paths the round trip covers.
- PsarcArchive.PackThenRead: proved for archives whose sizes and counts fit their fields (`PsarcArchive.Fits`: every size and offset below 2^40, counts and TOC length below 2^32). Beyond that the writer silently truncates and the round trip does not hold.
- PsarcArchive.ReadBackManifest: requires that the manifest's declared block lengths fit in the data, which fails only for the raw partial manifest block of `PsarcArchive.ManifestQuirk`. For the reader as written it also requires some data after an empty manifest: an empty folder packs to an empty manifest at the archive's end, which that reader rejects (`PsarcArchive.EmptyFolder`, the first finding).
- PsarcArchive.ManifestRunReads: the same two requirements, for the same reasons.
- PsarcArchive.PackThenLoadCache: requires that every reused run is well formed (its zsizes cover its bytes), which holds for any run the cache itself produced from a packed archive.

## Findings

| source | as written | input that shows it | evidently intended | confidence | as-written member | corrected member |
|---|---|---|---|---|---|---|
| src/psarc.rs:1058-1064 | `read_file_data` rejects any entry whose offset is at or past the end of the archive, before looking at its size | a folder whose last file in archive order is empty: the writer records for it an offset equal to the archive's length, and extraction then stops with InvalidData; an empty folder gives its empty manifest the same offset, and extraction then warns that it cannot read `FileList.xml` | an empty entry reads as no bytes wherever its offset points | high (not executed) | PsarcArchive.EmptyLastFile | PsarcArchive.PackThenRead |
| src/psarc.rs:1107-1131 | a block whose zsize is nonzero is decompressed whenever its first two bytes look like a zlib header, although the writer gives a raw partial file block its own length as zsize (src/psarc.rs:500-508) | a file of 65536 + n bytes (0 < n < 65536) whose last n bytes do not compress and start with 0x78 0x9C: that tail is stored raw with zsize n, and the reader hands it to the zlib decoder | a nonzero zsize equal to the expected length of the block marks a raw block, as the writer means it | medium (not executed) | PsarcArchive.MisreadLastBlock | PsarcArchive.PackThenRead |

Both halves live in one reader: `PsarcRead.ReadFileDataSpec` takes a
`PsarcRead.Variant`. `AsWritten` is the code of src/psarc.rs and
`PsarcRead.ReadFileData` computes it; `Corrected` skips the offset check for an
empty entry and reads a block whose zsize equals its expected length as raw.
`PsarcArchive.EmptyLastFile`, `PsarcArchive.EmptyFolder` and `PsarcArchive.MisreadLastBlock` show the
as-written reader failing on a packed archive where the corrected one
succeeds. `PsarcArchive.PackThenRead` proves that the corrected reader gives
back every packed file, with no condition on the file's content, while the
as-written reader needs the file to be non-empty and its tail not misread.
For the second finding the Python reader fails on the same archives too, with
any raw partial last block that does not inflate (`PyArchiveReads.PyRawPartialFile`).
