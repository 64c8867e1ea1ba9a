/**
 * The Python reference reader that psarc_compare.py and psarc_parse_tmp.py
 * both carry (the two copies do the same thing): `load_psarc` decodes the
 * header, the table of contents and the zsize table with `struct` and
 * `int.from_bytes`, and `extract_entry` walks one entry's blocks, taking
 * `min(BLOCK_SIZE, remaining)` bytes per block. Python's slicing never fails
 * (it clips), `struct.unpack` fails on a short slice, an index past the end
 * of a list fails, and `zlib.decompress` fails on a bad stream; each failure
 * is an exception, modelled as an error value.
 */
module PyReader {
  import opened Bytes
  import opened Wrappers
  import opened Blocks
  import opened PsarcToc
  import opened Zlib

  /** The exceptions the reader can raise. */
  datatype PyError = ValueError | StructError | IndexError | ZlibError

  /** One entry as a dictionary: `hash`, `zidx`, `uncomp`, `offset`. */
  datatype PyEntry = PyEntry(hash: seq<byte>, zidx: u32, uncomp: nat, offset: nat)

  /** The dictionary `load_psarc` returns. */
  datatype PyArchive = PyArchive(major: u16, minor: u16, entrySize: u32, fileCount: u32, blockSize: u32,
                                 flags: u32, entries: seq<PyEntry>, zsizes: seq<u16>, data: seq<byte>,
                                 dataStart: nat)

  // ---------------------------------------------------------------------
  // load_psarc
  // ---------------------------------------------------------------------

  /**
   * One table-of-contents record: `struct.unpack('>I', entry[16:20])` needs
   * four bytes; the other fields are taken from whatever the slices hold.
   */
  function DecodePyEntry(entry: seq<byte>): (r: Result<PyEntry, PyError>)
    ensures r.Ok? <==> |entry| >= 20
    ensures r.Ok? ==> r.value.hash == entry[..16] && r.value.zidx == BeU32(entry[16..20])
    ensures |entry| >= 30 ==> r.Ok? && r.value.uncomp == BeInt(entry[20..25]) && r.value.offset == BeInt(entry[25..30])
  {
    if |entry| < 20 then Err(StructError)
    else Ok(PyEntry(Clip(entry, 0, 16), BeU32(entry[16..20]), BeInt(Clip(entry, 20, 25)), BeInt(Clip(entry, 25, 30))))
  }

  /** Where record `k` starts: `offset` after `k` iterations of `offset += entry_size`. */
  function RecordPos(entrySize: nat, k: nat): nat
  {
    HEADER_SIZE + entrySize * k
  }

  /** `data[offset:offset+entry_size]` for record `k`. */
  function Record(data: seq<byte>, entrySize: nat, k: nat): seq<byte>
  {
    Clip(data, RecordPos(entrySize, k), RecordPos(entrySize, k) + entrySize)
  }

  /** The first `n` records, `entry_size` bytes apart; the first short one raises. */
  function PyEntries(data: seq<byte>, entrySize: nat, n: nat): (r: Result<seq<PyEntry>, PyError>)
    ensures r.Ok? ==> |r.value| == n
    ensures r.Ok? ==> forall k | 0 <= k < n :: DecodePyEntry(Record(data, entrySize, k)) == Ok(r.value[k])
    ensures r.Err? ==> r.error == StructError
  {
    if n == 0 then Ok([])
    else
      var init :- PyEntries(data, entrySize, n - 1);
      var e :- DecodePyEntry(Record(data, entrySize, n - 1));
      assert forall k | 0 <= k < n - 1 :: (init + [e])[k] == init[k];
      Ok(init + [e])
  }

  /** `range(zsize_bytes // 2)`: Python's floor division, and no iteration for a negative count. */
  function PyZSizeCount(tocLen: nat, entrySize: nat, fileCount: nat): (n: nat)
    ensures 2 * n <= tocLen - entrySize * fileCount - 32 || n == 0
  {
    var zsizeBytes: int := tocLen - entrySize * fileCount - 32;
    if zsizeBytes / 2 <= 0 then 0 else zsizeBytes / 2
  }

  /** The zsize comprehension: `struct.unpack('>H', ...)` on each 2-byte slice. */
  function PyZSizes(data: seq<byte>, start: nat, count: nat): (r: Result<seq<u16>, PyError>)
    ensures r.Ok? <==> count == 0 || start + 2 * count <= |data|
    ensures r.Ok? ==> |r.value| == count && forall i | 0 <= i < count :: r.value[i] == BeU16(data[start + 2 * i..start + 2 * i + 2])
    ensures r.Err? ==> r.error == StructError
  {
    if count == 0 || start + 2 * count <= |data| then
      Ok(seq(count, i requires 0 <= i < count => BeU16(data[start + 2 * i..start + 2 * i + 2])))
    else Err(StructError)
  }

  /** `load_psarc` on the bytes of a file. */
  function LoadPsarcSpec(data: seq<byte>): (r: Result<PyArchive, PyError>)
  {
    if Clip(data, 0, 4) != MAGIC then Err(ValueError)
    else if |data| < HEADER_SIZE then Err(StructError)
    else
      var tocLen, entrySize, fileCount := BeU32(data[12..16]), BeU32(data[16..20]), BeU32(data[20..24]);
      var entries :- PyEntries(data, entrySize, fileCount);
      var zsizes :- PyZSizes(data, RecordPos(entrySize, fileCount), PyZSizeCount(tocLen, entrySize, fileCount));
      Ok(PyArchive(BeU16(data[4..6]), BeU16(data[6..8]), entrySize, fileCount, BeU32(data[24..28]),
                   BeU32(data[28..32]), entries, zsizes, data, tocLen))
  }

  /** The `for _ in range(file_count)` loop: one record per iteration, `offset += entry_size`. */
  method ReadPyEntries(data: seq<byte>, entrySize: nat, fileCount: nat) returns (r: Result<seq<PyEntry>, PyError>)
    ensures r == PyEntries(data, entrySize, fileCount)
  {
    var offset := HEADER_SIZE;
    var entries: seq<PyEntry> := [];
    for k := 0 to fileCount
      invariant offset == RecordPos(entrySize, k)
      invariant PyEntries(data, entrySize, k) == Ok(entries)
    {
      var e := DecodePyEntry(Clip(data, offset, offset + entrySize));
      assert Clip(data, offset, offset + entrySize) == Record(data, entrySize, k);
      if e.Err? {
        PyEntriesStop(data, entrySize, k + 1, fileCount);
        return Err(StructError);
      }
      entries := entries + [e.value];
      offset := offset + entrySize;
    }
    r := Ok(entries);
  }

  /** `load_psarc`. */
  method LoadPsarc(data: seq<byte>) returns (r: Result<PyArchive, PyError>)
    ensures r == LoadPsarcSpec(data)
  {
    if Clip(data, 0, 4) != MAGIC {
      return Err(ValueError);
    }
    if |data| < HEADER_SIZE {
      return Err(StructError);
    }
    var tocLen, entrySize, fileCount := BeU32(data[12..16]), BeU32(data[16..20]), BeU32(data[20..24]);
    var entries := ReadPyEntries(data, entrySize, fileCount);
    if entries.Err? {
      return Err(StructError);
    }
    var zsizes := PyZSizes(data, RecordPos(entrySize, fileCount), PyZSizeCount(tocLen, entrySize, fileCount));
    if zsizes.Err? {
      return Err(StructError);
    }
    r := Ok(PyArchive(BeU16(data[4..6]), BeU16(data[6..8]), entrySize, fileCount, BeU32(data[24..28]),
                      BeU32(data[28..32]), entries.value, zsizes.value, data, tocLen));
  }

  /** Once a record fails, every longer decode fails. */
  lemma {:induction false} PyEntriesStop(data: seq<byte>, entrySize: nat, k: nat, n: nat)
    requires k <= n && PyEntries(data, entrySize, k).Err?
    ensures PyEntries(data, entrySize, n).Err?
    decreases n - k
  {
    if k < n {
      PyEntriesStop(data, entrySize, k + 1, n);
    }
  }

  /** `ValueError` is raised exactly when the first four bytes are not `PSAR`. */
  lemma LoadValueError(data: seq<byte>)
    ensures LoadPsarcSpec(data) == Err(ValueError) <==> Clip(data, 0, 4) != MAGIC
  {
  }

  /**
   * A successful load: the header fields at their big-endian positions,
   * `data_start` equal to `toc_len`, one entry per record and the zsize count
   * by floor division.
   */
  lemma LoadFields(data: seq<byte>)
    requires LoadPsarcSpec(data).Ok?
    ensures var a := LoadPsarcSpec(data).value;
            && |data| >= HEADER_SIZE && data[..4] == MAGIC
            && a.dataStart == BeU32(data[12..16]) && a.entrySize == BeU32(data[16..20])
            && a.fileCount == BeU32(data[20..24]) && |a.entries| == a.fileCount
            && |a.zsizes| == PyZSizeCount(a.dataStart, a.entrySize, a.fileCount)
  {
  }

  // ---------------------------------------------------------------------
  // extract_entry
  // ---------------------------------------------------------------------

  /** What one block contributes: the bytes it appends and where the cursor moves. */
  datatype Step = Step(block: seq<byte>, next: nat)

  /**
   * One block: a zero zsize copies `min(BLOCK_SIZE, remaining)` raw bytes,
   * any other zsize decompresses that many bytes.
   */
  function PyBlock(data: seq<byte>, zsize: u16, cursor: nat, blockUncomp: nat, inflate: Inflate): (r: Result<Step, PyError>)
    ensures zsize == 0 && blockUncomp <= BLOCK_SIZE ==> r.Ok? && r.value.next == cursor + blockUncomp
    ensures zsize == 0 && blockUncomp <= BLOCK_SIZE && cursor + blockUncomp <= |data| ==> r.value.block == data[cursor..cursor + blockUncomp]
    ensures zsize != 0 ==> r == (if inflate(Clip(data, cursor, cursor + zsize)).None? then Err(ZlibError)
                                 else Ok(Step(inflate(Clip(data, cursor, cursor + zsize)).value, cursor + zsize)))
  {
    if zsize == 0 then
      var stored := if blockUncomp < BLOCK_SIZE then blockUncomp else BLOCK_SIZE;
      Ok(Step(Clip(data, cursor, cursor + stored), cursor + stored))
    else
      match inflate(Clip(data, cursor, cursor + zsize))
      case None => Err(ZlibError)
      case Some(block) => Ok(Step(block, cursor + zsize))
  }

  /** `min(BLOCK_SIZE, remaining)`. */
  function BlockUncomp(remaining: nat): nat
  {
    if BLOCK_SIZE < remaining then BLOCK_SIZE else remaining
  }

  /**
   * The `while remaining > 0` loop from a given state: each iteration takes
   * the next zsize (an `IndexError` past the end), handles one block and
   * lowers `remaining` by `min(BLOCK_SIZE, remaining)`.
   */
  function PyLoop(data: seq<byte>, zsizes: seq<u16>, zidx: nat, cursor: nat, remaining: nat, inflate: Inflate)
    : Result<seq<byte>, PyError>
    decreases remaining
  {
    if remaining == 0 then Ok([])
    else if zidx >= |zsizes| then Err(IndexError)
    else
      var step :- PyBlock(data, zsizes[zidx], cursor, BlockUncomp(remaining), inflate);
      var rest :- PyLoop(data, zsizes, zidx + 1, step.next, remaining - BlockUncomp(remaining), inflate);
      Ok(step.block + rest)
  }

  /** Python list indexing, where `-1` is the last element. */
  function PyIndex(entries: seq<PyEntry>, index: int): Result<PyEntry, PyError>
  {
    if 0 <= index < |entries| then Ok(entries[index])
    else if -|entries| <= index < 0 then Ok(entries[|entries| + index])
    else Err(IndexError)
  }

  function ExtractEntrySpec(psarc: PyArchive, index: int, inflate: Inflate): Result<seq<byte>, PyError>
  {
    var e :- PyIndex(psarc.entries, index);
    PyLoop(psarc.data, psarc.zsizes, e.zidx, e.offset, e.uncomp, inflate)
  }

  /** `out` followed by what the rest of the loop appends. */
  function Prepend(out: seq<byte>, r: Result<seq<byte>, PyError>): Result<seq<byte>, PyError>
  {
    if r.Ok? then Ok(out + r.value) else r
  }

  /** `extract_entry`: the entry at `index`, then its blocks. */
  method ExtractEntry(psarc: PyArchive, index: int, inflate: Inflate) returns (r: Result<seq<byte>, PyError>)
    ensures r == ExtractEntrySpec(psarc, index, inflate)
  {
    var entry := PyIndex(psarc.entries, index);
    if entry.Err? {
      return Err(IndexError);
    }
    var e := entry.value;
    r := ReadBlocks(psarc.data, psarc.zsizes, e.zidx, e.offset, e.uncomp, inflate);
  }

  /** The `while remaining > 0` loop of `extract_entry`, appending each block to `out`. */
  method ReadBlocks(data: seq<byte>, zsizes: seq<u16>, zidx0: nat, cursor0: nat, uncomp: nat, inflate: Inflate)
    returns (r: Result<seq<byte>, PyError>)
    ensures r == PyLoop(data, zsizes, zidx0, cursor0, uncomp, inflate)
  {
    var zidx: nat, cursor: nat, remaining: nat := zidx0, cursor0, uncomp;
    var out: seq<byte> := [];
    ghost var total := PyLoop(data, zsizes, zidx0, cursor0, uncomp, inflate);
    assert total.Ok? ==> [] + total.value == total.value;
    while remaining > 0
      invariant total == Prepend(out, PyLoop(data, zsizes, zidx, cursor, remaining, inflate))
      decreases remaining
    {
      var blockUncomp := BlockUncomp(remaining);
      if zidx >= |zsizes| {
        assert total == Err(IndexError) by {
          PyLoopNoZSize(data, zsizes, zidx, cursor, remaining, inflate);
        }
        return Err(IndexError);
      }
      var zsize := zsizes[zidx];
      var step := PyBlock(data, zsize, cursor, blockUncomp, inflate);
      if step.Err? {
        assert total == Err(ZlibError) by {
          PyLoopBadBlock(data, zsizes, zidx, cursor, remaining, inflate);
        }
        return Err(ZlibError);
      }
      PyLoopAdvance(data, zsizes, zidx, cursor, remaining, inflate, step.value, out, total);
      zidx := zidx + 1;
      out := out + step.value.block;
      cursor := step.value.next;
      remaining := remaining - blockUncomp;
    }
    assert out + [] == out;
    return Ok(out);
  }

  lemma PyLoopUnfold(data: seq<byte>, zsizes: seq<u16>, zidx: nat, cursor: nat, remaining: nat, inflate: Inflate, step: Step)
    requires remaining > 0 && zidx < |zsizes|
    requires PyBlock(data, zsizes[zidx], cursor, BlockUncomp(remaining), inflate) == Ok(step)
    ensures PyLoop(data, zsizes, zidx, cursor, remaining, inflate)
            == Prepend(step.block, PyLoop(data, zsizes, zidx + 1, step.next, remaining - BlockUncomp(remaining), inflate))
  {
  }

  /** One iteration of the loop, read from the result of the rest of the loop. */
  lemma PyLoopStepTo(data: seq<byte>, zsizes: seq<u16>, zidx: nat, cursor: nat, remaining: nat, inflate: Inflate,
                     step: Step, rem: nat, r: Result<seq<byte>, PyError>)
    requires remaining > 0 && zidx < |zsizes|
    requires PyBlock(data, zsizes[zidx], cursor, BlockUncomp(remaining), inflate) == Ok(step)
    requires rem == remaining - BlockUncomp(remaining)
    requires PyLoop(data, zsizes, zidx + 1, step.next, rem, inflate) == r
    ensures PyLoop(data, zsizes, zidx, cursor, remaining, inflate) == Prepend(step.block, r)
  {
    PyLoopUnfold(data, zsizes, zidx, cursor, remaining, inflate, step);
  }

  /** An iteration that finds no zsize raises `IndexError`. */
  lemma PyLoopNoZSize(data: seq<byte>, zsizes: seq<u16>, zidx: nat, cursor: nat, remaining: nat, inflate: Inflate)
    requires remaining > 0 && zidx >= |zsizes|
    ensures PyLoop(data, zsizes, zidx, cursor, remaining, inflate) == Err(IndexError)
  {
  }

  /** An iteration whose block fails to inflate raises `ZlibError`. */
  lemma PyLoopBadBlock(data: seq<byte>, zsizes: seq<u16>, zidx: nat, cursor: nat, remaining: nat, inflate: Inflate)
    requires remaining > 0 && zidx < |zsizes| && PyBlock(data, zsizes[zidx], cursor, BlockUncomp(remaining), inflate).Err?
    ensures PyLoop(data, zsizes, zidx, cursor, remaining, inflate) == Err(ZlibError)
  {
  }

  /** One iteration of the loop, seen from the output so far. */
  lemma PyLoopAdvance(data: seq<byte>, zsizes: seq<u16>, zidx: nat, cursor: nat, remaining: nat, inflate: Inflate,
                      step: Step, out: seq<byte>, total: Result<seq<byte>, PyError>)
    requires remaining > 0 && zidx < |zsizes|
    requires PyBlock(data, zsizes[zidx], cursor, BlockUncomp(remaining), inflate) == Ok(step)
    requires total == Prepend(out, PyLoop(data, zsizes, zidx, cursor, remaining, inflate))
    ensures total == Prepend(out + step.block, PyLoop(data, zsizes, zidx + 1, step.next, remaining - BlockUncomp(remaining), inflate))
  {
    PyLoopUnfold(data, zsizes, zidx, cursor, remaining, inflate, step);
    PrependAssoc(out, step.block, PyLoop(data, zsizes, zidx + 1, step.next, remaining - BlockUncomp(remaining), inflate));
  }

  lemma PrependAssoc(out: seq<byte>, block: seq<byte>, r: Result<seq<byte>, PyError>)
    ensures Prepend(out, Prepend(block, r)) == Prepend(out + block, r)
  {
    if r.Ok? {
      assert out + (block + r.value) == (out + block) + r.value;
    }
  }

  // ---------------------------------------------------------------------
  // Properties of the block walk
  // ---------------------------------------------------------------------

  /**
   * A successful walk reads exactly `ceil(remaining / BLOCK_SIZE)` zsizes,
   * those at `zidx` onward: they must all exist.
   */
  lemma {:induction false} PyLoopBlocks(data: seq<byte>, zsizes: seq<u16>, zidx: nat, cursor: nat, remaining: nat, inflate: Inflate)
    requires PyLoop(data, zsizes, zidx, cursor, remaining, inflate).Ok?
    ensures remaining > 0 ==> zidx + BlockCount(remaining, BLOCK_SIZE) <= |zsizes|
    decreases remaining
  {
    if remaining > 0 {
      var step := PyBlock(data, zsizes[zidx], cursor, BlockUncomp(remaining), inflate).value;
      BlockCountStep(remaining, BLOCK_SIZE);
      PyLoopBlocks(data, zsizes, zidx + 1, step.next, remaining - BlockUncomp(remaining), inflate);
    }
  }

  /** The walk reads only the zsizes `[zidx, zidx + ceil(remaining / BLOCK_SIZE))`. */
  lemma {:induction false} PyLoopFrame(data: seq<byte>, zs1: seq<u16>, zs2: seq<u16>, zidx: nat, cursor: nat,
                                       remaining: nat, inflate: Inflate)
    requires zidx + BlockCount(remaining, BLOCK_SIZE) <= |zs1| && zidx + BlockCount(remaining, BLOCK_SIZE) <= |zs2|
    requires zs1[zidx..zidx + BlockCount(remaining, BLOCK_SIZE)] == zs2[zidx..zidx + BlockCount(remaining, BLOCK_SIZE)]
    ensures PyLoop(data, zs1, zidx, cursor, remaining, inflate) == PyLoop(data, zs2, zidx, cursor, remaining, inflate)
    decreases remaining
  {
    if remaining > 0 {
      var n := BlockCount(remaining, BLOCK_SIZE);
      BlockCountStep(remaining, BLOCK_SIZE);
      assert zs1[zidx] == zs1[zidx..zidx + n][0] == zs2[zidx];
      var step := PyBlock(data, zs1[zidx], cursor, BlockUncomp(remaining), inflate);
      if step.Ok? {
        assert zs1[zidx + 1..zidx + n] == zs1[zidx..zidx + n][1..];
        assert zs2[zidx + 1..zidx + n] == zs2[zidx..zidx + n][1..];
        PyLoopFrame(data, zs1, zs2, zidx + 1, step.value.next, remaining - BlockUncomp(remaining), inflate);
      }
    }
  }

  /** Running out of zsizes at `zidx` (with only raw blocks before the end) raises `IndexError`. */
  lemma {:induction false} PyLoopIndexError(data: seq<byte>, zsizes: seq<u16>, zidx: nat, cursor: nat, remaining: nat, inflate: Inflate)
    requires zidx <= |zsizes| < zidx + BlockCount(remaining, BLOCK_SIZE)
    requires forall k | zidx <= k < |zsizes| :: zsizes[k] == 0
    ensures PyLoop(data, zsizes, zidx, cursor, remaining, inflate) == Err(IndexError)
    decreases remaining
  {
    if zidx < |zsizes| {
      BlockCountStep(remaining, BLOCK_SIZE);
      PyLoopIndexError(data, zsizes, zidx + 1, cursor + BlockUncomp(remaining), remaining - BlockUncomp(remaining), inflate);
    }
  }

  /**
   * Over raw blocks only (every zsize zero), the walk copies exactly
   * `remaining` bytes from the cursor: each block `min(BLOCK_SIZE, remaining)`.
   */
  lemma {:induction false} PyLoopRaw(data: seq<byte>, zsizes: seq<u16>, zidx: nat, cursor: nat, remaining: nat, inflate: Inflate)
    requires zidx + BlockCount(remaining, BLOCK_SIZE) <= |zsizes|
    requires forall k | zidx <= k < zidx + BlockCount(remaining, BLOCK_SIZE) :: zsizes[k] == 0
    requires cursor + remaining <= |data|
    ensures PyLoop(data, zsizes, zidx, cursor, remaining, inflate) == Ok(data[cursor..cursor + remaining])
    decreases remaining
  {
    if remaining > 0 {
      var b := BlockUncomp(remaining);
      var next, left := cursor + b, remaining - b;
      var step := Step(data[cursor..next], next);
      BlockCountStep(remaining, BLOCK_SIZE);
      assert PyBlock(data, zsizes[zidx], cursor, b, inflate) == Ok(step);
      assert next + left == cursor + remaining;
      PyLoopRaw(data, zsizes, zidx + 1, next, left, inflate);
      var rest := data[next..next + left];
      PyLoopStepTo(data, zsizes, zidx, cursor, remaining, inflate, step, left, Ok(rest));
      AdjacentSlices(data, cursor, next, next + left);
      assert data[cursor..cursor + remaining] == step.block + rest;
    } else {
      assert data[cursor..cursor + remaining] == [];
    }
  }

  lemma AdjacentSlices(s: seq<byte>, i: nat, j: nat, k: nat)
    requires i <= j <= k <= |s|
    ensures s[i..j] + s[j..k] == s[i..k]
  {
  }
}
