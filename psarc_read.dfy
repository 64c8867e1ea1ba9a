/**
 * The Rust block readers: `read_file_data`, which rebuilds one entry's bytes
 * from its run of blocks, and `read_cached_file_data` / `load_psarc_cache`,
 * which copy an entry's stored blocks verbatim for incremental repacking.
 * The zlib decoder is a parameter: `inflate(block)` is the whole output of
 * `ZlibDecoder::read_to_end`, or None when the decoder reports an error.
 */
module PsarcRead {
  import opened Bytes
  import opened Wrappers
  import opened Blocks
  import opened PsarcToc
  import opened Zlib

  /**
   * `AsWritten` is the reader of src/psarc.rs; `Corrected` is the same reader
   * with the two faults of the README's findings repaired: an empty entry is
   * not subject to the offset check, and a block whose zsize equals its
   * expected length is taken as raw, as the writer means it.
   */
  datatype Variant = AsWritten | Corrected

  function Min(a: nat, b: nat): nat
  {
    if a < b then a else b
  }

  /**
   * What one iteration appends to the result for a block of stored bytes
   * `block` (`compressed_size` of them) with zsize `z`, while `remaining`
   * bytes of an entry of `size` bytes are unread.
   */
  function DecodeBlock(block: seq<byte>, z: u16, size: nat, remaining: nat, bs: nat,
                       inflate: Inflate, v: Variant): (r: Result<seq<byte>, IoError>)
    ensures r.Err? ==> r.error == InvalidData && z != 0
    ensures z == 0 && |block| != size ==> r == Ok(if remaining < bs then block[..Min(remaining, |block|)] else block)
  {
    var cs := |block|;
    if cs == size then
      // the whole entry is stored raw in a single block
      Ok(block)
    else if z == 0 then
      Ok(if remaining < bs then block[..Min(remaining, cs)] else block)
    else
      var target := if remaining < bs || cs == bs then remaining else bs;
      if v == Corrected && cs == NextLen(remaining, bs) then
        Ok(block)
      else if LooksLikeZlib(block) then
        match inflate(block)
        case None => Err(InvalidData)
        case Some(d) => Ok(if |d| > target then d[..target] else d)
      else
        Ok(block[..Min(target, cs)])
  }

  /**
   * The loop of `read_file_data` from a given state: the zsize index `idx`,
   * the byte offset `off`, the `remaining` counter and the bytes `acc`
   * produced so far. It runs while fewer than `size` bytes have been produced.
   */
  function ReadLoop(mmap: seq<byte>, zsizes: seq<u16>, bs: nat, inflate: Inflate, v: Variant,
                    size: nat, idx: nat, off: nat, remaining: nat, acc: seq<byte>): (r: Result<seq<byte>, IoError>)
    ensures r.Err? ==> r.error == InvalidData
    ensures r.Ok? ==> |r.value| >= size
    decreases |zsizes| - idx
  {
    if |acc| >= size then Ok(acc)
    else if idx >= |zsizes| then Err(InvalidData)
    else
      var cs := StoredLen(zsizes[idx], bs);
      if off + cs > |mmap| then Err(InvalidData)
      else
        match DecodeBlock(mmap[off..off + cs], zsizes[idx], size, remaining, bs, inflate, v)
        case Err(e) => Err(e)
        case Ok(d) => ReadLoop(mmap, zsizes, bs, inflate, v, size, idx + 1, off + cs, SatSub(remaining, bs), acc + d)
  }

  /** `read_file_data` (or its corrected variant) as a function of its inputs. */
  function ReadFileDataSpec(mmap: seq<byte>, entry: Entry, zsizes: seq<u16>, bs: nat,
                            inflate: Inflate, v: Variant): (r: Result<seq<byte>, IoError>)
    ensures r.Err? ==> r.error == InvalidData
    ensures r.Ok? ==> |r.value| >= entry.uncompressedSize
  {
    if (v == AsWritten || entry.uncompressedSize > 0) && entry.offset >= |mmap| then Err(InvalidData)
    else ReadLoop(mmap, zsizes, bs, inflate, v, entry.uncompressedSize, entry.zsizeIndex, entry.offset, entry.uncompressedSize, [])
  }

  /** An entry whose offset lies inside the archive goes straight to the loop. */
  lemma ReadFileDataStart(mmap: seq<byte>, entry: Entry, zsizes: seq<u16>, bs: nat, inflate: Inflate, v: Variant)
    requires entry.offset < |mmap|
    ensures ReadFileDataSpec(mmap, entry, zsizes, bs, inflate, v)
            == ReadLoop(mmap, zsizes, bs, inflate, v, entry.uncompressedSize, entry.zsizeIndex, entry.offset, entry.uncompressedSize, [])
  {
  }

  /** The body of one iteration of `read_file_data`: decoding one block. */
  method DecodeStoredBlock(block: seq<byte>, z: u16, size: nat, remaining: nat, bs: nat, inflate: Inflate)
    returns (r: Result<seq<byte>, IoError>)
    ensures r == DecodeBlock(block, z, size, remaining, bs, inflate, AsWritten)
  {
    var cs := |block|;
    if cs == size {
      return Ok(block);
    } else if z == 0 {
      if remaining < bs {
        return Ok(block[..Min(remaining, cs)]);
      }
      return Ok(block);
    }
    var target := if remaining < bs || cs == bs then remaining else bs;
    if LooksLikeZlib(block) {
      var inflated := inflate(block);
      if inflated.None? {
        return Err(InvalidData);
      }
      return Ok(if |inflated.value| > target then inflated.value[..target] else inflated.value);
    }
    return Ok(block[..Min(target, cs)]);
  }

  /**
   * `read_file_data`: checks that the entry's offset lies inside the archive,
   * then walks the entry's blocks, advancing the offset by each block's stored
   * size, the zsize index by one and `remaining` by a saturating `block_size`,
   * until the result holds at least `uncompressed_size` bytes.
   */
  method ReadFileData(mmap: seq<byte>, entry: Entry, zsizes: seq<u16>, bs: nat, inflate: Inflate)
    returns (r: Result<seq<byte>, IoError>)
    ensures r == ReadFileDataSpec(mmap, entry, zsizes, bs, inflate, AsWritten)
    ensures entry.offset >= |mmap| ==> r == Err(InvalidData)
    ensures r.Err? ==> r.error == InvalidData
    ensures r.Ok? ==> |r.value| >= entry.uncompressedSize
  {
    var result: seq<byte> := [];
    var idx: nat := entry.zsizeIndex;
    var off: nat := entry.offset;
    var remaining: nat := entry.uncompressedSize;
    if off >= |mmap| {
      return Err(InvalidData);
    }
    ghost var spec := ReadLoop(mmap, zsizes, bs, inflate, AsWritten, entry.uncompressedSize, idx, off, remaining, result);
    while |result| < entry.uncompressedSize
      invariant ReadLoop(mmap, zsizes, bs, inflate, AsWritten, entry.uncompressedSize, idx, off, remaining, result) == spec
      decreases |zsizes| - idx
    {
      if idx >= |zsizes| {
        return Err(InvalidData);
      }
      var z := zsizes[idx];
      var cs := if z == 0 then bs else z as nat;
      if off + cs > |mmap| {
        return Err(InvalidData);
      }
      var decoded := DecodeStoredBlock(mmap[off..off + cs], z, entry.uncompressedSize, remaining, bs, inflate);
      if decoded.Err? {
        return Err(decoded.error);
      }
      var decompressed := decoded.value;
      result := result + decompressed;
      off := off + cs;
      remaining := if remaining >= bs then remaining - bs else 0;
      idx := idx + 1;
    }
    r := Ok(result);
  }

  // ---------------------------------------------------------------------
  // Cached (undecoded) block data
  // ---------------------------------------------------------------------

  /** An entry's stored blocks and zsizes, copied without decompression. */
  datatype CachedFileData = CachedFileData(compressedData: seq<byte>, zsizes: seq<u16>, uncompressedSize: nat)

  /**
   * What `read_cached_file_data` yields, stated in closed form: the entry
   * occupies `ceil(size / bs)` blocks, whose zsizes are the corresponding
   * slice of the table and whose stored bytes are one contiguous range of the
   * archive starting at the entry's offset. Any index or byte past the end is
   * InvalidData; with a zero block size a non-empty entry never finishes and
   * runs off the end of the zsize table. An empty entry reads nothing and so
   * cannot fail, whatever its index and offset.
   */
  function CachedRun(mmap: seq<byte>, entry: Entry, zsizes: seq<u16>, bs: nat): (r: Result<CachedFileData, IoError>)
  {
    var size := entry.uncompressedSize;
    if size == 0 then Ok(CachedFileData([], [], 0))
    else if bs == 0 then Err(InvalidData)
    else
      var n := BlockCount(size, bs);
      var i := entry.zsizeIndex;
      if i + n > |zsizes| then Err(InvalidData)
      else
        var total := SumStored(zsizes[i..i + n], bs);
        if entry.offset + total > |mmap| then Err(InvalidData)
        else Ok(CachedFileData(mmap[entry.offset..entry.offset + total], zsizes[i..i + n], size))
  }

  /**
   * The loop of `read_cached_file_data` from a given state: zsize index
   * `idx`, offset `off`, the `remaining` counter, and the bytes and zsizes
   * copied so far.
   */
  function CachedLoop(mmap: seq<byte>, zsizes: seq<u16>, bs: nat, size: nat,
                      idx: nat, off: nat, remaining: nat, data: seq<byte>, zs: seq<u16>): (r: Result<CachedFileData, IoError>)
    decreases |zsizes| - idx
  {
    if remaining == 0 then Ok(CachedFileData(data, zs, size))
    else if idx >= |zsizes| then Err(InvalidData)
    else
      var cs := StoredLen(zsizes[idx], bs);
      if off + cs > |mmap| then Err(InvalidData)
      else CachedLoop(mmap, zsizes, bs, size, idx + 1, off + cs, SatSub(remaining, bs), data + mmap[off..off + cs], zs + [zsizes[idx]])
  }

  /** With a zero block size the loop never finishes a non-empty entry. */
  lemma {:induction false} CachedLoopZeroBlock(mmap: seq<byte>, zsizes: seq<u16>, size: nat,
                                               idx: nat, off: nat, remaining: nat, data: seq<byte>, zs: seq<u16>)
    requires remaining > 0
    ensures CachedLoop(mmap, zsizes, 0, size, idx, off, remaining, data, zs) == Err(InvalidData)
    decreases |zsizes| - idx
  {
    if idx < |zsizes| {
      var cs := StoredLen(zsizes[idx], 0);
      if off + cs <= |mmap| {
        CachedLoopZeroBlock(mmap, zsizes, size, idx + 1, off + cs, remaining, data + mmap[off..off + cs], zs + [zsizes[idx]]);
      }
    }
  }

  /** The front block of a run splits off its stored length. */
  lemma SumStoredFront(zsizes: seq<u16>, i: nat, n: nat, bs: nat)
    requires 0 < n && i + n <= |zsizes|
    ensures SumStored(zsizes[i..i + n], bs) == StoredLen(zsizes[i], bs) + SumStored(zsizes[i + 1..i + n], bs)
  {
    assert zsizes[i..i + n] == [zsizes[i]] + zsizes[i + 1..i + n];
    SumStoredAppend([zsizes[i]], zsizes[i + 1..i + n], bs);
    assert [zsizes[i]][..0] == [];
  }

  /**
   * The next `n` blocks from zsize index `idx` and offset `off`, appended to
   * the bytes and zsizes copied so far: InvalidData when their zsizes or
   * their stored bytes run past the ends of the table or of the archive.
   */
  function CachedBlocks(mmap: seq<byte>, zsizes: seq<u16>, bs: nat, size: nat,
                        idx: nat, off: nat, n: nat, data: seq<byte>, zs: seq<u16>): Result<CachedFileData, IoError>
  {
    if idx + n > |zsizes| then Err(InvalidData)
    else if off + SumStored(zsizes[idx..idx + n], bs) > |mmap| then Err(InvalidData)
    else Ok(CachedFileData(data + mmap[off..off + SumStored(zsizes[idx..idx + n], bs)], zs + zsizes[idx..idx + n], size))
  }

  /** Taking one block and then `n - 1` more is taking `n`. */
  lemma CachedBlocksStep(mmap: seq<byte>, zsizes: seq<u16>, bs: nat, size: nat,
                         idx: nat, off: nat, n: nat, data: seq<byte>, zs: seq<u16>)
    requires n > 0 && idx < |zsizes| && off + StoredLen(zsizes[idx], bs) <= |mmap|
    ensures CachedBlocks(mmap, zsizes, bs, size, idx + 1, off + StoredLen(zsizes[idx], bs), n - 1,
                         data + mmap[off..off + StoredLen(zsizes[idx], bs)], zs + [zsizes[idx]])
            == CachedBlocks(mmap, zsizes, bs, size, idx, off, n, data, zs)
  {
    var cs := StoredLen(zsizes[idx], bs);
    if idx + n <= |zsizes| {
      SumStoredFront(zsizes, idx, n, bs);
      var total := SumStored(zsizes[idx..idx + n], bs);
      var total' := SumStored(zsizes[idx + 1..idx + n], bs);
      if off + total <= |mmap| {
        assert data + mmap[off..off + cs] + mmap[off + cs..off + cs + total'] == data + mmap[off..off + total];
      }
      assert zs + [zsizes[idx]] + zsizes[idx + 1..idx + n] == zs + zsizes[idx..idx + n];
    }
  }

  /** Running past either end on the first block fails any run of blocks. */
  lemma CachedBlocksFirstFails(mmap: seq<byte>, zsizes: seq<u16>, bs: nat, size: nat,
                               idx: nat, off: nat, n: nat, data: seq<byte>, zs: seq<u16>)
    requires n > 0
    requires idx >= |zsizes| || off + StoredLen(zsizes[idx], bs) > |mmap|
    ensures CachedBlocks(mmap, zsizes, bs, size, idx, off, n, data, zs) == Err(InvalidData)
  {
    if idx + n <= |zsizes| {
      SumStoredFront(zsizes, idx, n, bs);
    }
  }

  /**
   * The closed form of the loop: from any state with `remaining > 0` it takes
   * the next `ceil(remaining / bs)` blocks.
   */
  lemma {:induction false} CachedLoopClosedForm(mmap: seq<byte>, zsizes: seq<u16>, bs: nat, size: nat,
                                                idx: nat, off: nat, remaining: nat, data: seq<byte>, zs: seq<u16>)
    requires bs > 0 && remaining > 0
    ensures CachedLoop(mmap, zsizes, bs, size, idx, off, remaining, data, zs)
            == CachedBlocks(mmap, zsizes, bs, size, idx, off, BlockCount(remaining, bs), data, zs)
    decreases |zsizes| - idx
  {
    BlockCountStep(remaining, bs);
    if idx >= |zsizes| || off + StoredLen(zsizes[idx], bs) > |mmap| {
      CachedBlocksFirstFails(mmap, zsizes, bs, size, idx, off, BlockCount(remaining, bs), data, zs);
    } else {
      var cs := StoredLen(zsizes[idx], bs);
      var data', zs' := data + mmap[off..off + cs], zs + [zsizes[idx]];
      if SatSub(remaining, bs) > 0 {
        CachedLoopClosedForm(mmap, zsizes, bs, size, idx + 1, off + cs, SatSub(remaining, bs), data', zs');
      } else {
        assert zsizes[idx + 1..idx + 1] == [] && mmap[off + cs..off + cs] == [];
        assert data' + [] == data' && zs' + [] == zs';
      }
      CachedBlocksStep(mmap, zsizes, bs, size, idx, off, BlockCount(remaining, bs), data, zs);
    }
  }

  /**
   * `read_cached_file_data`: the same walk as `read_file_data`, but it runs
   * while `remaining > 0`, copies each block's stored bytes as they are and
   * records each block's zsize.
   */
  method ReadCachedFileData(mmap: seq<byte>, entry: Entry, zsizes: seq<u16>, bs: nat)
    returns (r: Result<CachedFileData, IoError>)
    ensures r == CachedRun(mmap, entry, zsizes, bs)
    ensures r.Ok? ==> r.value.uncompressedSize == entry.uncompressedSize
    ensures r.Err? ==> r.error == InvalidData
  {
    var resultData: seq<byte> := [];
    var resultZsizes: seq<u16> := [];
    var idx: nat := entry.zsizeIndex;
    var off: nat := entry.offset;
    var remaining: nat := entry.uncompressedSize;
    ghost var spec := CachedLoop(mmap, zsizes, bs, entry.uncompressedSize, idx, off, remaining, [], []);
    while remaining > 0
      invariant CachedLoop(mmap, zsizes, bs, entry.uncompressedSize, idx, off, remaining, resultData, resultZsizes) == spec
      decreases |zsizes| - idx
    {
      if idx >= |zsizes| {
        r := Err(InvalidData);
        break;
      }
      var z := zsizes[idx];
      var cs := if z == 0 then bs else z as nat;
      if off + cs > |mmap| {
        r := Err(InvalidData);
        break;
      }
      resultData := resultData + mmap[off..off + cs];
      resultZsizes := resultZsizes + [z];
      off := off + cs;
      remaining := if remaining >= bs then remaining - bs else 0;
      idx := idx + 1;
    }
    if remaining == 0 {
      r := Ok(CachedFileData(resultData, resultZsizes, entry.uncompressedSize));
    }
    CachedLoopIsCachedRun(mmap, entry, zsizes, bs);
  }

  /** The loop run from the entry's initial state has the closed form `CachedRun`. */
  lemma CachedLoopIsCachedRun(mmap: seq<byte>, entry: Entry, zsizes: seq<u16>, bs: nat)
    ensures CachedLoop(mmap, zsizes, bs, entry.uncompressedSize, entry.zsizeIndex, entry.offset, entry.uncompressedSize, [], [])
            == CachedRun(mmap, entry, zsizes, bs)
  {
    if entry.uncompressedSize > 0 {
      if bs == 0 {
        CachedLoopZeroBlock(mmap, zsizes, entry.uncompressedSize, entry.zsizeIndex, entry.offset, entry.uncompressedSize, [], []);
      } else {
        CachedLoopClosedForm(mmap, zsizes, bs, entry.uncompressedSize, entry.zsizeIndex, entry.offset, entry.uncompressedSize, [], []);
        CachedRunBlocks(mmap, entry, zsizes, bs);
      }
    }
  }

  /** `CachedRun` of a non-empty entry is the entry's blocks, copied from nothing. */
  lemma CachedRunBlocks(mmap: seq<byte>, entry: Entry, zsizes: seq<u16>, bs: nat)
    requires entry.uncompressedSize > 0 && bs > 0
    ensures CachedRun(mmap, entry, zsizes, bs)
            == CachedBlocks(mmap, zsizes, bs, entry.uncompressedSize, entry.zsizeIndex, entry.offset,
                            BlockCount(entry.uncompressedSize, bs), [], [])
  {
    var n := BlockCount(entry.uncompressedSize, bs);
    var i := entry.zsizeIndex;
    var blocks := CachedBlocks(mmap, zsizes, bs, entry.uncompressedSize, i, entry.offset, n, [], []);
    if i + n > |zsizes| {
      assert CachedRun(mmap, entry, zsizes, bs) == Err(InvalidData) == blocks;
    } else {
      var total := SumStored(zsizes[i..i + n], bs);
      if entry.offset + total > |mmap| {
        assert CachedRun(mmap, entry, zsizes, bs) == Err(InvalidData) == blocks;
      } else {
        var bytes, zs := mmap[entry.offset..entry.offset + total], zsizes[i..i + n];
        assert CachedRun(mmap, entry, zsizes, bs) == Ok(CachedFileData(bytes, zs, entry.uncompressedSize));
        assert [] + bytes == bytes && [] + zs == zs;
        assert blocks == Ok(CachedFileData(bytes, zs, entry.uncompressedSize));
      }
    }
  }

  // ---------------------------------------------------------------------
  // load_psarc_cache
  // ---------------------------------------------------------------------

  /**
   * The cache built from the first `k` entries: every entry other than the
   * manifest whose blocks can be copied is stored under its name hash, a later
   * entry replacing an earlier one with the same hash.
   */
  function CacheOf(mmap: seq<byte>, entries: seq<Entry>, zsizes: seq<u16>, bs: nat, k: nat): map<Hash, CachedFileData>
    requires k <= |entries|
  {
    if k == 0 then map[]
    else
      var earlier := CacheOf(mmap, entries, zsizes, bs, k - 1);
      var e := entries[k - 1];
      if e.nameHash == ZERO_HASH then earlier
      else
        match CachedRun(mmap, e, zsizes, bs)
        case Ok(c) => earlier[e.nameHash := c]
        case Err(_) => earlier
  }

  /** The cache never holds the manifest's hash, and holds no hash that is not some entry's. */
  lemma {:induction false} CacheOfKeys(mmap: seq<byte>, entries: seq<Entry>, zsizes: seq<u16>, bs: nat, k: nat)
    requires k <= |entries|
    ensures ZERO_HASH !in CacheOf(mmap, entries, zsizes, bs, k)
    ensures forall h | h in CacheOf(mmap, entries, zsizes, bs, k) :: exists j | 0 <= j < k :: entries[j].nameHash == h
    decreases k
  {
    if k > 0 {
      CacheOfKeys(mmap, entries, zsizes, bs, k - 1);
      forall h | h in CacheOf(mmap, entries, zsizes, bs, k)
        ensures exists j | 0 <= j < k :: entries[j].nameHash == h
      {
        if h != entries[k - 1].nameHash {
          var j :| 0 <= j < k - 1 && entries[j].nameHash == h;
          assert j < k;
        }
      }
    }
  }

  /** The loop of `load_psarc_cache` over the entries of the table of contents. */
  method BuildCache(mmap: seq<byte>, entries: seq<Entry>, zsizes: seq<u16>, bs: nat)
    returns (cache: map<Hash, CachedFileData>)
    ensures cache == CacheOf(mmap, entries, zsizes, bs, |entries|)
  {
    cache := map[];
    var i := 0;
    while i < |entries|
      invariant 0 <= i <= |entries|
      invariant cache == CacheOf(mmap, entries, zsizes, bs, i)
    {
      var entry := entries[i];
      if entry.nameHash != ZERO_HASH {
        var cached := ReadCachedFileData(mmap, entry, zsizes, bs);
        if cached.Ok? {
          cache := cache[entry.nameHash := cached.value];
        }
      }
      i := i + 1;
    }
  }

  /**
   * `load_psarc_cache` on the bytes of an existing archive: the metadata read
   * without the compression check, then one cache entry per readable
   * non-manifest entry. A failure to read one entry's blocks only leaves that
   * entry out.
   */
  method LoadPsarcCache(mmap: seq<byte>) returns (r: Result<map<Hash, CachedFileData>, IoError>)
    ensures r.Ok? <==> ReadTablesSpec(mmap, false).Ok?
    ensures r.Ok? ==> var t := ReadTablesSpec(mmap, false).value;
                      r.value == CacheOf(mmap, t.entries, t.zsizes, t.header.blockSize, |t.entries|)
  {
    var read := ReadTables(mmap, false);
    if read.Err? {
      return Err(read.error);
    }
    var tables := read.value;
    var cache := BuildCache(mmap, tables.entries, tables.zsizes, tables.header.blockSize);
    r := Ok(cache);
  }
}
