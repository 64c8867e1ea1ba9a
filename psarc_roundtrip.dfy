/**
 * What the reader makes of what the writer produces: every block the writer
 * stores decodes back to its chunk, every run of blocks back to its file, and
 * the metadata of a written archive back to the entries and zsizes the writer
 * laid out.
 */
module PsarcRoundTrip {
  import opened Bytes
  import opened Wrappers
  import opened Blocks
  import opened PsarcToc
  import opened Zlib
  import opened PsarcRead
  import opened PsarcWrite

  // ---------------------------------------------------------------------
  // One block
  // ---------------------------------------------------------------------

  /**
   * A block the writer stored decodes back to its chunk, given the bytes the
   * reader takes for it (`rd`: as many as its zsize says, starting with the
   * stored bytes). Two conditions come from the reader: `remaining` is either
   * the whole entry or at least a block short of it (as it is after each
   * block), and the as-written reader must not meet a raw partial block of an
   * ordinary file that looks like a zlib stream, unless it is the whole entry.
   */
  lemma DecodeWrittenBlock(deflate: Deflate, inflate: Inflate, chunk: seq<byte>, rule: BlockRule,
                           size: nat, remaining: nat, v: Variant, rd: seq<byte>)
    requires ZlibPair(deflate, inflate)
    requires 0 < |chunk| == NextLen(remaining, BLOCK_SIZE)
    requires remaining == size || remaining + BLOCK_SIZE <= size
    requires |rd| == StoredLen(ChooseBlock(deflate, chunk, rule).zsize, BLOCK_SIZE)
    requires ChooseBlock(deflate, chunk, rule).stored <= rd
    requires v == AsWritten && rule == FileRule && RawPartial(deflate, chunk) && |chunk| != size
             ==> !LooksLikeZlib(chunk)
    ensures DecodeBlock(rd, ChooseBlock(deflate, chunk, rule).zsize, size, remaining, BLOCK_SIZE, inflate, v) == Ok(chunk)
  {
    var b := ChooseBlock(deflate, chunk, rule);
    var compressed := deflate(chunk);
    assert LooksLikeZlib(compressed) && inflate(compressed) == Some(chunk);
    if |compressed| < |chunk| {
      assert rd == compressed;
    } else if |chunk| == BLOCK_SIZE {
      assert rd == chunk;
    } else if rule == ManifestRule {
      assert rd[..|chunk|] == chunk;
    } else {
      assert rd == chunk && remaining == |chunk|;
      assert rd[..|chunk|] == chunk;
    }
  }

  // ---------------------------------------------------------------------
  // One run of blocks
  // ---------------------------------------------------------------------

  lemma EncodeBlocksFront(deflate: Deflate, data: seq<byte>, rule: BlockRule)
    requires data != []
    ensures |data| <= BLOCK_SIZE ==> EncodeBlocks(deflate, data, rule) == [ChooseBlock(deflate, data, rule)]
    ensures |data| > BLOCK_SIZE ==>
              EncodeBlocks(deflate, data, rule)
              == [ChooseBlock(deflate, data[..BLOCK_SIZE], rule)] + EncodeBlocks(deflate, data[BLOCK_SIZE..], rule)
  {
    if |data| > BLOCK_SIZE {
      var cs := Chunks(data, BLOCK_SIZE);
      assert cs == [data[..BLOCK_SIZE]] + Chunks(data[BLOCK_SIZE..], BLOCK_SIZE);
    }
  }

  lemma BlocksFront(b: Block, rest: seq<Block>)
    ensures ZSizesOf([b] + rest) == [b.zsize] + ZSizesOf(rest)
    ensures Flatten(StoredOf([b] + rest)) == b.stored + Flatten(StoredOf(rest))
    ensures SumStored(ZSizesOf([b] + rest), BLOCK_SIZE) == StoredLen(b.zsize, BLOCK_SIZE) + SumStored(ZSizesOf(rest), BLOCK_SIZE)
  {
    assert StoredOf([b] + rest) == [b.stored] + StoredOf(rest);
    FlattenAppend([b.stored], StoredOf(rest));
    assert Flatten([b.stored]) == Flatten([]) + b.stored;
    SumStoredAppend([b.zsize], ZSizesOf(rest), BLOCK_SIZE);
    assert [b.zsize][..0] == [];
  }

  /** The last chunk of non-empty data. */
  function LastChunk(data: seq<byte>): (c: seq<byte>)
    requires data != []
    ensures 0 < |c| <= BLOCK_SIZE
  {
    var cs := Chunks(data, BLOCK_SIZE);
    cs[|cs| - 1]
  }

  lemma LastChunkOfRest(data: seq<byte>)
    requires |data| > BLOCK_SIZE
    ensures LastChunk(data[BLOCK_SIZE..]) == LastChunk(data)
  {
    assert Chunks(data, BLOCK_SIZE) == [data[..BLOCK_SIZE]] + Chunks(data[BLOCK_SIZE..], BLOCK_SIZE);
  }

  lemma MisreadTailOfRest(deflate: Deflate, data: seq<byte>, size: nat)
    requires |data| > BLOCK_SIZE
    ensures MisreadTail(deflate, data[BLOCK_SIZE..], size) == MisreadTail(deflate, data, size)
  {
    LastChunkOfRest(data);
  }

  /**
   * The case the as-written reader gets wrong: the last block of a file of
   * more than one block is stored raw, is shorter than a block, and begins
   * like a zlib stream.
   */
  predicate MisreadTail(deflate: Deflate, data: seq<byte>, size: nat)
  {
    data != [] && RawPartial(deflate, LastChunk(data)) && LooksLikeZlib(LastChunk(data)) && |LastChunk(data)| != size
  }

  /** A full chunk is stored with a zsize that gives its stored length, whatever the rule. */
  lemma FullChunkStoredLen(deflate: Deflate, inflate: Inflate, chunk: seq<byte>, rule: BlockRule)
    requires ZlibPair(deflate, inflate)
    requires |chunk| == BLOCK_SIZE
    ensures var b := ChooseBlock(deflate, chunk, rule); StoredLen(b.zsize, BLOCK_SIZE) == |b.stored|
  {
    assert LooksLikeZlib(deflate(chunk));
  }

  /** The reader never takes fewer bytes for a written block than were stored for it. */
  lemma StoredFits(deflate: Deflate, inflate: Inflate, chunk: seq<byte>, rule: BlockRule)
    requires ZlibPair(deflate, inflate)
    requires 0 < |chunk| <= BLOCK_SIZE
    ensures var b := ChooseBlock(deflate, chunk, rule); |b.stored| <= StoredLen(b.zsize, BLOCK_SIZE)
  {
    assert LooksLikeZlib(deflate(chunk));
  }

  /** One iteration of the loop of `read_file_data` that decodes a block successfully. */
  lemma ReadLoopStep(mmap: seq<byte>, zsizes: seq<u16>, bs: nat, inflate: Inflate, v: Variant, size: nat,
                     idx: nat, off: nat, remaining: nat, acc: seq<byte>, z: u16, d: seq<byte>)
    requires |acc| < size && idx < |zsizes| && zsizes[idx] == z && off + StoredLen(z, bs) <= |mmap|
    requires DecodeBlock(mmap[off..off + StoredLen(z, bs)], z, size, remaining, bs, inflate, v) == Ok(d)
    ensures ReadLoop(mmap, zsizes, bs, inflate, v, size, idx, off, remaining, acc)
            == ReadLoop(mmap, zsizes, bs, inflate, v, size, idx + 1, off + StoredLen(z, bs), SatSub(remaining, bs), acc + d)
  {
  }

  /** The same step, read from the result of the next iteration. */
  lemma ReadLoopStepTo(mmap: seq<byte>, zsizes: seq<u16>, bs: nat, inflate: Inflate, v: Variant, size: nat,
                       idx: nat, off: nat, remaining: nat, acc: seq<byte>, z: u16, d: seq<byte>,
                       rem: nat, next: seq<byte>, r: Result<seq<byte>, IoError>)
    requires |acc| < size && idx < |zsizes| && zsizes[idx] == z && off + StoredLen(z, bs) <= |mmap|
    requires DecodeBlock(mmap[off..off + StoredLen(z, bs)], z, size, remaining, bs, inflate, v) == Ok(d)
    requires rem == SatSub(remaining, bs) && next == acc + d
    requires ReadLoop(mmap, zsizes, bs, inflate, v, size, idx + 1, off + StoredLen(z, bs), rem, next) == r
    ensures ReadLoop(mmap, zsizes, bs, inflate, v, size, idx, off, remaining, acc) == r
  {
    ReadLoopStep(mmap, zsizes, bs, inflate, v, size, idx, off, remaining, acc, z, d);
  }

  /**
   * The first block of a run: its zsize is at `idx`, the reader's bytes for it
   * start with its stored bytes, and the rest of the run follows it.
   */
  lemma RunFront(mmap: seq<byte>, zsizes: seq<u16>, idx: nat, off: nat, b: Block, rest: seq<Block>)
    requires idx + 1 + |rest| <= |zsizes| && zsizes[idx..idx + 1 + |rest|] == ZSizesOf([b] + rest)
    requires off + SumStored(ZSizesOf([b] + rest), BLOCK_SIZE) <= |mmap|
    requires off <= |mmap| && Flatten(StoredOf([b] + rest)) <= mmap[off..]
    requires |b.stored| <= StoredLen(b.zsize, BLOCK_SIZE)
    ensures zsizes[idx] == b.zsize
    ensures off + StoredLen(b.zsize, BLOCK_SIZE) <= |mmap|
    ensures b.stored <= mmap[off..off + StoredLen(b.zsize, BLOCK_SIZE)]
    ensures zsizes[idx + 1..idx + 1 + |rest|] == ZSizesOf(rest)
    ensures off + StoredLen(b.zsize, BLOCK_SIZE) + SumStored(ZSizesOf(rest), BLOCK_SIZE) <= |mmap|
    ensures StoredLen(b.zsize, BLOCK_SIZE) == |b.stored| ==> Flatten(StoredOf(rest)) <= mmap[off + |b.stored|..]
  {
    BlocksFront(b, rest);
    assert zsizes[idx..idx + 1 + |rest|][0] == b.zsize;
    assert zsizes[idx + 1..idx + 1 + |rest|] == zsizes[idx..idx + 1 + |rest|][1..];
    var cs := StoredLen(b.zsize, BLOCK_SIZE);
    assert b.stored <= mmap[off..];
    assert mmap[off..off + cs] == mmap[off..][..cs];
    if cs == |b.stored| {
      assert mmap[off + cs..] == mmap[off..][cs..];
    }
  }

  /**
   * Where the blocks the writer stored for `data` must be for the reader: the
   * zsizes at `idx`, the stored bytes at `off`, with the archive extending as
   * far as the zsizes say.
   */
  predicate RunAt(mmap: seq<byte>, zsizes: seq<u16>, idx: nat, off: nat, blocks: seq<Block>)
  {
    && idx + |blocks| <= |zsizes| && zsizes[idx..idx + |blocks|] == ZSizesOf(blocks)
    && off + SumStored(ZSizesOf(blocks), BLOCK_SIZE) <= |mmap|
    && off <= |mmap| && Flatten(StoredOf(blocks)) <= mmap[off..]
  }

  /**
   * The first block of a written run, as the reader meets it: its zsize at
   * `idx` and, at `off`, as many bytes as that zsize says, which decode back
   * to the chunk; when the chunk is a full block, the rest of the run
   * follows where the next iteration looks.
   */
  lemma FirstBlockAt(mmap: seq<byte>, zsizes: seq<u16>, deflate: Deflate, inflate: Inflate,
                     v: Variant, rule: BlockRule, size: nat, idx: nat, off: nat,
                     chunk: seq<byte>, remaining: nat, rest: seq<Block>)
    requires ZlibPair(deflate, inflate)
    requires 0 < |chunk| == NextLen(remaining, BLOCK_SIZE)
    requires remaining == size || remaining + BLOCK_SIZE <= size
    requires RunAt(mmap, zsizes, idx, off, [ChooseBlock(deflate, chunk, rule)] + rest)
    requires v == AsWritten && rule == FileRule && RawPartial(deflate, chunk) && |chunk| != size
             ==> !LooksLikeZlib(chunk)
    ensures idx < |zsizes| && zsizes[idx] == ChooseBlock(deflate, chunk, rule).zsize
    ensures off + StoredLen(ChooseBlock(deflate, chunk, rule).zsize, BLOCK_SIZE) <= |mmap|
    ensures DecodeBlock(mmap[off..off + StoredLen(ChooseBlock(deflate, chunk, rule).zsize, BLOCK_SIZE)],
                        ChooseBlock(deflate, chunk, rule).zsize, size, remaining, BLOCK_SIZE, inflate, v) == Ok(chunk)
    ensures |chunk| == BLOCK_SIZE
            ==> RunAt(mmap, zsizes, idx + 1, off + StoredLen(ChooseBlock(deflate, chunk, rule).zsize, BLOCK_SIZE), rest)
  {
    var b := ChooseBlock(deflate, chunk, rule);
    StoredFits(deflate, inflate, chunk, rule);
    RunFront(mmap, zsizes, idx, off, b, rest);
    DecodeWrittenBlock(deflate, inflate, chunk, rule, size, remaining, v, mmap[off..off + StoredLen(b.zsize, BLOCK_SIZE)]);
    if |chunk| == BLOCK_SIZE {
      FullChunkStoredLen(deflate, inflate, chunk, rule);
    }
  }

  /** The first block of a run of more than one block, as `FirstBlockAt` gives it. */
  lemma MoreFirstBlockAt(mmap: seq<byte>, zsizes: seq<u16>, deflate: Deflate, inflate: Inflate,
                         v: Variant, rule: BlockRule, size: nat, idx: nat, off: nat, data: seq<byte>)
    requires ZlibPair(deflate, inflate)
    requires |data| > BLOCK_SIZE && (|data| == size || |data| + BLOCK_SIZE <= size)
    requires RunAt(mmap, zsizes, idx, off, EncodeBlocks(deflate, data, rule))
    ensures idx < |zsizes| && zsizes[idx] == ChooseBlock(deflate, data[..BLOCK_SIZE], rule).zsize
    ensures off + StoredLen(ChooseBlock(deflate, data[..BLOCK_SIZE], rule).zsize, BLOCK_SIZE) <= |mmap|
    ensures DecodeBlock(mmap[off..off + StoredLen(ChooseBlock(deflate, data[..BLOCK_SIZE], rule).zsize, BLOCK_SIZE)],
                        ChooseBlock(deflate, data[..BLOCK_SIZE], rule).zsize, size, |data|, BLOCK_SIZE, inflate, v)
            == Ok(data[..BLOCK_SIZE])
    ensures RunAt(mmap, zsizes, idx + 1, off + StoredLen(ChooseBlock(deflate, data[..BLOCK_SIZE], rule).zsize, BLOCK_SIZE),
                  EncodeBlocks(deflate, data[BLOCK_SIZE..], rule))
  {
    var chunk, tail := data[..BLOCK_SIZE], data[BLOCK_SIZE..];
    assert RunAt(mmap, zsizes, idx, off, [ChooseBlock(deflate, chunk, rule)] + EncodeBlocks(deflate, tail, rule)) by {
      EncodeBlocksFront(deflate, data, rule);
    }
    FirstBlockAt(mmap, zsizes, deflate, inflate, v, rule, size, idx, off, chunk, |data|, EncodeBlocks(deflate, tail, rule));
  }

  lemma ConcatSplit(acc: seq<byte>, data: seq<byte>, n: nat)
    requires n <= |data|
    ensures acc + data[..n] + data[n..] == acc + data
  {
    assert data[..n] + data[n..] == data;
  }

  /** A run of a single block, which is the whole rest of the entry. */
  lemma ReadWrittenLast(mmap: seq<byte>, zsizes: seq<u16>, deflate: Deflate, inflate: Inflate,
                        v: Variant, rule: BlockRule, size: nat, idx: nat, off: nat,
                        data: seq<byte>, acc: seq<byte>)
    requires ZlibPair(deflate, inflate)
    requires 0 < |data| <= BLOCK_SIZE
    requires |acc| + |data| == size
    requires |data| == size || |data| + BLOCK_SIZE <= size
    requires RunAt(mmap, zsizes, idx, off, [ChooseBlock(deflate, data, rule)])
    requires v == AsWritten && rule == FileRule ==> !MisreadTail(deflate, data, size)
    ensures ReadLoop(mmap, zsizes, BLOCK_SIZE, inflate, v, size, idx, off, |data|, acc) == Ok(acc + data)
  {
    var b := ChooseBlock(deflate, data, rule);
    assert DecodeBlock(mmap[off..off + StoredLen(b.zsize, BLOCK_SIZE)], b.zsize, size, |data|, BLOCK_SIZE, inflate, v) == Ok(data)
           && idx < |zsizes| && zsizes[idx] == b.zsize && off + StoredLen(b.zsize, BLOCK_SIZE) <= |mmap| by {
      assert data == LastChunk(data);
      assert [b] + [] == [b];
      FirstBlockAt(mmap, zsizes, deflate, inflate, v, rule, size, idx, off, data, |data|, []);
    }
    ReadLoopStep(mmap, zsizes, BLOCK_SIZE, inflate, v, size, idx, off, |data|, acc, b.zsize, data);
  }

  /**
   * The loop of `read_file_data`, started on the blocks the writer stored for
   * `data` (the rest of an entry of `size` bytes, `acc` having been read
   * already), reads exactly `data`.
   */
  lemma {:induction false} ReadWrittenRun(mmap: seq<byte>, zsizes: seq<u16>, deflate: Deflate, inflate: Inflate,
                                          v: Variant, rule: BlockRule, size: nat, idx: nat, off: nat,
                                          data: seq<byte>, acc: seq<byte>)
    requires ZlibPair(deflate, inflate)
    requires |acc| + |data| == size
    requires data == [] || |data| == size || |data| + BLOCK_SIZE <= size
    requires RunAt(mmap, zsizes, idx, off, EncodeBlocks(deflate, data, rule))
    requires v == AsWritten && rule == FileRule ==> !MisreadTail(deflate, data, size)
    ensures ReadLoop(mmap, zsizes, BLOCK_SIZE, inflate, v, size, idx, off, |data|, acc) == Ok(acc + data)
    decreases |data|, 1
  {
    if data == [] {
      assert acc + data == acc;
    } else if |data| <= BLOCK_SIZE {
      EncodeBlocksFront(deflate, data, rule);
      ReadWrittenLast(mmap, zsizes, deflate, inflate, v, rule, size, idx, off, data, acc);
    } else {
      MoreFirstBlockAt(mmap, zsizes, deflate, inflate, v, rule, size, idx, off, data);
      MisreadTailOfRest(deflate, data, size);
      ReadWrittenMore(mmap, zsizes, deflate, inflate, v, rule, size, idx, off, data, acc,
                      ChooseBlock(deflate, data[..BLOCK_SIZE], rule).zsize);
    }
  }

  /** A run of more than one block: the first block `z` read, then the rest of the run. */
  lemma {:induction false} ReadWrittenMore(mmap: seq<byte>, zsizes: seq<u16>, deflate: Deflate, inflate: Inflate,
                                           v: Variant, rule: BlockRule, size: nat, idx: nat, off: nat,
                                           data: seq<byte>, acc: seq<byte>, z: u16)
    requires ZlibPair(deflate, inflate)
    requires |data| > BLOCK_SIZE && |acc| + |data| == size
    requires idx < |zsizes| && zsizes[idx] == z && off + StoredLen(z, BLOCK_SIZE) <= |mmap|
    requires DecodeBlock(mmap[off..off + StoredLen(z, BLOCK_SIZE)], z, size, |data|, BLOCK_SIZE, inflate, v)
             == Ok(data[..BLOCK_SIZE])
    requires RunAt(mmap, zsizes, idx + 1, off + StoredLen(z, BLOCK_SIZE), EncodeBlocks(deflate, data[BLOCK_SIZE..], rule))
    requires v == AsWritten && rule == FileRule ==> !MisreadTail(deflate, data[BLOCK_SIZE..], size)
    ensures ReadLoop(mmap, zsizes, BLOCK_SIZE, inflate, v, size, idx, off, |data|, acc) == Ok(acc + data)
    decreases |data|, 0
  {
    var chunk, tail := data[..BLOCK_SIZE], data[BLOCK_SIZE..];
    ReadWrittenRun(mmap, zsizes, deflate, inflate, v, rule, size, idx + 1, off + StoredLen(z, BLOCK_SIZE), tail, acc + chunk);
    MoreStep(mmap, zsizes, inflate, v, size, idx, off, data, acc, z);
  }

  /** The first block of `data` read, and then the rest of it: `data` is read. */
  lemma MoreStep(mmap: seq<byte>, zsizes: seq<u16>, inflate: Inflate, v: Variant, size: nat,
                 idx: nat, off: nat, data: seq<byte>, acc: seq<byte>, z: u16)
    requires |data| > BLOCK_SIZE && |acc| + |data| == size
    requires idx < |zsizes| && zsizes[idx] == z && off + StoredLen(z, BLOCK_SIZE) <= |mmap|
    requires DecodeBlock(mmap[off..off + StoredLen(z, BLOCK_SIZE)], z, size, |data|, BLOCK_SIZE, inflate, v)
             == Ok(data[..BLOCK_SIZE])
    requires ReadLoop(mmap, zsizes, BLOCK_SIZE, inflate, v, size, idx + 1, off + StoredLen(z, BLOCK_SIZE),
                      |data| - BLOCK_SIZE, acc + data[..BLOCK_SIZE])
             == Ok(acc + data[..BLOCK_SIZE] + data[BLOCK_SIZE..])
    ensures ReadLoop(mmap, zsizes, BLOCK_SIZE, inflate, v, size, idx, off, |data|, acc) == Ok(acc + data)
  {
    ReadLoopStepTo(mmap, zsizes, BLOCK_SIZE, inflate, v, size, idx, off, |data|, acc, z, data[..BLOCK_SIZE],
                   |data| - BLOCK_SIZE, acc + data[..BLOCK_SIZE], Ok(acc + data[..BLOCK_SIZE] + data[BLOCK_SIZE..]));
    ConcatSplit(acc, data, BLOCK_SIZE);
  }
}
