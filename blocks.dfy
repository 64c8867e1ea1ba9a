/**
 * Block arithmetic shared by the PSARC readers and the writer: how a file of
 * `size` bytes is cut into blocks of `bs` bytes, how many blocks that makes,
 * and how many bytes a block occupies on disk according to its zsize entry.
 */
module Blocks {
  import opened Bytes

  /** The block size the writer uses and the Python readers assume (64 KiB). */
  const BLOCK_SIZE: nat := 65536

  /**
   * The number of blocks a file of `size` bytes occupies: one per `bs` bytes,
   * counting a final partial block (`BlockCountCeil` shows it is
   * `ceil(size / bs)`).
   */
  function BlockCount(size: nat, bs: nat): (n: nat)
    requires bs > 0
    ensures size == 0 <==> n == 0
    decreases size
  {
    if size == 0 then 0
    else if size <= bs then 1
    else 1 + BlockCount(size - bs, bs)
  }

  /** `BlockCount` is `ceil(size / bs)`: the blocks cover the size, and one block fewer would not. */
  lemma {:induction false} BlockCountCeil(size: nat, bs: nat)
    requires bs > 0
    ensures BlockCount(size, bs) * bs >= size
    ensures BlockCount(size, bs) > 0 ==> (BlockCount(size, bs) - 1) * bs < size
    decreases size
  {
    if size > bs {
      var m := BlockCount(size - bs, bs);
      BlockCountCeil(size - bs, bs);
      assert (1 + m) * bs == bs + m * bs;
    }
  }

  /** For the fixed 64 KiB block size the count is the integer formula `(size + 65535) / 65536`. */
  lemma BlockCountFormula(size: nat)
    ensures BlockCount(size, BLOCK_SIZE) == (size + BLOCK_SIZE - 1) / BLOCK_SIZE
  {
  }

  lemma BlockCountStep(size: nat, bs: nat)
    requires bs > 0 && size > 0
    ensures BlockCount(size, bs) == 1 + BlockCount(SatSub(size, bs), bs)
  {
  }

  /** `min(bs, remaining)`: the uncompressed length of the next block. */
  function NextLen(remaining: nat, bs: nat): (r: nat)
  {
    if remaining < bs then remaining else bs
  }

  /** `remaining.saturating_sub(bs)`. */
  function SatSub(remaining: nat, bs: nat): (r: nat)
  {
    if remaining >= bs then remaining - bs else 0
  }

  /**
   * How many bytes the Rust readers take from the archive for a block whose
   * zsize entry is `z`: a zero entry stands for a whole raw block.
   */
  function StoredLen(z: u16, bs: nat): nat
  {
    if z == 0 then bs else z
  }

  /** Total stored length of a run of blocks, summed from the last block back. */
  function SumStored(zs: seq<u16>, bs: nat): nat
  {
    if zs == [] then 0 else SumStored(zs[..|zs| - 1], bs) + StoredLen(zs[|zs| - 1], bs)
  }

  lemma {:induction false} SumStoredAppend(zs: seq<u16>, ws: seq<u16>, bs: nat)
    ensures SumStored(zs + ws, bs) == SumStored(zs, bs) + SumStored(ws, bs)
    decreases |ws|
  {
    if ws == [] {
      assert zs + ws == zs;
    } else {
      var last := ws[|ws| - 1];
      assert (zs + ws)[..|zs + ws| - 1] == zs + ws[..|ws| - 1];
      SumStoredAppend(zs, ws[..|ws| - 1], bs);
    }
  }

  lemma SumStoredPrefix(zs: seq<u16>, k: nat, bs: nat)
    requires k < |zs|
    ensures SumStored(zs[..k + 1], bs) == SumStored(zs[..k], bs) + StoredLen(zs[k], bs)
  {
    assert zs[..k + 1][..k] == zs[..k];
  }

  /** Concatenation of a sequence of byte strings, from the last one back. */
  function Flatten(ss: seq<seq<byte>>): seq<byte>
  {
    if ss == [] then [] else Flatten(ss[..|ss| - 1]) + ss[|ss| - 1]
  }

  lemma {:induction false} FlattenAppend(ss: seq<seq<byte>>, ts: seq<seq<byte>>)
    ensures Flatten(ss + ts) == Flatten(ss) + Flatten(ts)
    decreases |ts|
  {
    if ts == [] {
      assert ss + ts == ss;
    } else {
      var init, last := ts[..|ts| - 1], ts[|ts| - 1];
      assert (ss + ts)[..|ss + ts| - 1] == ss + init && (ss + ts)[|ss + ts| - 1] == last;
      assert Flatten(ss + ts) == Flatten(ss + init) + last;
      assert Flatten(ts) == Flatten(init) + last;
      FlattenAppend(ss, init);
      assert Flatten(ss) + Flatten(init) + last == Flatten(ss) + (Flatten(init) + last);
    }
  }

  lemma FlattenOne(s: seq<byte>)
    ensures Flatten([s]) == s
  {
    assert [s][..0] == [];
  }

  /** Total length of a sequence of byte strings. */
  function TotalLen(ss: seq<seq<byte>>): nat
  {
    if ss == [] then 0 else TotalLen(ss[..|ss| - 1]) + |ss[|ss| - 1]|
  }

  lemma {:induction false} FlattenLength(ss: seq<seq<byte>>)
    ensures |Flatten(ss)| == TotalLen(ss)
  {
    if ss != [] {
      FlattenLength(ss[..|ss| - 1]);
    }
  }

  /**
   * `data.chunks(bs)`: consecutive pieces of `bs` bytes, the last one possibly
   * shorter; empty data gives no chunk at all.
   */
  function Chunks(data: seq<byte>, bs: nat): (r: seq<seq<byte>>)
    requires bs > 0
    ensures |r| == BlockCount(|data|, bs)
    ensures forall k | 0 <= k < |r| :: 0 < |r[k]| <= bs
    ensures forall k | 0 <= k < |r| - 1 :: |r[k]| == bs
    decreases |data|
  {
    if data == [] then []
    else if |data| <= bs then [data]
    else
      BlockCountStep(|data|, bs);
      [data[..bs]] + Chunks(data[bs..], bs)
  }

  /** The chunks put back together are the data. */
  lemma {:induction false} ChunksFlatten(data: seq<byte>, bs: nat)
    requires bs > 0
    ensures Flatten(Chunks(data, bs)) == data
    decreases |data|
  {
    if data == [] {
    } else if |data| <= bs {
      assert Chunks(data, bs) == [data];
      FlattenOne(data);
    } else {
      var head, tail := data[..bs], data[bs..];
      assert Chunks(data, bs) == [head] + Chunks(tail, bs);
      ChunksFlatten(tail, bs);
      FlattenAppend([head], Chunks(tail, bs));
      FlattenOne(head);
      assert head + tail == data;
    }
  }

  /**
   * Chunk `k` holds `BlockLen` bytes: the whole block size, or what is left of
   * the file for the last chunk.
   */
  lemma {:induction false} ChunkLength(data: seq<byte>, bs: nat, k: nat)
    requires bs > 0 && k < |Chunks(data, bs)|
    ensures k * bs < |data|
    ensures |Chunks(data, bs)[k]| == NextLen(|data| - k * bs, bs)
    decreases |data|
  {
    if |data| > bs && k > 0 {
      ChunkLength(data[bs..], bs, k - 1);
      assert Chunks(data, bs)[k] == Chunks(data[bs..], bs)[k - 1];
      MulStep(k, bs);
    }
  }

  lemma MulStep(k: nat, bs: nat)
    requires k > 0
    ensures k * bs == (k - 1) * bs + bs
  {
  }
}
