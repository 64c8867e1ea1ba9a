/**
 * zlib appears in the model only through two function parameters: `deflate`,
 * the writer's `compress_block` on one block, and `inflate`, a complete zlib
 * decode that yields None when the decoder reports an error. The properties
 * the proofs rely on are the two predicates below.
 */
module Zlib {
  import opened Bytes
  import opened Wrappers

  type Deflate = seq<byte> -> seq<byte>
  type Inflate = seq<byte> -> Option<seq<byte>>

  /**
   * The reader's test for a zlib stream: 0x78 followed by one of the four
   * second bytes zlib writes for its compression levels.
   */
  predicate LooksLikeZlib(block: seq<byte>)
  {
    |block| >= 2 && block[0] == 0x78 &&
    (block[1] == 0x9C || block[1] == 0xDA || block[1] == 0x01 || block[1] == 0x5E)
  }

  /**
   * What zlib guarantees about a compressor/decompressor pair: every
   * compressed stream starts with a zlib header the reader recognises, and
   * decompressing it gives back the input.
   */
  ghost predicate ZlibPair(deflate: Deflate, inflate: Inflate)
  {
    forall x: seq<byte> :: LooksLikeZlib(deflate(x)) && inflate(deflate(x)) == Some(x)
  }
}
