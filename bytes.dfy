/**
 * Fixed-width unsigned integers and the byte codecs the archive format uses:
 * big-endian u16/u32, the 40-bit "1 high byte + 4 low bytes" fields, Python's
 * `int.from_bytes(..., 'big')`, little-endian u32 words, and Python's
 * clipping slice.
 */
module Bytes {

  type byte = x: int | 0 <= x < 0x100
  type u16 = x: int | 0 <= x < 0x1_0000
  type u32 = x: int | 0 <= x < 0x1_0000_0000

  const TWO16: int := 0x1_0000
  const TWO32: int := 0x1_0000_0000
  const TWO40: int := 0x100_0000_0000

  // ---------------------------------------------------------------------
  // Big-endian and little-endian words
  // ---------------------------------------------------------------------

  /** `u16::from_be_bytes` / `struct.unpack('>H', ...)`. */
  function BeU16(s: seq<byte>): (r: u16)
    requires |s| == 2
    ensures r / 0x100 == s[0] && r % 0x100 == s[1]
  {
    s[0] as int * 0x100 + s[1]
  }

  /** `read_u32::<BigEndian>` / `struct.unpack('>I', ...)`. */
  function BeU32(s: seq<byte>): (r: u32)
    requires |s| == 4
  {
    ((s[0] as int * 0x100 + s[1]) * 0x100 + s[2]) * 0x100 + s[3]
  }

  /** `struct.unpack('<I', ...)`: the first byte is the least significant. */
  function LeU32(s: seq<byte>): (r: u32)
    requires |s| == 4
  {
    BeU32([s[3], s[2], s[1], s[0]])
  }

  /** `write_u16::<BigEndian>`. */
  function EncodeBeU16(x: u16): (s: seq<byte>)
    ensures |s| == 2 && BeU16(s) == x
  {
    [x / 0x100, x % 0x100]
  }

  /** `write_u32::<BigEndian>`. */
  function EncodeBeU32(x: u32): (s: seq<byte>)
    ensures |s| == 4 && BeU32(s) == x
  {
    BeU32Digits(x);
    [x / 0x100_0000, (x / 0x1_0000) % 0x100, (x / 0x100) % 0x100, x % 0x100]
  }

  /** The four base-256 digits of a u32 put it back together. */
  lemma BeU32Digits(x: u32)
    ensures x / 0x100_0000 < 0x100
    ensures ((x / 0x100_0000 * 0x100 + (x / 0x1_0000) % 0x100) * 0x100 + (x / 0x100) % 0x100) * 0x100 + x % 0x100 == x
  {
    var d, x1 := x % 0x100, x / 0x100;
    var c, x2 := x1 % 0x100, x1 / 0x100;
    var b, a := x2 % 0x100, x2 / 0x100;
    assert x == x1 * 0x100 + d && x1 == x2 * 0x100 + c && x2 == a * 0x100 + b;
    assert x == x2 * 0x1_0000 + (c * 0x100 + d);
    assert x / 0x1_0000 == x2;
    assert x == a * 0x100_0000 + ((b * 0x100 + c) * 0x100 + d);
    assert x / 0x100_0000 == a;
  }

  /** Decoding a big-endian u32 and encoding it again gives back the same four bytes. */
  lemma EncodeDecodeBeU32(s: seq<byte>)
    requires |s| == 4
    ensures EncodeBeU32(BeU32(s)) == s
  {
    var x := BeU32(s);
    assert x / 0x100_0000 == s[0];
    assert (x / 0x1_0000) % 0x100 == s[1];
    assert (x / 0x100) % 0x100 == s[2];
  }

  /** Decoding a big-endian u16 and encoding it again gives back the same two bytes. */
  lemma EncodeDecodeBeU16(s: seq<byte>)
    requires |s| == 2
    ensures EncodeBeU16(BeU16(s)) == s
  {
  }

  // ---------------------------------------------------------------------
  // Integer truncation, as Rust's `as` casts perform it
  // ---------------------------------------------------------------------

  /** `x as u8`: keeps the low 8 bits. */
  function TruncU8(x: nat): byte
  {
    x % 0x100
  }

  /** `x as u32`: keeps the low 32 bits. */
  function TruncU32(x: nat): u32
  {
    x % TWO32
  }

  /** `x as u16`: keeps the low 16 bits. */
  function TruncU16(x: nat): u16
  {
    x % TWO16
  }

  // ---------------------------------------------------------------------
  // 40-bit fields
  // ---------------------------------------------------------------------

  /**
   * The reader's `((high as u64) << 32) | (low as u64)`. Because `low` has
   * only 32 bits, the shifted high byte and the low word occupy disjoint bits,
   * so the bitwise or is the sum written here.
   */
  function Join40(high: byte, low: u32): (r: nat)
    ensures r < TWO40
    ensures r / TWO32 == high && r % TWO32 == low
  {
    high as int * TWO32 + low
  }

  /** The writer's high byte `(x >> 32) as u8`. */
  function High8(x: nat): byte
  {
    TruncU8(x / TWO32)
  }

  /** The writer's low word `x as u32`. */
  function Low32(x: nat): u32
  {
    TruncU32(x)
  }

  /**
   * Splitting a value as the writer does and joining the halves as the reader
   * does gives back the value modulo 2^40; below 2^40 it gives back the value.
   */
  lemma Split40RoundTrip(x: nat)
    ensures Join40(High8(x), Low32(x)) == x % TWO40
    ensures x < TWO40 ==> Join40(High8(x), Low32(x)) == x
  {
    var q := x / TWO32;
    assert x == q * TWO32 + x % TWO32;
    var h := q % 0x100;
    assert q == (q / 0x100) * 0x100 + h;
    assert x == (q / 0x100) * TWO40 + (h * TWO32 + x % TWO32);
  }

  /** The five bytes the writer emits for a 40-bit field. */
  function Encode40(x: nat): (s: seq<byte>)
    ensures |s| == 5
  {
    [High8(x)] + EncodeBeU32(Low32(x))
  }

  /** The reader's decoding of five bytes as a 40-bit field. */
  function Decode40(s: seq<byte>): (r: nat)
    requires |s| == 5
    ensures r < TWO40
  {
    Join40(s[0], BeU32(s[1..5]))
  }

  lemma Encode40RoundTrip(x: nat)
    requires x < TWO40
    ensures Decode40(Encode40(x)) == x
  {
    var s := Encode40(x);
    assert s[1..5] == EncodeBeU32(Low32(x));
    Split40RoundTrip(x);
  }

  // ---------------------------------------------------------------------
  // Python's int.from_bytes(s, 'big')
  // ---------------------------------------------------------------------

  function Pow256(n: nat): (r: nat)
    ensures r >= 1
  {
    if n == 0 then 1 else 0x100 * Pow256(n - 1)
  }

  /** `int.from_bytes(s, 'big')`, defined over any number of bytes. */
  function BeInt(s: seq<byte>): (r: nat)
  {
    if s == [] then 0 else BeInt(s[..|s| - 1]) * 0x100 + s[|s| - 1]
  }

  lemma {:induction false} BeIntBound(s: seq<byte>)
    ensures BeInt(s) < Pow256(|s|)
  {
    if s != [] {
      BeIntBound(s[..|s| - 1]);
    }
  }

  /** On four bytes, `int.from_bytes` agrees with the big-endian u32 reader. */
  lemma BeIntFour(s: seq<byte>)
    requires |s| == 4
    ensures BeInt(s) == BeU32(s)
  {
    assert s[..3][..2] == s[..2] && s[..2][..1] == s[..1] && s[..1][..0] == [];
    assert BeInt(s[..1]) == s[0];
    assert BeInt(s[..2]) == s[0] as int * 0x100 + s[1];
    assert BeInt(s[..3]) == (s[0] as int * 0x100 + s[1]) * 0x100 + s[2];
  }

  /**
   * On five bytes, `int.from_bytes` agrees with the Rust decoding of a 40-bit
   * field as a high byte followed by a big-endian u32.
   */
  lemma BeIntFive(s: seq<byte>)
    requires |s| == 5
    ensures BeInt(s) == Decode40(s)
  {
    BeIntFour(s[..4]);
    assert s[..4] == [s[0], s[1], s[2], s[3]];
    assert s[1..5] == [s[1], s[2], s[3], s[4]];
  }

  /** Python's `s[a:b]` for non-negative bounds: clipped to the sequence, empty when `b <= a`. */
  function Clip(s: seq<byte>, a: nat, b: nat): (r: seq<byte>)
    ensures a <= b <= |s| ==> r == s[a..b]
    ensures a <= |s| <= b ==> r == s[a..]
    ensures b <= a || |s| <= a ==> r == []
    ensures |r| <= |s| - a || |r| == 0
  {
    var lo := if a < |s| then a else |s|;
    var hi := if b < |s| then b else |s|;
    if hi <= lo then [] else s[lo..hi]
  }
}
