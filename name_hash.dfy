/**
 * Name hashes of src/psarc.rs: `calculate_md5` (the MD5 digest of the
 * ASCII-uppercased path), the byte-wise order the packer sorts entries by,
 * and `hash_to_string`, the printed form of a hash. The MD5 digest itself is
 * a parameter `md5`: the digest of the UTF-8 bytes of a text.
 */
module NameHash {
  import opened Bytes
  import opened Wrappers
  import opened PsarcToc

  type Text = seq<char>

  // ---------------------------------------------------------------------
  // calculate_md5
  // ---------------------------------------------------------------------

  predicate IsAsciiLower(c: char)
  {
    'a' <= c <= 'z'
  }

  /** `char::to_ascii_uppercase`. */
  function UpperChar(c: char): char
  {
    if IsAsciiLower(c) then (c as int - 32) as char else c
  }

  /** `str::to_ascii_uppercase`: only `a`..`z` change. */
  function ToAsciiUpper(s: Text): (r: Text)
    ensures |r| == |s|
    ensures forall k | 0 <= k < |s| :: r[k] == UpperChar(s[k])
  {
    if s == [] then [] else [UpperChar(s[0])] + ToAsciiUpper(s[1..])
  }

  /**
   * `calculate_md5`: a text with no ASCII lowercase letter is hashed as it
   * stands, any other one after uppercasing.
   */
  function CalculateMd5(md5: Text -> Hash, path: Text): Hash
  {
    if forall k | 0 <= k < |path| :: !IsAsciiLower(path[k]) then md5(path) else md5(ToAsciiUpper(path))
  }

  /** Both branches hash the uppercased path. */
  lemma CalculateMd5Upper(md5: Text -> Hash, path: Text)
    ensures CalculateMd5(md5, path) == md5(ToAsciiUpper(path))
  {
    if forall k | 0 <= k < |path| :: !IsAsciiLower(path[k]) {
      assert ToAsciiUpper(path) == path;
    }
  }

  /** Paths that differ only in the case of ASCII letters have the same name hash. */
  lemma CalculateMd5CaseInsensitive(md5: Text -> Hash, p: Text, q: Text)
    requires |p| == |q|
    requires forall k | 0 <= k < |p| :: UpperChar(p[k]) == UpperChar(q[k])
    ensures CalculateMd5(md5, p) == CalculateMd5(md5, q)
  {
    CalculateMd5Upper(md5, p);
    CalculateMd5Upper(md5, q);
    assert ToAsciiUpper(p) == ToAsciiUpper(q);
  }

  /** Uppercasing twice changes nothing more. */
  lemma ToAsciiUpperIdempotent(s: Text)
    ensures ToAsciiUpper(ToAsciiUpper(s)) == ToAsciiUpper(s)
  {
  }

  // ---------------------------------------------------------------------
  // Ordering digests
  // ---------------------------------------------------------------------

  /** `[u8; 16]::cmp` as `<=`: lexicographic over the bytes. */
  predicate LexLe(a: seq<byte>, b: seq<byte>)
    requires |a| == |b|
  {
    a == [] || a[0] < b[0] || (a[0] == b[0] && LexLe(a[1..], b[1..]))
  }

  lemma {:induction false} LexLeTotal(a: seq<byte>, b: seq<byte>)
    requires |a| == |b|
    ensures LexLe(a, b) || LexLe(b, a)
  {
    if a != [] && a[0] == b[0] {
      LexLeTotal(a[1..], b[1..]);
    }
  }

  lemma {:induction false} LexLeTransitive(a: seq<byte>, b: seq<byte>, c: seq<byte>)
    requires |a| == |b| == |c|
    requires LexLe(a, b) && LexLe(b, c)
    ensures LexLe(a, c)
  {
    if a != [] && a[0] == b[0] == c[0] {
      LexLeTransitive(a[1..], b[1..], c[1..]);
    }
  }

  lemma {:induction false} LexLeAntisymmetric(a: seq<byte>, b: seq<byte>)
    requires |a| == |b|
    requires LexLe(a, b) && LexLe(b, a)
    ensures a == b
  {
    if a != [] {
      LexLeAntisymmetric(a[1..], b[1..]);
      assert a == [a[0]] + a[1..] && b == [b[0]] + b[1..];
    }
  }

  // ---------------------------------------------------------------------
  // hash_to_string
  // ---------------------------------------------------------------------

  const HEX_DIGITS: Text := "0123456789ABCDEF"

  /** `format!("{:02X}", b)`: two uppercase hexadecimal digits. */
  function HexByte(b: byte): (r: Text)
    ensures |r| == 2
  {
    [HEX_DIGITS[b / 16], HEX_DIGITS[b % 16]]
  }

  /** The value of an uppercase hexadecimal digit. */
  function HexValue(c: char): (r: Option<nat>)
    ensures r.Some? ==> r.value < 16
  {
    if '0' <= c <= '9' then Some(c as int - '0' as int)
    else if 'A' <= c <= 'F' then Some(c as int - 'A' as int + 10)
    else None
  }

  lemma HexDigitValue(n: nat)
    requires n < 16
    ensures HexValue(HEX_DIGITS[n]) == Some(n)
  {
  }

  /** The bytes printed as groups of two digits joined by `-`. */
  function HashToString(h: seq<byte>): (r: Text)
    ensures h != [] ==> |r| == 3 * |h| - 1
    ensures h == [] ==> r == []
  {
    if h == [] then []
    else if |h| == 1 then HexByte(h[0])
    else HexByte(h[0]) + ['-'] + HashToString(h[1..])
  }

  /** Reads a printed hash back: groups of two uppercase digits separated by `-`. */
  function ParseHashString(s: Text): Option<seq<byte>>
    decreases |s|
  {
    if |s| < 2 || HexValue(s[0]).None? || HexValue(s[1]).None? then None
    else
      var b := HexValue(s[0]).value * 16 + HexValue(s[1]).value;
      if |s| == 2 then Some([b])
      else if s[2] != '-' then None
      else
        var rest := ParseHashString(s[3..]);
        if rest.None? then None else Some([b] + rest.value)
  }

  lemma ParseHexByte(b: byte, rest: Text)
    ensures var s := HexByte(b) + rest;
            HexValue(s[0]) == Some(b / 16) && HexValue(s[1]) == Some(b % 16) && (b / 16) * 16 + b % 16 == b
  {
    HexDigitValue(b / 16);
    HexDigitValue(b % 16);
  }

  /** Every third character is `-`, and every other one is a digit `0`..`9`, `A`..`F`. */
  predicate HexGroups(r: Text)
  {
    && (forall k | 0 <= k < |r| && k % 3 == 2 :: r[k] == '-')
    && (forall k | 0 <= k < |r| && k % 3 != 2 :: r[k] in HEX_DIGITS)
  }

  lemma {:induction false} HashToStringDigits(h: seq<byte>)
    ensures HexGroups(HashToString(h))
  {
    var r := HashToString(h);
    if |h| == 1 {
      assert r[0] == HEX_DIGITS[h[0] / 16] && r[1] == HEX_DIGITS[h[0] % 16];
    } else if |h| > 1 {
      var t := HashToString(h[1..]);
      HashToStringDigits(h[1..]);
      assert r == HexByte(h[0]) + ['-'] + t;
      assert r[0] == HEX_DIGITS[h[0] / 16] && r[1] == HEX_DIGITS[h[0] % 16] && r[2] == '-';
      forall k | 3 <= k < |r|
        ensures (k % 3 == 2 ==> r[k] == '-') && (k % 3 != 2 ==> r[k] in HEX_DIGITS)
      {
        var j := k - 3;
        assert r[k] == t[j];
        ModThree(j);
        assert 0 <= j < |t|;
        if j % 3 == 2 {
          assert t[j] == '-';
        } else {
          assert t[j] in HEX_DIGITS;
        }
      }
    }
  }

  lemma ModThree(j: nat)
    ensures (j + 3) % 3 == j % 3
  {
  }

  /** A 16-byte hash prints as 47 characters. */
  lemma HashToStringLength(h: Hash)
    ensures |HashToString(h)| == 47
  {
  }

  /** Printing then parsing gives back the bytes. */
  lemma {:induction false} ParseHashToString(h: seq<byte>)
    requires h != []
    ensures ParseHashString(HashToString(h)) == Some(h)
  {
    var b := h[0];
    var s := HashToString(h);
    if |h| == 1 {
      ParseHexByte(b, []);
      assert s == HexByte(b) + [];
      assert h == [b];
    } else {
      var t := HashToString(h[1..]);
      ParseHexByte(b, ['-'] + t);
      assert s == HexByte(b) + (['-'] + t);
      assert |s| > 2 && s[2] == '-' && s[3..] == t;
      ParseHashToString(h[1..]);
      ParseGroup(s, b, h[1..]);
      assert h == [b] + h[1..];
    }
  }

  /** A group of two digits and a `-` in front of a parsed rest. */
  lemma ParseGroup(s: Text, b: byte, rest: seq<byte>)
    requires |s| > 2 && s[2] == '-'
    requires HexValue(s[0]) == Some(b / 16) && HexValue(s[1]) == Some(b % 16) && (b / 16) * 16 + b % 16 == b
    requires ParseHashString(s[3..]) == Some(rest)
    ensures ParseHashString(s) == Some([b] + rest)
  {
  }

  /** Distinct hashes print differently. */
  lemma HashToStringInjective(g: Hash, h: Hash)
    requires HashToString(g) == HashToString(h)
    ensures g == h
  {
    ParseHashToString(g);
    ParseHashToString(h);
  }
}
