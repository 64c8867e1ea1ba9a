/**
 * The `.evb` header scanner of evb_to_json.py: `EVBParser` checks the `FBKK`
 * tag, reads the little-endian header words below offset 0x80, follows each
 * word that points into the file to the printable text there, and lists
 * every run of at least four printable ASCII bytes. The two regular
 * expressions, `[ -~]{1,64}` (anchored) and `[ -~]{4,}` (scanned with
 * `finditer`), are modelled by what they match.
 */
module Evb {
  import opened Bytes
  import opened Wrappers

  type Text = seq<char>

  /** The two `ValueError`s the parser raises. */
  datatype EvbError = TooSmall | InvalidHeader(header: Text)

  /** One entry of `header_string_refs`. */
  datatype StringRef = StringRef(wordIndex: nat, offset: nat, value: Text)

  /** One entry of `strings`. */
  datatype Found = Found(offset: nat, value: Text)

  /** The dictionary `to_dict` returns. */
  datatype EvbDict = EvbDict(header: Option<Text>, headerWords: seq<u32>, headerStringRefs: seq<StringRef>,
                             strings: seq<Found>)

  const FBKK: Text := "FBKK"
  const HEADER_LIMIT: nat := 0x80
  const REF_MAX: nat := 64
  const MIN_RUN: nat := 4

  // ---------------------------------------------------------------------
  // check_type
  // ---------------------------------------------------------------------

  /** `bytes.decode("ascii", errors="ignore")`: bytes above 0x7F are dropped. */
  function AsciiIgnore(s: seq<byte>): (r: Text)
    ensures |r| <= |s|
  {
    if s == [] then [] else (if s[0] < 0x80 then [s[0] as char] else []) + AsciiIgnore(s[1..])
  }

  /** `str.rstrip("\0")`. */
  function RStripNul(t: Text): (r: Text)
    ensures r <= t
    ensures r == [] || r[|r| - 1] != '\0'
    ensures forall k | |r| <= k < |t| :: t[k] == '\0'
  {
    if t == [] || t[|t| - 1] != '\0' then t else RStripNul(t[..|t| - 1])
  }

  /** The header text `check_type` stores. */
  function HeaderText(data: seq<byte>): Text
    requires |data| >= 4
  {
    RStripNul(AsciiIgnore(data[..4]))
  }

  /** The outcome of `check_type`. */
  function CheckTypeSpec(data: seq<byte>): Result<(), EvbError>
  {
    if |data| < 4 then Err(TooSmall)
    else if HeaderText(data) != FBKK then Err(InvalidHeader(HeaderText(data)))
    else Ok(())
  }

  /** Only bytes below 0x80 survive the decode, each as its character. */
  lemma {:induction false} AsciiIgnoreAll(s: seq<byte>)
    requires |AsciiIgnore(s)| == |s|
    ensures forall k | 0 <= k < |s| :: s[k] < 0x80 && AsciiIgnore(s)[k] == s[k] as char
  {
    if s != [] {
      assert s[0] < 0x80;
      AsciiIgnoreAll(s[1..]);
      assert AsciiIgnore(s) == [s[0] as char] + AsciiIgnore(s[1..]);
    }
  }

  /** The header is accepted exactly when the first four bytes are `FBKK`. */
  lemma HeaderAccepted(data: seq<byte>)
    requires |data| >= 4
    ensures HeaderText(data) == FBKK <==> data[..4] == [0x46, 0x42, 0x4B, 0x4B]
  {
    var s := data[..4];
    if s == [0x46, 0x42, 0x4B, 0x4B] {
      AsciiIgnoreAscii(s);
      assert AsciiIgnore(s) == FBKK;
    }
    if HeaderText(data) == FBKK {
      var t := AsciiIgnore(s);
      assert |t| == 4;
      assert t == FBKK;
      AsciiIgnoreAll(s);
      assert s == [0x46, 0x42, 0x4B, 0x4B] by {
        forall k | 0 <= k < 4
          ensures s[k] == [0x46, 0x42, 0x4B, 0x4B][k]
        {
          assert s[k] as char == FBKK[k];
        }
      }
    }
  }

  /** ASCII bytes decode one character each. */
  lemma {:induction false} AsciiIgnoreAscii(s: seq<byte>)
    requires forall k | 0 <= k < |s| :: s[k] < 0x80
    ensures |AsciiIgnore(s)| == |s| && forall k | 0 <= k < |s| :: AsciiIgnore(s)[k] == s[k] as char
  {
    if s != [] {
      AsciiIgnoreAscii(s[1..]);
      assert AsciiIgnore(s) == [s[0] as char] + AsciiIgnore(s[1..]);
    }
  }

  /** Shorter than four bytes fails with "File too small", a wrong tag with "Invalid EVB header". */
  lemma CheckTypeErrors(data: seq<byte>)
    ensures CheckTypeSpec(data) == Err(TooSmall) <==> |data| < 4
    ensures |data| >= 4 ==> (CheckTypeSpec(data).Ok? <==> data[..4] == [0x46, 0x42, 0x4B, 0x4B])
  {
    if |data| >= 4 {
      HeaderAccepted(data);
    }
  }

  // ---------------------------------------------------------------------
  // Header words
  // ---------------------------------------------------------------------

  /** `min(len(data), 0x80)`. */
  function HeaderLimit(n: nat): nat
  {
    if n < HEADER_LIMIT then n else HEADER_LIMIT
  }

  /** The words from `offset` on: `range(offset, limit, 4)`, stopping at the first short chunk. */
  function WordsFrom(data: seq<byte>, offset: nat, limit: nat): seq<u32>
    decreases limit - offset
  {
    if offset >= limit || offset + 4 > |data| then []
    else [LeU32(data[offset..offset + 4])] + WordsFrom(data, offset + 4, limit)
  }

  function HeaderWords(data: seq<byte>): seq<u32>
  {
    WordsFrom(data, 4, HeaderLimit(|data|))
  }

  lemma {:induction false} WordsFromSpec(data: seq<byte>, offset: nat, limit: nat)
    ensures var w := WordsFrom(data, offset, limit);
            && (forall i | 0 <= i < |w| ::
                  offset + 4 * i < limit && offset + 4 * i + 4 <= |data|
                  && w[i] == LeU32(data[offset + 4 * i..offset + 4 * i + 4]))
            && (offset + 4 * |w| >= limit || offset + 4 * |w| + 4 > |data|)
    decreases limit - offset
  {
    if !(offset >= limit || offset + 4 > |data|) {
      WordsFromSpec(data, offset + 4, limit);
      var w := WordsFrom(data, offset, limit);
      var rest := WordsFrom(data, offset + 4, limit);
      assert w == [LeU32(data[offset..offset + 4])] + rest;
      forall i | 0 <= i < |w|
        ensures offset + 4 * i < limit && offset + 4 * i + 4 <= |data|
                && w[i] == LeU32(data[offset + 4 * i..offset + 4 * i + 4])
      {
        if i > 0 {
          assert w[i] == rest[i - 1];
        }
      }
    }
  }

  /**
   * `header_words`: word `i` is the little-endian u32 at offset `4 + 4i`,
   * below `min(len, 0x80)` and wholly inside the data; the list stops where
   * the next offset reaches the limit or its chunk is short, so it holds at
   * most 31 words.
   */
  lemma HeaderWordsSpec(data: seq<byte>)
    ensures var w := HeaderWords(data);
            && |w| <= 31
            && (forall i | 0 <= i < |w| ::
                  4 + 4 * i < HeaderLimit(|data|) && 8 + 4 * i <= |data|
                  && w[i] == LeU32(data[4 + 4 * i..8 + 4 * i]))
            && (4 + 4 * |w| >= HeaderLimit(|data|) || 8 + 4 * |w| > |data|)
  {
    WordsFromSpec(data, 4, HeaderLimit(|data|));
    var w := HeaderWords(data);
    if |w| > 0 {
      assert 4 + 4 * (|w| - 1) < HeaderLimit(|data|);
    }
  }

  // ---------------------------------------------------------------------
  // Header string references
  // ---------------------------------------------------------------------

  /** `[ -~]`: printable ASCII. */
  predicate Printable(b: byte)
  {
    0x20 <= b <= 0x7E
  }

  /** The length `re.match(rb"[ -~]{1,max}", s)` would match, 0 for no match. */
  function PrintablePrefix(s: seq<byte>, max: nat): (n: nat)
    ensures n <= |s| && n <= max
    ensures forall k | 0 <= k < n :: Printable(s[k])
    ensures n < |s| && n < max ==> !Printable(s[n])
  {
    if s == [] || max == 0 || !Printable(s[0]) then 0 else 1 + PrintablePrefix(s[1..], max - 1)
  }

  /**
   * `raw.decode("utf-8", errors="ignore")` on the ASCII bytes it is applied
   * to (printable runs only): one character per byte.
   */
  function AsciiText(s: seq<byte>): (t: Text)
    ensures |t| == |s| && forall k | 0 <= k < |s| :: t[k] == s[k] as char
  {
    seq(|s|, k requires 0 <= k < |s| => s[k] as char)
  }

  /** What header word `index` with value `value` adds to `header_string_refs`. */
  function RefAt(data: seq<byte>, index: nat, value: nat): Option<StringRef>
  {
    if value < |data| then
      var end := if |data| < value + REF_MAX then |data| else value + REF_MAX;
      var chunk := Clip(data, value, end);
      var n := PrintablePrefix(chunk, REF_MAX);
      if n >= 1 then Some(StringRef(index, value, AsciiText(chunk[..n]))) else None
    else None
  }

  function OptSeq<T>(o: Option<T>): seq<T>
  {
    if o.Some? then [o.value] else []
  }

  /** What each word adds to `header_string_refs`, word by word. */
  function RefOptions(data: seq<byte>, words: seq<u32>): (o: seq<Option<StringRef>>)
    ensures |o| == |words|
  {
    seq(|words|, i requires 0 <= i < |words| => RefAt(data, i, words[i]))
  }

  /** The references among the first `n` options, in order. */
  function Collect(opts: seq<Option<StringRef>>, n: nat): seq<StringRef>
    requires n <= |opts|
  {
    if n == 0 then [] else Collect(opts, n - 1) + OptSeq(opts[n - 1])
  }

  /** The references of the first `n` words, in word order. */
  function RefsUpTo(data: seq<byte>, words: seq<u32>, n: nat): seq<StringRef>
    requires n <= |words|
  {
    Collect(RefOptions(data, words), n)
  }

  function StringRefs(data: seq<byte>, words: seq<u32>): seq<StringRef>
  {
    RefsUpTo(data, words, |words|)
  }

  /**
   * A word yields a reference exactly when it points into the data at a
   * printable byte; the reference holds the word's index and value and the
   * longest printable text there, at most 64 characters.
   */
  lemma RefAtSpec(data: seq<byte>, index: nat, value: nat)
    ensures RefAt(data, index, value).Some? <==> value < |data| && Printable(data[value])
    ensures RefAt(data, index, value).Some? ==>
              var r := RefAt(data, index, value).value;
              var end := value + |r.value|;
              && r.wordIndex == index && r.offset == value
              && 1 <= |r.value| <= REF_MAX && end <= |data|
              && (forall k | value <= k < end :: Printable(data[k]) && r.value[k - value] == data[k] as char)
              && (end == |data| || |r.value| == REF_MAX || !Printable(data[end]))
  {
    if value < |data| {
      var end := if |data| < value + REF_MAX then |data| else value + REF_MAX;
      var chunk := Clip(data, value, end);
      assert chunk == data[value..end];
      var n := PrintablePrefix(chunk, REF_MAX);
      if n >= 1 {
        var r := RefAt(data, index, value).value;
        assert r.value == AsciiText(chunk[..n]);
        forall k | value <= k < value + n
          ensures Printable(data[k]) && r.value[k - value] == data[k] as char
        {
          assert data[k] == chunk[k - value];
        }
        if value + n < |data| && n < REF_MAX {
          assert data[value + n] == chunk[n];
        }
      }
    }
  }

  /** Each option is nothing or a reference for its own word. */
  predicate Indexed(opts: seq<Option<StringRef>>)
  {
    forall i | 0 <= i < |opts| && opts[i].Some? :: opts[i].value.wordIndex == i
  }

  /** Each entry is the option of its own word, a word below `n`. */
  predicate RefsFaithful(opts: seq<Option<StringRef>>, r: seq<StringRef>, n: nat)
  {
    forall k | 0 <= k < |r| :: r[k].wordIndex < n <= |opts| && opts[r[k].wordIndex] == Some(r[k])
  }

  predicate RefsIncreasing(r: seq<StringRef>)
  {
    forall k, l | 0 <= k < l < |r| :: r[k].wordIndex < r[l].wordIndex
  }

  /** Every word below `n` that yields a reference has its entry. */
  predicate RefsComplete(opts: seq<Option<StringRef>>, r: seq<StringRef>, n: nat)
    requires n <= |opts|
  {
    forall i | 0 <= i < n && opts[i].Some? :: exists k | 0 <= k < |r| :: r[k].wordIndex == i
  }

  /**
   * `header_string_refs`: each entry is what `RefAt` gives for its word (the
   * options of `RefOptions`), the indices increase, and every word that
   * yields a reference has its entry.
   */
  lemma RefsUpToSpec(data: seq<byte>, words: seq<u32>, n: nat)
    requires n <= |words|
    ensures RefsFaithful(RefOptions(data, words), RefsUpTo(data, words, n), n)
    ensures RefsIncreasing(RefsUpTo(data, words, n))
    ensures RefsComplete(RefOptions(data, words), RefsUpTo(data, words, n), n)
  {
    var opts := RefOptions(data, words);
    RefOptionsIndexed(data, words);
    CollectFaithful(opts, n);
    CollectIncreasing(opts, n);
    CollectComplete(opts, n);
  }

  lemma RefOptionsIndexed(data: seq<byte>, words: seq<u32>)
    ensures Indexed(RefOptions(data, words))
  {
  }

  lemma {:induction false} CollectFaithful(opts: seq<Option<StringRef>>, n: nat)
    requires Indexed(opts) && n <= |opts|
    ensures RefsFaithful(opts, Collect(opts, n), n)
  {
    if n > 0 {
      var init, r := Collect(opts, n - 1), Collect(opts, n);
      CollectFaithful(opts, n - 1);
      forall k | 0 <= k < |r|
        ensures r[k].wordIndex < n <= |opts| && opts[r[k].wordIndex] == Some(r[k])
      {
        if k < |init| {
          assert r[k] == init[k];
        } else {
          assert opts[n - 1].Some? && r[k] == opts[n - 1].value;
        }
      }
    }
  }

  lemma {:induction false} CollectIncreasing(opts: seq<Option<StringRef>>, n: nat)
    requires Indexed(opts) && n <= |opts|
    ensures RefsIncreasing(Collect(opts, n))
  {
    if n > 0 {
      var init, r := Collect(opts, n - 1), Collect(opts, n);
      CollectIncreasing(opts, n - 1);
      CollectFaithful(opts, n - 1);
      forall k, l | 0 <= k < l < |r|
        ensures r[k].wordIndex < r[l].wordIndex
      {
        assert r[k] == init[k];
        if l < |init| {
          assert r[l] == init[l];
        } else {
          assert opts[n - 1].Some? && r[l] == opts[n - 1].value;
        }
      }
    }
  }

  lemma {:induction false} CollectComplete(opts: seq<Option<StringRef>>, n: nat)
    requires Indexed(opts) && n <= |opts|
    ensures RefsComplete(opts, Collect(opts, n), n)
  {
    if n > 0 {
      var init, r := Collect(opts, n - 1), Collect(opts, n);
      CollectComplete(opts, n - 1);
      forall i | 0 <= i < n && opts[i].Some?
        ensures exists k | 0 <= k < |r| :: r[k].wordIndex == i
      {
        if i < n - 1 {
          var k :| 0 <= k < |init| && init[k].wordIndex == i;
          assert r[k] == init[k];
        } else {
          assert r[|init|] == opts[n - 1].value;
        }
      }
    }
  }

  // ---------------------------------------------------------------------
  // Printable runs
  // ---------------------------------------------------------------------

  /** One match of `re.finditer(rb"[ -~]{4,}", data)`: its start and its bytes. */
  datatype Match = Match(start: nat, raw: seq<byte>)

  /** Where the run of printable bytes starting at `i` ends. */
  function RunEnd(data: seq<byte>, i: nat): (j: nat)
    requires i <= |data|
    ensures i <= j <= |data|
    ensures forall k | i <= k < j :: Printable(data[k])
    ensures j == |data| || !Printable(data[j])
    decreases |data| - i
  {
    if i < |data| && Printable(data[i]) then RunEnd(data, i + 1) else i
  }

  /**
   * The scan from `i`: at a printable byte the greedy pattern takes the whole
   * run, kept when it has at least four bytes; the scan resumes after it.
   */
  function Finditer(data: seq<byte>, i: nat): seq<Match>
    requires i <= |data|
    decreases |data| - i
  {
    if i == |data| then []
    else if !Printable(data[i]) then Finditer(data, i + 1)
    else
      var j := RunEnd(data, i);
      if j - i >= MIN_RUN then [Match(i, data[i..j])] + Finditer(data, j) else Finditer(data, j)
  }

  /** A scan may start or resume here: nothing printable runs across `i`. */
  predicate Boundary(data: seq<byte>, i: nat)
    requires i <= |data|
  {
    i == 0 || i == |data| || !Printable(data[i - 1]) || !Printable(data[i])
  }

  /** Every match is a maximal run starting at or after `i`. */
  predicate AllMaximalFrom(data: seq<byte>, ms: seq<Match>, i: nat)
  {
    forall k | 0 <= k < |ms| :: MaximalRun(data, ms[k]) && ms[k].start >= i
  }

  /** Each match ends before the next one starts. */
  predicate Separated(ms: seq<Match>)
  {
    forall k | 0 <= k < |ms| - 1 :: ms[k].start + |ms[k].raw| < ms[k + 1].start
  }

  /** A maximal run of at least four printable bytes. */
  predicate MaximalRun(data: seq<byte>, m: Match)
  {
    var end := m.start + |m.raw|;
    && end <= |data| && |m.raw| >= MIN_RUN && m.raw == data[m.start..end]
    && (forall k | m.start <= k < end :: Printable(data[k]))
    && (m.start == 0 || !Printable(data[m.start - 1]))
    && (end == |data| || !Printable(data[end]))
  }

  /**
   * Every match is a maximal run of four or more printable bytes at or after
   * `i`, and each match ends before the next one starts.
   */
  lemma {:induction false} FinditerSound(data: seq<byte>, i: nat)
    requires i <= |data| && Boundary(data, i)
    ensures AllMaximalFrom(data, Finditer(data, i), i) && Separated(Finditer(data, i))
    decreases |data| - i
  {
    if i < |data| {
      if !Printable(data[i]) {
        FinditerSound(data, i + 1);
        assert Finditer(data, i) == Finditer(data, i + 1);
      } else {
        var j := RunEnd(data, i);
        FinditerSound(data, j);
        if j - i < MIN_RUN {
          assert Finditer(data, i) == Finditer(data, j);
        } else {
          var m := Match(i, data[i..j]);
          assert Finditer(data, i) == [m] + Finditer(data, j);
          SoundCons(data, m, Finditer(data, j));
        }
      }
    }
  }

  /** A maximal run followed by the sound scan from its end is a sound scan from its start. */
  lemma SoundCons(data: seq<byte>, m: Match, rest: seq<Match>)
    requires MaximalRun(data, m)
    requires AllMaximalFrom(data, rest, m.start + |m.raw|) && Separated(rest)
    ensures AllMaximalFrom(data, [m] + rest, m.start) && Separated([m] + rest)
  {
    var ms := [m] + rest;
    var j := m.start + |m.raw|;
    forall k | 0 <= k < |ms| - 1
      ensures ms[k].start + |ms[k].raw| < ms[k + 1].start
    {
      if k == 0 {
        assert MaximalRun(data, rest[0]) && rest[0].start >= j;
        assert Printable(data[rest[0].start]);
      } else {
        assert ms[k] == rest[k - 1] && ms[k + 1] == rest[k];
      }
    }
    forall k | 0 <= k < |ms|
      ensures MaximalRun(data, ms[k]) && ms[k].start >= m.start
    {
      if k > 0 {
        assert ms[k] == rest[k - 1];
      }
    }
  }

  /** Every maximal run of four or more printable bytes at or after `i` is matched. */
  lemma {:induction false} FinditerComplete(data: seq<byte>, i: nat, s: nat)
    requires i <= s && s + MIN_RUN <= |data| && Boundary(data, i)
    requires s == 0 || !Printable(data[s - 1])
    requires forall k | s <= k < s + MIN_RUN :: Printable(data[k])
    ensures exists k | 0 <= k < |Finditer(data, i)| :: Finditer(data, i)[k].start == s
    decreases |data| - i
  {
    var ms := Finditer(data, i);
    if !Printable(data[i]) {
      FinditerComplete(data, i + 1, s);
      var k :| 0 <= k < |Finditer(data, i + 1)| && Finditer(data, i + 1)[k].start == s;
      assert ms[k] == Finditer(data, i + 1)[k];
    } else {
      var j := RunEnd(data, i);
      if i == s {
        assert RunEnd(data, s) >= s + MIN_RUN by {
          RunEndCovers(data, s, s + MIN_RUN);
        }
        assert ms[0].start == s;
      } else {
        RunEndBefore(data, i, s - 1);
        FinditerComplete(data, j, s);
        var k :| 0 <= k < |Finditer(data, j)| && Finditer(data, j)[k].start == s;
        if j - i >= MIN_RUN {
          assert ms == [Match(i, data[i..j])] + Finditer(data, j);
          assert ms[k + 1].start == s;
        } else {
          assert ms[k].start == s;
        }
      }
    }
  }

  /** A run does not extend past a byte that is not printable. */
  lemma {:induction false} RunEndBefore(data: seq<byte>, i: nat, b: nat)
    requires i <= b < |data| && !Printable(data[b])
    ensures RunEnd(data, i) <= b
    decreases |data| - i
  {
    if Printable(data[i]) {
      RunEndBefore(data, i + 1, b);
    }
  }

  /** A run that is printable up to `e` ends at or after `e`. */
  lemma {:induction false} RunEndCovers(data: seq<byte>, i: nat, e: nat)
    requires i <= e <= |data|
    requires forall k | i <= k < e :: Printable(data[k])
    ensures RunEnd(data, i) >= e
    decreases |data| - i
  {
    if i < e {
      RunEndCovers(data, i + 1, e);
    }
  }

  /** `strings`: one entry per match, its start and its text. */
  function FoundOf(ms: seq<Match>): seq<Found>
  {
    if ms == [] then [] else [Found(ms[0].start, AsciiText(ms[0].raw))] + FoundOf(ms[1..])
  }

  /** The entries the scan of the whole file adds to `strings`. */
  function Strings(data: seq<byte>): seq<Found>
  {
    FoundOf(Finditer(data, 0))
  }

  /** One `strings` entry: the text of a maximal run of four or more printable bytes at its offset. */
  predicate FoundRun(data: seq<byte>, f: Found)
  {
    var end := f.offset + |f.value|;
    && end <= |data| && |f.value| >= MIN_RUN
    && (forall k | f.offset <= k < end :: Printable(data[k]) && f.value[k - f.offset] == data[k] as char)
    && (f.offset == 0 || !Printable(data[f.offset - 1]))
    && (end == |data| || !Printable(data[end]))
  }

  /** A run of at least four printable bytes begins at `s`. */
  predicate RunStart(data: seq<byte>, s: nat)
  {
    && s + MIN_RUN <= |data|
    && (s == 0 || !Printable(data[s - 1]))
    && (forall k | s <= k < s + MIN_RUN :: Printable(data[k]))
  }

  lemma {:induction false} FoundOfSpec(ms: seq<Match>)
    ensures |FoundOf(ms)| == |ms|
    ensures forall k | 0 <= k < |ms| :: FoundOf(ms)[k] == Found(ms[k].start, AsciiText(ms[k].raw))
  {
    if ms != [] {
      FoundOfSpec(ms[1..]);
      forall k | 0 < k < |ms|
        ensures FoundOf(ms)[k] == Found(ms[k].start, AsciiText(ms[k].raw))
      {
        assert FoundOf(ms)[k] == FoundOf(ms[1..])[k - 1];
        assert ms[k] == ms[1..][k - 1];
      }
    }
  }

  /**
   * `strings` gains, in increasing offset order, exactly one entry per
   * maximal run of four or more printable bytes: each entry is such a run
   * with its text, and every such run has an entry.
   */
  lemma StringsSpec(data: seq<byte>)
    ensures forall k | 0 <= k < |Strings(data)| :: FoundRun(data, Strings(data)[k])
    ensures forall k | 0 <= k < |Strings(data)| - 1 :: Strings(data)[k].offset < Strings(data)[k + 1].offset
    ensures forall s | RunStart(data, s) :: exists k | 0 <= k < |Strings(data)| :: Strings(data)[k].offset == s
  {
    FinditerSound(data, 0);
    FoundOfSpec(Finditer(data, 0));
    StringsSound(data);
    StringsOrdered(data);
    StringsComplete(data);
  }

  lemma StringsSound(data: seq<byte>)
    requires AllMaximalFrom(data, Finditer(data, 0), 0)
    ensures forall k | 0 <= k < |Strings(data)| :: FoundRun(data, Strings(data)[k])
  {
    var ms := Finditer(data, 0);
    FoundOfSpec(ms);
    forall k | 0 <= k < |ms|
      ensures FoundRun(data, Strings(data)[k])
    {
      FoundRunOfMatch(data, ms[k]);
    }
  }

  lemma FoundRunOfMatch(data: seq<byte>, m: Match)
    requires MaximalRun(data, m)
    ensures FoundRun(data, Found(m.start, AsciiText(m.raw)))
  {
    var t := AsciiText(m.raw);
    var end := m.start + |m.raw|;
    assert |t| == |m.raw|;
    forall l | m.start <= l < end
      ensures Printable(data[l]) && t[l - m.start] == data[l] as char
    {
      assert m.raw[l - m.start] == data[l];
      assert t[l - m.start] == m.raw[l - m.start] as char;
    }
  }

  lemma StringsOrdered(data: seq<byte>)
    requires Separated(Finditer(data, 0))
    ensures forall k | 0 <= k < |Strings(data)| - 1 :: Strings(data)[k].offset < Strings(data)[k + 1].offset
  {
    var ms := Finditer(data, 0);
    FoundOfSpec(ms);
    forall k | 0 <= k < |ms| - 1
      ensures Strings(data)[k].offset < Strings(data)[k + 1].offset
    {
      assert ms[k].start + |ms[k].raw| < ms[k + 1].start;
    }
  }

  lemma StringsComplete(data: seq<byte>)
    ensures forall s | RunStart(data, s) :: exists k | 0 <= k < |Strings(data)| :: Strings(data)[k].offset == s
  {
    var ms := Finditer(data, 0);
    FoundOfSpec(ms);
    forall s | RunStart(data, s)
      ensures exists k | 0 <= k < |Strings(data)| :: Strings(data)[k].offset == s
    {
      FinditerComplete(data, 0, s);
      var k :| 0 <= k < |ms| && ms[k].start == s;
      assert Strings(data)[k].offset == s;
    }
  }

  // ---------------------------------------------------------------------
  // EVBParser
  // ---------------------------------------------------------------------

  class EvbParser {
    const data: seq<byte>
    var header: Option<Text>
    var headerWords: seq<u32>
    var headerStringRefs: seq<StringRef>
    var strings: seq<Found>

    constructor (data: seq<byte>)
      ensures this.data == data && header == None
      ensures headerWords == [] && headerStringRefs == [] && strings == []
    {
      this.data := data;
      header := None;
      headerWords := [];
      headerStringRefs := [];
      strings := [];
    }

    /** `check_type`: the header is stored (when there are four bytes) before it is tested. */
    method CheckType() returns (r: Result<(), EvbError>)
      modifies this
      ensures r == CheckTypeSpec(data)
      ensures header == (if |data| < 4 then old(header) else Some(HeaderText(data)))
      ensures headerWords == old(headerWords) && headerStringRefs == old(headerStringRefs) && strings == old(strings)
    {
      if |data| < 4 {
        return Err(TooSmall);
      }
      var headerRaw := RStripNul(AsciiIgnore(data[..4]));
      header := Some(headerRaw);
      if headerRaw != FBKK {
        return Err(InvalidHeader(headerRaw));
      }
      r := Ok(());
    }

    /**
     * `parse`. `header_words` and `header_string_refs` are replaced, but the
     * printable runs are appended to `strings`, so a second call lists them
     * twice.
     */
    method Parse() returns (r: Result<(), EvbError>)
      modifies this
      ensures r == CheckTypeSpec(data)
      ensures header == (if |data| < 4 then old(header) else Some(HeaderText(data)))
      ensures r.Err? ==> headerWords == old(headerWords) && headerStringRefs == old(headerStringRefs) && strings == old(strings)
      ensures r.Ok? ==> && headerWords == HeaderWords(data)
                        && headerStringRefs == StringRefs(data, HeaderWords(data))
                        && strings == old(strings) + Strings(data)
    {
      r := CheckType();
      if r.Err? {
        return;
      }
      var words := ReadHeaderWords(data);
      headerWords := words;
      var refs := ReadStringRefs(data, headerWords);
      headerStringRefs := refs;
      var found := ScanStrings(data);
      strings := strings + found;
    }

    /** `to_dict`: the four parsed fields as they are. */
    function ToDict(): (d: EvbDict)
      reads this
      ensures d.header == header && d.headerWords == headerWords
      ensures d.headerStringRefs == headerStringRefs && d.strings == strings
    {
      EvbDict(header, headerWords, headerStringRefs, strings)
    }
  }

  /** The header-word loop of `parse`. */
  method ReadHeaderWords(data: seq<byte>) returns (words: seq<u32>)
    ensures words == HeaderWords(data)
  {
    words := [];
    var headerLimit := if |data| < HEADER_LIMIT then |data| else HEADER_LIMIT;
    var offset := 4;
    while offset < headerLimit
      invariant headerLimit == HeaderLimit(|data|)
      invariant words + WordsFrom(data, offset, headerLimit) == HeaderWords(data)
      decreases headerLimit - offset
    {
      var chunk := Clip(data, offset, offset + 4);
      if |chunk| < 4 {
        WordsFromShort(data, offset, headerLimit, chunk, words);
        break;
      }
      WordsFromStep(data, offset, headerLimit, chunk, words);
      words := words + [LeU32(chunk)];
      offset := offset + 4;
    }
    WordsFromEnd(data, offset, headerLimit, words);
  }

  lemma WordsFromShort(data: seq<byte>, offset: nat, limit: nat, chunk: seq<byte>, words: seq<u32>)
    requires chunk == Clip(data, offset, offset + 4) && |chunk| < 4
    ensures offset + 4 > |data|
  {
  }

  lemma WordsFromEnd(data: seq<byte>, offset: nat, limit: nat, words: seq<u32>)
    requires limit <= offset || offset + 4 > |data|
    ensures words + WordsFrom(data, offset, limit) == words
  {
    assert WordsFrom(data, offset, limit) == [];
  }

  lemma WordsFromStep(data: seq<byte>, offset: nat, limit: nat, chunk: seq<byte>, words: seq<u32>)
    requires offset < limit && chunk == Clip(data, offset, offset + 4) && |chunk| >= 4
    ensures |chunk| == 4
    ensures words + WordsFrom(data, offset, limit) == (words + [LeU32(chunk)]) + WordsFrom(data, offset + 4, limit)
  {
    assert chunk == data[offset..offset + 4];
    assert WordsFrom(data, offset, limit) == [LeU32(chunk)] + WordsFrom(data, offset + 4, limit);
  }

  /** The `enumerate(self.header_words)` loop of `parse`. */
  method ReadStringRefs(data: seq<byte>, words: seq<u32>) returns (refs: seq<StringRef>)
    ensures refs == StringRefs(data, words)
  {
    refs := [];
    for index := 0 to |words|
      invariant refs == RefsUpTo(data, words, index)
    {
      ghost var before := refs;
      var value := words[index];
      if value < |data| {
        var end := if |data| < value + REF_MAX then |data| else value + REF_MAX;
        var chunk := Clip(data, value, end);
        var n := PrintablePrefix(chunk, REF_MAX);
        if n >= 1 {
          refs := refs + [StringRef(index, value, AsciiText(chunk[..n]))];
          assert RefAt(data, index, value) == Some(StringRef(index, value, AsciiText(chunk[..n])));
        } else {
          assert RefAt(data, index, value) == None;
        }
      } else {
        assert RefAt(data, index, value) == None;
      }
      assert refs == before + OptSeq(RefAt(data, index, value));
      RefsUpToNext(data, words, index);
    }
  }

  lemma RefsUpToNext(data: seq<byte>, words: seq<u32>, index: nat)
    requires index < |words|
    ensures RefsUpTo(data, words, index + 1) == RefsUpTo(data, words, index) + OptSeq(RefAt(data, index, words[index]))
  {
  }

  /** The `finditer` loop of `parse`: one entry appended per match. */
  method ScanStrings(data: seq<byte>) returns (found: seq<Found>)
    ensures found == Strings(data)
  {
    var ms := Finditer(data, 0);
    found := [];
    for k := 0 to |ms|
      invariant found + FoundOf(ms[k..]) == FoundOf(ms)
    {
      assert ms[k..] == [ms[k]] + ms[k + 1..];
      found := found + [Found(ms[k].start, AsciiText(ms[k].raw))];
    }
    assert ms[|ms|..] == [];
    assert found + [] == found;
  }
}
