/**
 * The manifest (file list) routines of src/psarc.rs: reading the ordered
 * path list out of a manifest text, writing a path list back as manifest
 * text, the name hash of a path and its printed form. Text is a sequence of
 * Unicode scalar values; its UTF-8 encoding is not modelled.
 */
module Manifest {
  import opened Bytes
  import opened Wrappers
  import opened PsarcToc

  type Text = seq<char>

  /** U+FEFF, the byte order mark. */
  const BOM: char := '\U{FEFF}'

  /** Rust's `char::is_whitespace`: the Unicode White_Space property. */
  predicate IsWhitespace(c: char)
  {
    || ('\t' <= c <= '\r') || c == ' ' || c == '\U{0085}' || c == '\U{00A0}' || c == '\U{1680}'
    || ('\U{2000}' <= c <= '\U{200A}') || c == '\U{2028}' || c == '\U{2029}' || c == '\U{202F}'
    || c == '\U{205F}' || c == '\U{3000}'
  }

  // ---------------------------------------------------------------------
  // Trimming
  // ---------------------------------------------------------------------

  /** `trim_start`: drops leading whitespace. */
  function TrimStart(s: Text): (r: Text)
    ensures |r| <= |s| && r == s[|s| - |r|..]
    ensures r == [] || !IsWhitespace(r[0])
    ensures forall k | 0 <= k < |s| - |r| :: IsWhitespace(s[k])
  {
    if s != [] && IsWhitespace(s[0]) then
      var r := TrimStart(s[1..]);
      TrimStartStep(s, r);
      r
    else s
  }

  lemma TrimStartStep(s: Text, r: Text)
    requires s != [] && IsWhitespace(s[0])
    requires |r| <= |s| - 1 && r == s[1..][|s| - 1 - |r|..]
    requires forall k | 0 <= k < |s| - 1 - |r| :: IsWhitespace(s[1..][k])
    ensures r == s[|s| - |r|..]
    ensures forall k | 0 <= k < |s| - |r| :: IsWhitespace(s[k])
  {
    forall k | 0 < k < |s| - |r|
      ensures IsWhitespace(s[k])
    {
      assert s[k] == s[1..][k - 1];
    }
  }

  /** `trim_end`: drops trailing whitespace. */
  function TrimEnd(s: Text): (r: Text)
    ensures |r| <= |s| && r == s[..|r|]
    ensures r == [] || !IsWhitespace(r[|r| - 1])
    ensures forall k | |r| <= k < |s| :: IsWhitespace(s[k])
  {
    if s != [] && IsWhitespace(s[|s| - 1]) then
      var r := TrimEnd(s[..|s| - 1]);
      TrimEndStep(s, s[..|s| - 1], r);
      r
    else s
  }

  lemma TrimEndStep(s: Text, t: Text, r: Text)
    requires s != [] && IsWhitespace(s[|s| - 1]) && t == s[..|s| - 1]
    requires |r| <= |t| && r == t[..|r|]
    requires forall k | |r| <= k < |t| :: IsWhitespace(t[k])
    ensures r == s[..|r|]
    ensures forall k | |r| <= k < |s| :: IsWhitespace(s[k])
  {
    forall k | |r| <= k < |t|
      ensures IsWhitespace(s[k])
    {
      assert s[k] == t[k];
    }
  }

  /** `trim`: drops whitespace at both ends. */
  function Trim(s: Text): Text
  {
    TrimEnd(TrimStart(s))
  }

  /** `trim_start_matches('\u{feff}')`: drops every leading byte order mark. */
  function TrimStartBom(s: Text): (r: Text)
    ensures |r| <= |s| && r == s[|s| - |r|..]
    ensures r == [] || r[0] != BOM
    ensures forall k | 0 <= k < |s| - |r| :: s[k] == BOM
  {
    if s != [] && s[0] == BOM then
      var r := TrimStartBom(s[1..]);
      TrimStartBomStep(s, r);
      r
    else s
  }

  lemma TrimStartBomStep(s: Text, r: Text)
    requires s != [] && s[0] == BOM
    requires |r| <= |s| - 1 && r == s[1..][|s| - 1 - |r|..]
    requires forall k | 0 <= k < |s| - 1 - |r| :: s[1..][k] == BOM
    ensures r == s[|s| - |r|..]
    ensures forall k | 0 <= k < |s| - |r| :: s[k] == BOM
  {
    forall k | 0 < k < |s| - |r|
      ensures s[k] == BOM
    {
      assert s[k] == s[1..][k - 1];
    }
  }

  /** `replace('\\', "/")`. */
  function ReplaceBackslash(s: Text): (r: Text)
    ensures |r| == |s|
    ensures forall k | 0 <= k < |s| :: r[k] == if s[k] == '\\' then '/' else s[k]
  {
    if s == [] then [] else [if s[0] == '\\' then '/' else s[0]] + ReplaceBackslash(s[1..])
  }

  // ---------------------------------------------------------------------
  // Lines
  // ---------------------------------------------------------------------

  /** The position of the first `c` in `s`. */
  function IndexOf(s: Text, c: char): (i: nat)
    requires c in s
    ensures i < |s| && s[i] == c && c !in s[..i]
  {
    if s[0] == c then 0 else 1 + IndexOf(s[1..], c)
  }

  /** `split('\n')`: the pieces between newlines, at least one. */
  function SplitNewlines(s: Text): (r: seq<Text>)
    ensures |r| >= 1
    ensures forall k | 0 <= k < |r| :: '\n' !in r[k]
    decreases |s|
  {
    if '\n' !in s then [s]
    else
      var i := IndexOf(s, '\n');
      [s[..i]] + SplitNewlines(s[i + 1..])
  }

  /** A line ended by `\r\n` loses its `\r`. */
  function StripCr(line: Text): (r: Text)
    ensures r <= line
  {
    if line != [] && line[|line| - 1] == '\r' then line[..|line| - 1] else line
  }

  /** The pieces before the last one, each ended by a newline. */
  function EndedLines(parts: seq<Text>): (r: seq<Text>)
    requires parts != []
    ensures |r| == |parts| - 1
    ensures forall k | 0 <= k < |r| :: r[k] == StripCr(parts[k])
  {
    if |parts| == 1 then [] else [StripCr(parts[0])] + EndedLines(parts[1..])
  }

  /**
   * `str::lines`: the text split at `\n` or `\r\n`; the final line ending is
   * optional, so a text that ends with one has no empty last line, and the
   * empty text has no line at all.
   */
  function Lines(text: Text): seq<Text>
  {
    var parts := SplitNewlines(text);
    var last := parts[|parts| - 1];
    if last == [] then EndedLines(parts) else EndedLines(parts) + [last]
  }

  /** No line holds a newline. */
  lemma LinesHaveNoNewline(text: Text)
    ensures forall k | 0 <= k < |Lines(text)| :: '\n' !in Lines(text)[k]
  {
    var parts := SplitNewlines(text);
    var ended := EndedLines(parts);
    forall k | 0 <= k < |ended| ensures '\n' !in ended[k] {
      NoCharInPrefix(ended[k], parts[k], '\n');
    }
  }

  lemma NoCharInPrefix(a: Text, b: Text, c: char)
    requires a <= b && c !in b
    ensures c !in a
  {
  }

  /** One line of the manifest: trimmed, stripped of byte order marks, with `/` separators; blank lines vanish. */
  function NormalizeLine(line: Text): Option<Text>
  {
    var t := TrimStartBom(Trim(line));
    if t == [] then None else Some(ReplaceBackslash(t))
  }

  function NormalizeAll(lines: seq<Text>): seq<Text>
  {
    if lines == [] then []
    else
      match NormalizeLine(lines[0])
      case None => NormalizeAll(lines[1..])
      case Some(p) => [p] + NormalizeAll(lines[1..])
  }

  /** `normalize_manifest_lines`: the manifest's non-blank lines in order, each normalized. */
  function NormalizeManifestLines(text: Text): seq<Text>
  {
    NormalizeAll(Lines(text))
  }

  /** What normalization guarantees of every path it returns. */
  predicate Clean(p: Text)
  {
    p != [] && '\n' !in p && '\\' !in p && !IsWhitespace(p[|p| - 1]) && p[0] != BOM
  }

  /**
   * No manifest path is empty, none holds a newline or a backslash, none ends
   * in whitespace and none starts with a byte order mark.
   */
  lemma NormalizeManifestLinesClean(text: Text)
    ensures forall k | 0 <= k < |NormalizeManifestLines(text)| :: Clean(NormalizeManifestLines(text)[k])
  {
    LinesHaveNoNewline(text);
    NormalizeAllClean(Lines(text));
  }

  lemma {:induction false} NormalizeAllClean(lines: seq<Text>)
    requires forall k | 0 <= k < |lines| :: '\n' !in lines[k]
    ensures forall k | 0 <= k < |NormalizeAll(lines)| :: Clean(NormalizeAll(lines)[k])
  {
    if lines != [] {
      NormalizeAllClean(lines[1..]);
      match NormalizeLine(lines[0])
      case None =>
      case Some(p) =>
        NormalizeLineClean(lines[0]);
        var rest := NormalizeAll(lines[1..]);
        assert NormalizeAll(lines) == [p] + rest;
    }
  }

  /** A normalized line is a piece of the original line with `/` for `\\`, ending in its last non-blank character. */
  lemma NormalizeLineClean(line: Text)
    requires '\n' !in line
    requires NormalizeLine(line).Some?
    ensures Clean(NormalizeLine(line).value)
  {
    var t := TrimStartBom(Trim(line));
    TrimmedLine(line);
    ReplaceClean(t);
  }

  /**
   * A normalized line is `Normalized`, and so left alone by a second
   * normalization, exactly when it does not start with whitespace; and it can
   * start with whitespace only when the trimmed line started with a byte order
   * mark, since `trim` does not count U+FEFF as whitespace.
   */
  lemma NormalizeLineStart(line: Text)
    requires '\n' !in line
    requires NormalizeLine(line).Some?
    ensures Normalized(NormalizeLine(line).value) <==> !IsWhitespace(NormalizeLine(line).value[0])
    ensures IsWhitespace(NormalizeLine(line).value[0]) ==> Trim(line)[0] == BOM
  {
    var a := TrimStart(line);
    var b := TrimEnd(a);
    var t := TrimStartBom(b);
    var p := ReplaceBackslash(t);
    NormalizeLineClean(line);
    assert p[0] == '/' || p[0] == t[0];
    if |t| == |b| {
      assert t == b;
      assert b[0] == a[0];
    } else {
      assert b[0] == BOM;
    }
  }

  /**
   * A byte order mark, a space and `a` normalize to ` a`, which normalizes
   * again to `a`: normalization is not idempotent on such lines.
   */
  lemma BomThenSpace()
    ensures NormalizeLine([BOM, ' ', 'a']) == Some([' ', 'a'])
    ensures NormalizeLine([' ', 'a']) == Some(['a'])
  {
    var line: Text := [BOM, ' ', 'a'];
    var rest: Text := [' ', 'a'];
    var last: Text := ['a'];
    assert !IsWhitespace(BOM) && IsWhitespace(' ') && !IsWhitespace('a');
    assert line[1..] == rest && rest[1..] == last && rest[..|rest| - 1] == [' '];
    assert Trim(line) == line by {
      assert TrimStart(line) == line;
      assert TrimEnd(line) == line;
    }
    assert TrimStartBom(line) == rest by {
      assert TrimStartBom(rest) == rest;
    }
    ReplaceNoBackslash(rest);
    assert Trim(rest) == last by {
      assert TrimStart(last) == last;
      assert TrimStart(rest) == last;
      assert TrimEnd(last) == last;
    }
    assert TrimStartBom(last) == last;
    ReplaceNoBackslash(last);
  }

  lemma ReplaceNoBackslash(t: Text)
    requires '\\' !in t
    ensures ReplaceBackslash(t) == t
  {
  }

  /** No newline anywhere, and no whitespace at the end. */
  predicate TrimmedText(t: Text)
  {
    '\n' !in t && (t == [] || !IsWhitespace(t[|t| - 1]))
  }

  /**
   * Trimming keeps a line free of newlines and leaves no whitespace at its end
   * and no byte order mark at its start.
   */
  lemma TrimmedLine(line: Text)
    requires '\n' !in line
    ensures TrimmedText(TrimStartBom(Trim(line)))
    ensures TrimStartBom(Trim(line)) == [] || TrimStartBom(Trim(line))[0] != BOM
  {
    var a := TrimStart(line);
    NoCharInSuffix(a, line, '\n');
    TrimEndKeeps(a);
    TrimmedBom(TrimEnd(a));
  }

  lemma TrimEndKeeps(a: Text)
    requires '\n' !in a
    ensures TrimmedText(TrimEnd(a))
  {
    NoCharInPrefix(TrimEnd(a), a, '\n');
  }

  lemma TrimmedBom(b: Text)
    requires TrimmedText(b)
    ensures TrimmedText(TrimStartBom(b))
  {
    var t := TrimStartBom(b);
    NoCharInSuffix(t, b, '\n');
    if t != [] {
      assert t[|t| - 1] == b[|b| - 1];
    }
  }

  lemma ReplaceClean(t: Text)
    requires t != [] && TrimmedText(t) && t[0] != BOM
    ensures Clean(ReplaceBackslash(t))
  {
    var p := ReplaceBackslash(t);
    var n := |t| - 1;
    assert p[n] == '/' || p[n] == t[n];
    assert p[0] == '/' || p[0] == t[0];
    assert '\n' !in p by {
      forall k | 0 <= k < |p|
        ensures p[k] != '\n'
      {
        assert p[k] == '/' || p[k] == t[k];
      }
    }
  }

  lemma NoCharInSuffix(a: Text, b: Text, c: char)
    requires |a| <= |b| && a == b[|b| - |a|..] && c !in b
    ensures c !in a
  {
  }

  /** A path as the normalization produces it and leaves it. */
  predicate Normalized(p: Text)
  {
    && p != [] && '\n' !in p && '\\' !in p
    && !IsWhitespace(p[0]) && !IsWhitespace(p[|p| - 1]) && p[0] != BOM
  }

  lemma NormalizeLineOfNormalized(p: Text)
    requires Normalized(p)
    ensures NormalizeLine(p) == Some(p)
  {
    assert TrimStart(p) == p;
    assert TrimEnd(p) == p;
    assert TrimStartBom(p) == p;
    assert ReplaceBackslash(p) == p;
  }

  // ---------------------------------------------------------------------
  // Writing a path list
  // ---------------------------------------------------------------------

  /** The paths joined with `\n`, with no newline after the last one. */
  function JoinLines(paths: seq<Text>): Text
  {
    if paths == [] then []
    else if |paths| == 1 then paths[0]
    else paths[0] + ['\n'] + JoinLines(paths[1..])
  }

  /** The text written after the first `i` paths: those paths, and a newline if more follow. */
  function WrittenPrefix(paths: seq<Text>, i: nat): Text
    requires i <= |paths|
  {
    if i == 0 then [] else JoinLines(paths[..i]) + (if i < |paths| then ['\n'] else [])
  }

  lemma {:induction false} JoinLinesSnoc(paths: seq<Text>, p: Text)
    ensures JoinLines(paths + [p]) == if paths == [] then p else JoinLines(paths) + ['\n'] + p
    decreases |paths|
  {
    if |paths| == 1 {
      assert (paths + [p])[1..] == [p];
    } else if |paths| > 1 {
      assert (paths + [p])[1..] == paths[1..] + [p];
      JoinLinesSnoc(paths[1..], p);
    }
  }

  lemma WrittenPrefixStep(paths: seq<Text>, i: nat)
    requires i < |paths|
    ensures WrittenPrefix(paths, i + 1) == WrittenPrefix(paths, i) + paths[i] + (if i < |paths| - 1 then ['\n'] else [])
  {
    assert paths[..i + 1] == paths[..i] + [paths[i]];
    JoinLinesSnoc(paths[..i], paths[i]);
  }

  /**
   * `manifest_bytes_from_paths`: appends each path and, after every path but
   * the last, a newline.
   */
  method ManifestBytesFromPaths(paths: seq<Text>) returns (text: Text)
    ensures text == JoinLines(paths)
  {
    text := [];
    for i := 0 to |paths|
      invariant text == WrittenPrefix(paths, i)
    {
      WrittenPrefixStep(paths, i);
      text := text + paths[i];
      if i < |paths| - 1 {
        text := text + ['\n'];
      }
    }
    assert paths[..|paths|] == paths;
  }

  /** A written text ends with its last path: when that is non-empty there is no trailing newline. */
  lemma {:induction false} JoinLinesEnds(paths: seq<Text>)
    requires paths != []
    ensures var t, p := JoinLines(paths), paths[|paths| - 1]; |p| <= |t| && t[|t| - |p|..] == p
  {
    if |paths| > 1 {
      JoinLinesEnds(paths[1..]);
    }
  }

  lemma JoinLinesCons(p: Text, rest: seq<Text>)
    requires rest != []
    ensures JoinLines([p] + rest) == p + ['\n'] + JoinLines(rest)
  {
    assert ([p] + rest)[1..] == rest;
  }

  lemma {:induction false} IndexOfPrefix(p: Text, rest: Text)
    requires '\n' !in p
    ensures '\n' in p + ['\n'] + rest && IndexOf(p + ['\n'] + rest, '\n') == |p|
    decreases |p|
  {
    var t := p + ['\n'] + rest;
    assert t[|p|] == '\n';
    if p != [] {
      assert t[1..] == p[1..] + ['\n'] + rest;
      IndexOfPrefix(p[1..], rest);
    }
  }

  lemma SplitNewlinesCons(p: Text, rest: Text)
    requires '\n' !in p
    ensures SplitNewlines(p + ['\n'] + rest) == [p] + SplitNewlines(rest)
  {
    var t := p + ['\n'] + rest;
    IndexOfPrefix(p, rest);
    assert t[..|p|] == p;
    assert t[|p| + 1..] == rest;
  }

  /** Splitting a written text at its newlines gives back the paths. */
  lemma {:induction false} SplitJoin(paths: seq<Text>)
    requires paths != []
    requires forall k | 0 <= k < |paths| :: '\n' !in paths[k]
    ensures SplitNewlines(JoinLines(paths)) == paths
    decreases |paths|
  {
    if |paths| > 1 {
      var p, rest := paths[0], paths[1..];
      assert paths == [p] + rest;
      JoinLinesCons(p, rest);
      SplitNewlinesCons(p, JoinLines(rest));
      SplitJoin(rest);
    }
  }

  lemma {:induction false} EndedLinesUnchanged(parts: seq<Text>)
    requires parts != []
    requires forall k | 0 <= k < |parts| - 1 :: parts[k] == [] || parts[k][|parts[k]| - 1] != '\r'
    ensures EndedLines(parts) == parts[..|parts| - 1]
  {
  }

  /** A path that `lines` gives back unchanged when it stands on a line of its own. */
  predicate OneLine(p: Text)
  {
    p != [] && '\n' !in p && p[|p| - 1] != '\r'
  }

  lemma LinesOfParts(text: Text, parts: seq<Text>)
    requires SplitNewlines(text) == parts
    requires EndedLines(parts) == parts[..|parts| - 1] && parts[|parts| - 1] != []
    ensures Lines(text) == parts
  {
    assert parts[..|parts| - 1] + [parts[|parts| - 1]] == parts;
  }

  /**
   * `lines` undoes `manifest_bytes_from_paths` for non-empty paths without
   * newlines that do not end in `\r`.
   */
  lemma LinesJoin(paths: seq<Text>)
    requires forall k | 0 <= k < |paths| :: OneLine(paths[k])
    ensures Lines(JoinLines(paths)) == paths
  {
    if paths != [] {
      var n := |paths| - 1;
      var t := JoinLines(paths);
      assert SplitNewlines(t) == paths by {
        SplitJoin(paths);
      }
      assert EndedLines(paths) == paths[..n] by {
        EndedLinesUnchanged(paths);
      }
      assert paths[n] != [];
      LinesOfParts(t, paths);
    }
  }

  lemma {:induction false} NormalizeAllOfNormalized(paths: seq<Text>)
    requires forall k | 0 <= k < |paths| :: Normalized(paths[k])
    ensures NormalizeAll(paths) == paths
  {
    if paths != [] {
      var p, rest := paths[0], paths[1..];
      assert paths == [p] + rest;
      NormalizeAllOfNormalized(rest);
      NormalizeAllCons(p, rest);
    }
  }

  lemma NormalizeAllCons(p: Text, rest: seq<Text>)
    requires Normalized(p)
    ensures NormalizeAll([p] + rest) == [p] + NormalizeAll(rest)
  {
    NormalizeLineOfNormalized(p);
    assert ([p] + rest)[0] == p && ([p] + rest)[1..] == rest;
  }

  /**
   * Reading back what `manifest_bytes_from_paths` wrote gives the same path
   * list, for paths of the kind normalization produces.
   */
  lemma NormalizeJoin(paths: seq<Text>)
    requires forall k | 0 <= k < |paths| :: Normalized(paths[k])
    ensures NormalizeManifestLines(JoinLines(paths)) == paths
  {
    LinesJoin(paths);
    NormalizeAllOfNormalized(paths);
  }
}
