/**
 * `get_modified_files_for_arc` of src/ui/pack_confirm_modal.rs: from the set
 * of modified paths (relative to the game's root folder) it keeps those
 * inside one arc folder and makes them relative to it, with `/` as the only
 * separator, for the incremental packer.
 *
 * Paths are texts. The fallback branch walks `Path::components`, whose
 * behaviour depends on the platform: `/` is a separator everywhere, `\` only
 * on Windows (`windows`). The model of `components` covers the root
 * directory, a leading `.`, dropped `.` and empty components; Windows drive
 * prefixes are not modelled.
 */
module ArcPaths {
  import opened Wrappers
  import Manifest

  type Text = seq<char>

  // ---------------------------------------------------------------------
  // Path::components
  // ---------------------------------------------------------------------

  predicate IsSep(c: char, windows: bool)
  {
    c == '/' || (windows && c == '\\')
  }

  /** `std::path::MAIN_SEPARATOR`. */
  function MainSep(windows: bool): char
  {
    if windows then '\\' else '/'
  }

  predicate NoSep(s: Text, windows: bool)
  {
    forall k | 0 <= k < |s| :: !IsSep(s[k], windows)
  }

  /** The text between separators, the empty pieces included. */
  function Segments(s: Text, windows: bool): (r: seq<Text>)
    ensures |r| >= 1
  {
    if s == [] then [[]]
    else if IsSep(s[0], windows) then [[]] + Segments(s[1..], windows)
    else
      var rest := Segments(s[1..], windows);
      [[s[0]] + rest[0]] + rest[1..]
  }

  /** The pieces `components` yields as normal (or parent) components: no empty piece and no `.`. */
  function Normal(segs: seq<Text>): (r: seq<Text>)
    ensures |r| <= |segs|
    ensures forall k | 0 <= k < |r| :: r[k] != [] && r[k] != "."
  {
    if segs == [] then []
    else if segs[0] == [] || segs[0] == "." then Normal(segs[1..])
    else [segs[0]] + Normal(segs[1..])
  }

  /**
   * `path.components()`, each as its `as_os_str`: a root directory first
   * (shown as the main separator) when the path begins with a separator, a
   * leading `.` as the current directory; later `.` and empty pieces vanish.
   */
  function Components(path: Text, windows: bool): seq<Text>
  {
    var segs := Segments(path, windows);
    if path != [] && IsSep(path[0], windows) then [[MainSep(windows)]] + Normal(segs[1..])
    else if segs[0] == "." then ["."] + Normal(segs[1..])
    else Normal(segs)
  }

  /** `components.collect::<PathBuf>()` as a text: the components joined by the main separator. */
  function JoinPath(comps: seq<Text>, windows: bool): Text
  {
    if comps == [] then []
    else if |comps| == 1 then comps[0]
    else comps[0] + [MainSep(windows)] + JoinPath(comps[1..], windows)
  }

  // ---------------------------------------------------------------------
  // get_modified_files_for_arc
  // ---------------------------------------------------------------------

  /** What one modified path contributes to the result, if anything. */
  function Contribution(path: Text, arc: Text, windows: bool): (r: Option<Text>)
  {
    var prefix, prefixBackslash := arc + "/", arc + "\\";
    if prefix <= path then Some(Manifest.ReplaceBackslash(path[|prefix|..]))
    else if prefixBackslash <= path then Some(Manifest.ReplaceBackslash(path[|prefixBackslash|..]))
    else
      var comps := Components(path, windows);
      if comps != [] && comps[0] == arc then Some(Manifest.ReplaceBackslash(JoinPath(comps[1..], windows)))
      else None
  }

  /** The result set: every contribution of the paths. */
  function ArcFiles(paths: set<Text>, arc: Text, windows: bool): set<Text>
  {
    set p | p in paths && Contribution(p, arc, windows).Some? :: Contribution(p, arc, windows).value
  }

  /** `get_modified_files_for_arc`: one insertion per path, in the set's (unspecified) order. */
  method GetModifiedFilesForArc(modifiedFiles: set<Text>, arcFolderName: Text, windows: bool) returns (result: set<Text>)
    ensures result == ArcFiles(modifiedFiles, arcFolderName, windows)
  {
    result := {};
    var arcPrefix := arcFolderName + "/";
    var arcPrefixBackslash := arcFolderName + "\\";
    var todo := modifiedFiles;
    while todo != {}
      invariant todo <= modifiedFiles
      invariant result == ArcFiles(modifiedFiles - todo, arcFolderName, windows)
      decreases |todo|
    {
      var path :| path in todo;
      ArcFilesAdd(modifiedFiles - todo, path, arcFolderName, windows);
      if arcPrefix <= path || arcPrefixBackslash <= path {
        var relative := if arcPrefix <= path then path[|arcPrefix|..] else path[|arcPrefixBackslash|..];
        result := result + {Manifest.ReplaceBackslash(relative)};
      } else {
        var comps := Components(path, windows);
        if comps != [] && comps[0] == arcFolderName {
          result := result + {Manifest.ReplaceBackslash(JoinPath(comps[1..], windows))};
        }
      }
      assert modifiedFiles - (todo - {path}) == (modifiedFiles - todo) + {path};
      todo := todo - {path};
    }
    assert modifiedFiles - todo == modifiedFiles;
  }

  lemma ArcFilesAdd(paths: set<Text>, p: Text, arc: Text, windows: bool)
    ensures var c := Contribution(p, arc, windows);
            ArcFiles(paths + {p}, arc, windows) == ArcFiles(paths, arc, windows) + (if c.Some? then {c.value} else {})
  {
  }

  // ---------------------------------------------------------------------
  // Properties
  // ---------------------------------------------------------------------

  /** A path under `arc/` or `arc\` contributes its suffix, with `\` replaced by `/`. */
  lemma PrefixedContribution(arc: Text, rest: Text, windows: bool)
    ensures Contribution(arc + "/" + rest, arc, windows) == Some(Manifest.ReplaceBackslash(rest))
    ensures Contribution(arc + "\\" + rest, arc, windows) == Some(Manifest.ReplaceBackslash(rest))
  {
    assert (arc + "/" + rest)[|arc + "/"|..] == rest;
    assert (arc + "\\" + rest)[|arc + "\\"|..] == rest;
    assert !(arc + "/" <= arc + "\\" + rest) by {
      assert (arc + "\\" + rest)[|arc|] == '\\';
    }
  }

  /** No output contains a backslash. */
  lemma ArcFilesNoBackslash(paths: set<Text>, arc: Text, windows: bool)
    ensures forall r | r in ArcFiles(paths, arc, windows) :: '\\' !in r
  {
    forall r | r in ArcFiles(paths, arc, windows)
      ensures '\\' !in r
    {
      var p :| p in paths && Contribution(p, arc, windows).Some? && Contribution(p, arc, windows).value == r;
      var s :| r == Manifest.ReplaceBackslash(s) by {
        ContributionReplaced(p, arc, windows);
      }
      NoBackslashAfterReplace(s);
    }
  }

  lemma ContributionReplaced(path: Text, arc: Text, windows: bool)
    requires Contribution(path, arc, windows).Some?
    ensures exists s :: Contribution(path, arc, windows).value == Manifest.ReplaceBackslash(s)
  {
  }

  lemma NoBackslashAfterReplace(s: Text)
    ensures '\\' !in Manifest.ReplaceBackslash(s)
  {
    var r := Manifest.ReplaceBackslash(s);
    forall k | 0 <= k < |r|
      ensures r[k] != '\\'
    {
    }
  }

  /** The result has no more elements than the input: each path contributes at most one. */
  lemma {:induction false} ArcFilesSize(paths: set<Text>, arc: Text, windows: bool)
    ensures |ArcFiles(paths, arc, windows)| <= |paths|
    decreases |paths|
  {
    if paths != {} {
      var p :| p in paths;
      var rest := paths - {p};
      ArcFilesSize(rest, arc, windows);
      ArcFilesAdd(rest, p, arc, windows);
      assert rest + {p} == paths;
    }
  }

  /** A folder name fit to be a first component: non-empty, no separator, not `.`. */
  predicate FolderName(arc: Text, windows: bool)
  {
    arc != [] && arc != "." && NoSep(arc, windows)
  }

  /** The first segment of a path that begins with a separator-free text `a` then `c` starts with `a` then `c`, or is `a` when `c` is a separator. */
  lemma {:induction false} SegmentsFirst(a: Text, c: char, t: Text, windows: bool)
    requires NoSep(a, windows)
    ensures IsSep(c, windows) ==> Segments(a + [c] + t, windows)[0] == a
    ensures !IsSep(c, windows) ==> a + [c] <= Segments(a + [c] + t, windows)[0]
  {
    if a != [] {
      SegmentsFirst(a[1..], c, t, windows);
      assert (a + [c] + t)[1..] == a[1..] + [c] + t;
      assert a == [a[0]] + a[1..];
    }
  }

  lemma {:induction false} SegmentsWhole(a: Text, windows: bool)
    requires NoSep(a, windows)
    ensures Segments(a, windows) == [a]
  {
    if a != [] {
      SegmentsWhole(a[1..], windows);
      assert a == [a[0]] + a[1..];
    }
  }

  /** The first component of `arc` followed by a separator, or of `arc` alone, is `arc`. */
  lemma FirstComponentOfArc(arc: Text, c: char, t: Text, windows: bool)
    requires FolderName(arc, windows) && IsSep(c, windows)
    ensures Components(arc + [c] + t, windows) != [] && Components(arc + [c] + t, windows)[0] == arc
    ensures Components(arc, windows) == [arc]
  {
    SegmentsFirst(arc, c, t, windows);
    SegmentsWhole(arc, windows);
    assert (arc + [c] + t)[0] == arc[0];
  }

  /**
   * Matching is by whole folder name: a path that continues the folder name
   * with anything but `/` or `\` (`arc_1x/...` against `arc_1`) contributes
   * nothing.
   */
  lemma WholeFolderName(arc: Text, c: char, t: Text, windows: bool)
    requires FolderName(arc, windows) && c != '/' && c != '\\'
    ensures Contribution(arc + [c] + t, arc, windows) == None
  {
    var p := arc + [c] + t;
    assert !(arc + "/" <= p) by { assert p[|arc|] == c; }
    assert !(arc + "\\" <= p) by { assert p[|arc|] == c; }
    SegmentsFirst(arc, c, t, windows);
    var segs := Segments(p, windows);
    assert p[0] == arc[0];
    assert |segs[0]| > |arc|;
    assert segs[0] != [] && segs[0] != ".";
    var comps := Components(p, windows);
    assert comps == [segs[0]] + Normal(segs[1..]);
  }

  /**
   * On Windows a path contributes exactly when its first component is the
   * folder name; elsewhere `arc\...` also contributes, as the backslash
   * prefix test accepts it although `\` is not a separator there.
   */
  lemma ContributesIff(path: Text, arc: Text, windows: bool)
    requires FolderName(arc, windows)
    ensures var comps := Components(path, windows);
            Contribution(path, arc, windows).Some?
            <==> (comps != [] && comps[0] == arc) || (!windows && arc + "\\" <= path)
  {
    if arc + "/" <= path {
      var t := path[|arc| + 1..];
      assert path == arc + ['/'] + t;
      FirstComponentOfArc(arc, '/', t, windows);
    } else if windows && arc + "\\" <= path {
      var t := path[|arc| + 1..];
      assert path == arc + ['\\'] + t;
      FirstComponentOfArc(arc, '\\', t, windows);
    }
  }

  /** The folder itself, listed as a path, contributes the empty relative path. */
  lemma FolderItself(arc: Text, windows: bool)
    requires FolderName(arc, windows)
    ensures Contribution(arc, arc, windows) == Some([])
  {
    FirstComponentOfArc(arc, '/', [], windows);
    assert !(arc + "/" <= arc) && !(arc + "\\" <= arc);
  }
}
