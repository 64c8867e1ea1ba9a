/**
 * `resolve_file_order` of src/psarc.rs: which files go into a packed archive
 * and in what order. When the folder holds a usable manifest, its paths give
 * the order; a path that names no discovered file is an error; otherwise the
 * discovered files are sorted by name hash and a manifest is written for them.
 */
module FileOrder {
  import opened Wrappers
  import opened PsarcToc
  import opened Manifest
  import NameHash

  /** A discovered file: its path on disk and its path inside the archive. */
  datatype FileItem = FileItem(disk: Text, name: Text)

  /** The chosen files in archive order, and the manifest text for them. */
  datatype Resolved = Resolved(files: seq<FileItem>, manifest: Text)

  function Names(files: seq<FileItem>): (r: seq<Text>)
    ensures |r| == |files| && forall k | 0 <= k < |files| :: r[k] == files[k].name
  {
    if files == [] then [] else [files[0].name] + Names(files[1..])
  }

  function NameSet(files: seq<FileItem>): set<Text>
  {
    set k | 0 <= k < |files| :: files[k].name
  }

  function PathSet(paths: seq<Text>): set<Text>
  {
    set k | 0 <= k < |paths| :: paths[k]
  }

  predicate NoDuplicates(paths: seq<Text>)
  {
    forall i, j | 0 <= i < j < |paths| :: paths[i] != paths[j]
  }

  // ---------------------------------------------------------------------
  // The path map
  // ---------------------------------------------------------------------

  /** File `k` is the last one carrying its archive path. */
  predicate LastOfName(files: seq<FileItem>, k: nat)
    requires k < |files|
  {
    forall j | k < j < |files| :: files[j].name != files[k].name
  }

  /** The archive path to disk path map that `collect` builds: later files overwrite earlier ones. */
  function PathMap(files: seq<FileItem>): map<Text, Text>
  {
    if files == [] then map[]
    else PathMap(files[..|files| - 1])[files[|files| - 1].name := files[|files| - 1].disk]
  }

  /** The map has one key per distinct archive path. */
  lemma {:induction false} PathMapKeys(files: seq<FileItem>)
    ensures PathMap(files).Keys == NameSet(files)
  {
    if files != [] {
      var init, f := files[..|files| - 1], files[|files| - 1];
      PathMapKeys(init);
      assert NameSet(files) == NameSet(init) + {f.name} by {
        assert forall k | 0 <= k < |init| :: files[k] == init[k];
      }
    }
  }

  /** Each archive path maps to the last file that carries it. */
  lemma {:induction false} PathMapLast(files: seq<FileItem>, k: nat)
    requires k < |files| && LastOfName(files, k)
    ensures files[k].name in PathMap(files) && PathMap(files)[files[k].name] == files[k].disk
  {
    var init, f := files[..|files| - 1], files[|files| - 1];
    if k < |init| {
      assert files[k] == init[k];
      assert LastOfName(init, k) by {
        assert forall j | k < j < |init| :: init[j] == files[j];
      }
      assert files[k].name != f.name;
      PathMapLast(init, k);
    }
  }

  // ---------------------------------------------------------------------
  // The walk over the manifest
  // ---------------------------------------------------------------------

  /** What the loop over the manifest paths has built: found files, missing paths, unclaimed map. */
  datatype WalkState = WalkState(ordered: seq<FileItem>, missing: seq<Text>, rest: map<Text, Text>)

  /** The loop after the given manifest paths: a found path is taken out of the map, a missing one is recorded. */
  function Walk(paths: seq<Text>, m: map<Text, Text>): WalkState
  {
    if paths == [] then WalkState([], [], m)
    else
      var w := Walk(paths[..|paths| - 1], m);
      var p := paths[|paths| - 1];
      if p in w.rest then WalkState(w.ordered + [FileItem(w.rest[p], p)], w.missing, w.rest - {p})
      else WalkState(w.ordered, w.missing + [p], w.rest)
  }

  /** The unclaimed map is the initial one without the manifest's paths. */
  lemma {:induction false} WalkRest(paths: seq<Text>, m: map<Text, Text>)
    ensures Walk(paths, m).rest.Keys == m.Keys - PathSet(paths)
    ensures forall p | p in Walk(paths, m).rest :: Walk(paths, m).rest[p] == m[p]
  {
    if paths != [] {
      var init := paths[..|paths| - 1];
      WalkRest(init, m);
      assert PathSet(paths) == PathSet(init) + {paths[|paths| - 1]} by {
        assert forall k | 0 <= k < |init| :: paths[k] == init[k];
      }
    }
  }

  /** Nothing is missing exactly when every manifest path is distinct and names a discovered file. */
  lemma {:induction false} WalkNoMissing(paths: seq<Text>, m: map<Text, Text>)
    ensures Walk(paths, m).missing == [] <==> NoDuplicates(paths) && PathSet(paths) <= m.Keys
  {
    if paths != [] {
      var init, p := paths[..|paths| - 1], paths[|paths| - 1];
      WalkNoMissing(init, m);
      WalkRest(init, m);
      assert PathSet(paths) == PathSet(init) + {p} by {
        assert forall k | 0 <= k < |init| :: paths[k] == init[k];
      }
      if NoDuplicates(paths) {
        assert NoDuplicates(init) by {
          assert forall k | 0 <= k < |init| :: paths[k] == init[k];
        }
        assert p !in PathSet(init);
      }
      if NoDuplicates(init) && p !in PathSet(init) {
        assert NoDuplicates(paths);
      }
    }
  }

  /** With nothing missing, the found files follow the manifest, each with the disk path the map held. */
  lemma {:induction false} WalkOrdered(paths: seq<Text>, m: map<Text, Text>)
    requires Walk(paths, m).missing == []
    ensures PathSet(paths) <= m.Keys
    ensures var o := Walk(paths, m).ordered;
            |o| == |paths| && forall k | 0 <= k < |paths| :: o[k] == FileItem(m[paths[k]], paths[k])
  {
    WalkNoMissing(paths, m);
    if paths != [] {
      var init, p := paths[..|paths| - 1], paths[|paths| - 1];
      assert Walk(init, m).missing == [];
      WalkOrdered(init, m);
      WalkRest(init, m);
    }
  }

  // ---------------------------------------------------------------------
  // The fallback: sorting by name hash
  // ---------------------------------------------------------------------

  function Key(md5: Text -> Hash, f: FileItem): Hash
  {
    NameHash.CalculateMd5(md5, f.name)
  }

  /** Places `x` before the first file whose hash is not smaller, so equal hashes keep their order. */
  function Insert(md5: Text -> Hash, x: FileItem, ys: seq<FileItem>): (r: seq<FileItem>)
    ensures |r| == |ys| + 1
    ensures r[0] == x || (ys != [] && r[0] == ys[0])
    ensures multiset(r) == multiset(ys) + multiset{x}
  {
    if ys == [] || NameHash.LexLe(Key(md5, x), Key(md5, ys[0])) then [x] + ys
    else
      assert ys == [ys[0]] + ys[1..];
      [ys[0]] + Insert(md5, x, ys[1..])
  }

  /** `files.sort_by(md5 order)`: a stable sort by name hash. */
  function SortByHash(md5: Text -> Hash, files: seq<FileItem>): (r: seq<FileItem>)
    ensures multiset(r) == multiset(files)
  {
    if files == [] then []
    else
      assert files == [files[0]] + files[1..];
      Insert(md5, files[0], SortByHash(md5, files[1..]))
  }

  predicate SortedByHash(md5: Text -> Hash, s: seq<FileItem>)
  {
    forall i | 0 <= i < |s| - 1 :: NameHash.LexLe(Key(md5, s[i]), Key(md5, s[i + 1]))
  }

  lemma {:induction false} InsertSorted(md5: Text -> Hash, x: FileItem, ys: seq<FileItem>)
    requires SortedByHash(md5, ys)
    ensures SortedByHash(md5, Insert(md5, x, ys))
  {
    if ys != [] && !NameHash.LexLe(Key(md5, x), Key(md5, ys[0])) {
      NameHash.LexLeTotal(Key(md5, x), Key(md5, ys[0]));
      InsertSorted(md5, x, ys[1..]);
      var t := Insert(md5, x, ys[1..]);
      var r := [ys[0]] + t;
      assert r == Insert(md5, x, ys);
      forall i | 0 <= i < |r| - 1
        ensures NameHash.LexLe(Key(md5, r[i]), Key(md5, r[i + 1]))
      {
        if i > 0 {
          assert r[i] == t[i - 1] && r[i + 1] == t[i];
        }
      }
    }
  }

  /** The fallback order is ascending by name hash. */
  lemma {:induction false} SortByHashSorted(md5: Text -> Hash, files: seq<FileItem>)
    ensures SortedByHash(md5, SortByHash(md5, files))
  {
    if files != [] {
      SortByHashSorted(md5, files[1..]);
      InsertSorted(md5, files[0], SortByHash(md5, files[1..]));
    }
  }

  /** Ascending neighbour by neighbour means ascending for every pair. */
  lemma {:induction false} SortedPairwise(md5: Text -> Hash, s: seq<FileItem>, i: nat, j: nat)
    requires SortedByHash(md5, s)
    requires i <= j < |s|
    ensures NameHash.LexLe(Key(md5, s[i]), Key(md5, s[j]))
    decreases j - i
  {
    if i == j {
      NameHash.LexLeTotal(Key(md5, s[i]), Key(md5, s[j]));
    } else {
      SortedPairwise(md5, s, i + 1, j);
      NameHash.LexLeTransitive(Key(md5, s[i]), Key(md5, s[i + 1]), Key(md5, s[j]));
    }
  }

  /** The files whose name hash is `h`, in their order. */
  function WithKey(md5: Text -> Hash, s: seq<FileItem>, h: Hash): seq<FileItem>
  {
    if s == [] then []
    else (if Key(md5, s[0]) == h then [s[0]] else []) + WithKey(md5, s[1..], h)
  }

  /** Insertion passes only files with a different hash, so among equal hashes `x` goes first. */
  lemma {:induction false} InsertWithKey(md5: Text -> Hash, x: FileItem, ys: seq<FileItem>, h: Hash)
    ensures WithKey(md5, Insert(md5, x, ys), h)
         == (if Key(md5, x) == h then [x] else []) + WithKey(md5, ys, h)
  {
    if ys == [] || NameHash.LexLe(Key(md5, x), Key(md5, ys[0])) {
      assert ([x] + ys)[1..] == ys;
    } else {
      NameHash.LexLeTotal(Key(md5, x), Key(md5, x));
      assert Key(md5, ys[0]) != Key(md5, x);
      InsertWithKey(md5, x, ys[1..], h);
      assert ([ys[0]] + Insert(md5, x, ys[1..]))[1..] == Insert(md5, x, ys[1..]);
    }
  }

  /**
   * The sort is stable: files with the same name hash (paths that differ only
   * in ASCII case, say) keep the order in which they were discovered.
   */
  lemma {:induction false} SortByHashStable(md5: Text -> Hash, files: seq<FileItem>, h: Hash)
    ensures WithKey(md5, SortByHash(md5, files), h) == WithKey(md5, files, h)
  {
    if files != [] {
      SortByHashStable(md5, files[1..], h);
      InsertWithKey(md5, files[0], SortByHash(md5, files[1..]), h);
    }
  }

  // ---------------------------------------------------------------------
  // resolve_file_order
  // ---------------------------------------------------------------------

  /** The sorted files and the manifest text listing their archive paths. */
  function Fallback(md5: Text -> Hash, files: seq<FileItem>): Result<Resolved, IoError>
  {
    var sorted := SortByHash(md5, files);
    Ok(Resolved(sorted, JoinLines(Names(sorted))))
  }

  /**
   * The outcome of `resolve_file_order`. `manifestText` is the manifest read
   * from the folder, `None` when there is none or it is not valid UTF-8.
   */
  function ResolveSpec(files: seq<FileItem>, manifestText: Option<Text>, md5: Text -> Hash): Result<Resolved, IoError>
  {
    if manifestText.None? || NormalizeManifestLines(manifestText.value) == [] then Fallback(md5, files)
    else
      var paths := NormalizeManifestLines(manifestText.value);
      var w := Walk(paths, PathMap(files));
      if w.missing == [] && w.rest == map[] then Ok(Resolved(w.ordered, JoinLines(paths)))
      else if w.missing != [] then Err(NotFound)
      else Fallback(md5, files)
  }

  /** The loop over the manifest paths. */
  method WalkManifest(paths: seq<Text>, m: map<Text, Text>) returns (w: WalkState)
    ensures w == Walk(paths, m)
  {
    var pathMap := m;
    var ordered: seq<FileItem> := [];
    var missing: seq<Text> := [];
    for i := 0 to |paths|
      invariant Walk(paths[..i], m) == WalkState(ordered, missing, pathMap)
    {
      assert paths[..i + 1][..i] == paths[..i];
      var path := paths[i];
      if path in pathMap {
        ordered := ordered + [FileItem(pathMap[path], path)];
        pathMap := pathMap - {path};
      } else {
        missing := missing + [path];
      }
    }
    assert paths[..|paths|] == paths;
    w := WalkState(ordered, missing, pathMap);
  }

  /**
   * `resolve_file_order`: walks the manifest paths, taking each found one out
   * of the path map, then decides between manifest order, an error and the
   * hash-sorted fallback.
   */
  method ResolveFileOrder(discovered: seq<FileItem>, manifestText: Option<Text>, md5: Text -> Hash)
    returns (r: Result<Resolved, IoError>)
    ensures r == ResolveSpec(discovered, manifestText, md5)
  {
    if manifestText.Some? {
      var paths := NormalizeManifestLines(manifestText.value);
      if paths != [] {
        var w := WalkManifest(paths, PathMap(discovered));
        if w.missing == [] && w.rest == map[] {
          var bytes := ManifestBytesFromPaths(paths);
          return Ok(Resolved(w.ordered, bytes));
        }
        if w.missing != [] {
          return Err(NotFound);
        }
      }
    }
    var files := SortByHash(md5, discovered);
    var content := ManifestBytesFromPaths(Names(files));
    return Ok(Resolved(files, content));
  }

  /** There is a manifest and it lists at least one path. */
  predicate HasManifest(manifestText: Option<Text>)
  {
    manifestText.Some? && NormalizeManifestLines(manifestText.value) != []
  }

  /** Every manifest path is distinct and names a discovered file. */
  predicate AllFound(files: seq<FileItem>, manifestText: Option<Text>)
    requires HasManifest(manifestText)
  {
    var paths := NormalizeManifestLines(manifestText.value);
    NoDuplicates(paths) && PathSet(paths) <= NameSet(files)
  }

  /**
   * When the manifest lists every discovered archive path exactly once and
   * nothing else, the files come in manifest order and the manifest is
   * rewritten in normalized form.
   */
  lemma {:induction false} ResolveManifestOrder(files: seq<FileItem>, text: Text, md5: Text -> Hash)
    requires NormalizeManifestLines(text) != []
    requires NoDuplicates(NormalizeManifestLines(text)) && PathSet(NormalizeManifestLines(text)) == NameSet(files)
    ensures ResolveSpec(files, Some(text), md5).Ok?
    ensures ResolveSpec(files, Some(text), md5).value.manifest == JoinLines(NormalizeManifestLines(text))
    ensures InManifestOrder(files, NormalizeManifestLines(text), ResolveSpec(files, Some(text), md5).value.files)
  {
    var paths := NormalizeManifestLines(text);
    var m := PathMap(files);
    PathMapKeys(files);
    WalkNoMissing(paths, m);
    WalkRest(paths, m);
    var w := Walk(paths, m);
    assert w.rest == map[] by {
      assert w.rest.Keys == {};
    }
    assert ResolveSpec(files, Some(text), md5) == Ok(Resolved(w.ordered, JoinLines(paths)));
    WalkOrdered(paths, m);
  }

  /** `ordered` lists the manifest paths in order, each with the disk path of the last file carrying it. */
  predicate InManifestOrder(files: seq<FileItem>, paths: seq<Text>, ordered: seq<FileItem>)
  {
    && |ordered| == |paths|
    && forall k | 0 <= k < |paths| :: paths[k] in PathMap(files) && ordered[k] == FileItem(PathMap(files)[paths[k]], paths[k])
  }

  /** The only error: the manifest names a path twice or a path no discovered file has. */
  lemma {:induction false} ResolveNotFound(files: seq<FileItem>, manifestText: Option<Text>, md5: Text -> Hash)
    ensures var r := ResolveSpec(files, manifestText, md5);
            r.Err? <==> HasManifest(manifestText) && !AllFound(files, manifestText)
    ensures var r := ResolveSpec(files, manifestText, md5); r.Err? ==> r.error == NotFound
  {
    if HasManifest(manifestText) {
      PathMapKeys(files);
      WalkNoMissing(NormalizeManifestLines(manifestText.value), PathMap(files));
    }
  }

  /**
   * Extra files beyond a complete manifest, or no usable manifest, lead to
   * the fallback: all discovered files, ascending by name hash, listed in a
   * fresh manifest.
   */
  lemma {:induction false} ResolveFallback(files: seq<FileItem>, manifestText: Option<Text>, md5: Text -> Hash)
    requires HasManifest(manifestText) ==>
               var paths := NormalizeManifestLines(manifestText.value);
               NoDuplicates(paths) && PathSet(paths) < NameSet(files)
    ensures var r := ResolveSpec(files, manifestText, md5);
            && r.Ok? && multiset(r.value.files) == multiset(files)
            && SortedByHash(md5, r.value.files)
            && r.value.manifest == JoinLines(Names(r.value.files))
  {
    assert ResolveSpec(files, manifestText, md5) == Fallback(md5, files) by {
      if HasManifest(manifestText) {
        var paths := NormalizeManifestLines(manifestText.value);
        var m := PathMap(files);
        PathMapKeys(files);
        WalkNoMissing(paths, m);
        WalkRest(paths, m);
        var x :| x in NameSet(files) - PathSet(paths);
        assert x in Walk(paths, m).rest;
      }
    }
    SortByHashSorted(md5, files);
  }
}
