/**
 * Path normalisation of the orphans task: the flat list of tree files
 * (`getAllFilesInTree`) and the normalised whitelist. Globbing itself is not
 * modelled: the already expanded path lists are inputs.
 */
module FileTree {
  import opened Wrappers
  import opened JsStrings

  /** One element of the grunt task's `this.files`; only its `src` list is read. */
  datatype FileEntry = FileEntry(src: seq<string>)

  /**
   * The string `options.baseDir` is searched for by `replace`. The option
   * defaults to null, and JavaScript converts a null pattern to the text "null".
   */
  function SearchString(baseDir: Option<string>): string {
    match baseDir
    case None => "null"
    case Some(dir) => dir
  }

  /** Number of paths over all entries. */
  function TotalSources(files: seq<FileEntry>): nat {
    if files == [] then 0 else |files[0].src| + TotalSources(files[1..])
  }

  /** Every path of `paths` with the first occurrence of `pattern` removed. */
  function ReplaceEach(paths: seq<string>, pattern: string): (r: seq<string>)
    ensures |r| == |paths|
    ensures forall i :: 0 <= i < |paths| ==> r[i] == ReplaceFirst(paths[i], pattern)
  {
    seq(|paths|, i requires 0 <= i < |paths| => ReplaceFirst(paths[i], pattern))
  }

  /** `getAllFilesInTree(files, baseDir)`: the `src` lists flattened in order, each path losing its first `baseDir`. */
  function AllFilesInTree(files: seq<FileEntry>, baseDir: Option<string>): (r: seq<string>)
    ensures |r| == TotalSources(files)
  {
    if files == [] then []
    else ReplaceEach(files[0].src, SearchString(baseDir)) + AllFilesInTree(files[1..], baseDir)
  }

  /** The flattening distributes over concatenation of the entry list. */
  lemma {:induction false} AllFilesInTreeConcat(a: seq<FileEntry>, b: seq<FileEntry>, baseDir: Option<string>)
    ensures AllFilesInTree(a + b, baseDir) == AllFilesInTree(a, baseDir) + AllFilesInTree(b, baseDir)
    decreases |a|
  {
    if a == [] {
      assert a + b == b;
    } else {
      assert (a + b)[1..] == a[1..] + b;
      AllFilesInTreeConcat(a[1..], b, baseDir);
    }
  }

  /** Every source path, normalised, is among the tree files; and every tree file comes from some source path. */
  lemma {:induction false} AllFilesInTreeMembers(files: seq<FileEntry>, baseDir: Option<string>)
    ensures forall i, j :: 0 <= i < |files| && 0 <= j < |files[i].src| ==>
              ReplaceFirst(files[i].src[j], SearchString(baseDir)) in AllFilesInTree(files, baseDir)
    ensures forall f :: f in AllFilesInTree(files, baseDir) ==>
              exists i, j :: 0 <= i < |files| && 0 <= j < |files[i].src| &&
                             f == ReplaceFirst(files[i].src[j], SearchString(baseDir))
    decreases |files|
  {
    if files != [] {
      var pattern := SearchString(baseDir);
      var head := ReplaceEach(files[0].src, pattern);
      var tail := AllFilesInTree(files[1..], baseDir);
      AllFilesInTreeMembers(files[1..], baseDir);
      forall i, j | 0 <= i < |files| && 0 <= j < |files[i].src|
        ensures ReplaceFirst(files[i].src[j], pattern) in AllFilesInTree(files, baseDir)
      {
        if i == 0 {
          assert head[j] == ReplaceFirst(files[i].src[j], pattern);
        } else {
          assert files[1..][i - 1] == files[i];
        }
      }
      forall f | f in AllFilesInTree(files, baseDir)
        ensures exists i, j :: 0 <= i < |files| && 0 <= j < |files[i].src| &&
                               f == ReplaceFirst(files[i].src[j], pattern)
      {
        if f in head {
          var j :| 0 <= j < |head| && head[j] == f;
          assert 0 <= j < |files[0].src| && f == ReplaceFirst(files[0].src[j], pattern);
        } else {
          assert f in tail;
          var i, j :| 0 <= i < |files[1..]| && 0 <= j < |files[1..][i].src| &&
                      f == ReplaceFirst(files[1..][i].src[j], pattern);
          assert files[1..][i] == files[i + 1];
        }
      }
    }
  }

  /** The module name of a path: `baseDir` removed, then the first character (the separator) dropped. */
  function ModuleName(path: string, baseDir: Option<string>): (r: string)
    ensures |path| > 0 ==> |r| < |path|
  {
    DropFirst(ReplaceFirst(path, SearchString(baseDir)))
  }

  /** The expanded whitelist, each path normalised like a tree file: first `baseDir` removed, then the first character. */
  function NormalizeWhitelist(expanded: seq<string>, baseDir: Option<string>): (r: seq<string>)
    ensures |r| == |expanded|
    ensures forall i :: 0 <= i < |expanded| ==> r[i] == ModuleName(expanded[i], baseDir)
  {
    seq(|expanded|, i requires 0 <= i < |expanded| => ModuleName(expanded[i], baseDir))
  }

  /** A path under `baseDir` followed by a separator gets the name of the rest of the path. */
  lemma ModuleNameUnderBaseDir(dir: string, sep: char, rest: string)
    ensures ModuleName(dir + [sep] + rest, Some(dir)) == rest
  {
    var path := dir + [sep] + rest;
    assert dir <= path;
    assert path[|dir|..] == [sep] + rest;
  }

  /**
   * Without `options.baseDir` the search is for the text "null": a path that
   * does not contain it only loses its first character, a path that starts
   * with it loses those four characters and the next one.
   */
  lemma NullBaseDirSearchesNullText(path: string)
    ensures (forall j: nat :: !OccursAt(path, "null", j)) ==> ModuleName(path, None) == DropFirst(path)
    ensures "null" <= path ==> ModuleName(path, None) == DropFirst(path[4..])
  {
  }

  /** With the default baseDir a relative path loses its own first letter. */
  lemma NullBaseDirDropsFirstLetter()
    ensures ModuleName("src/a.js", None) == "rc/a.js"
  {
    var path := "src/a.js";
    assert forall j :: 0 <= j < |path| ==> path[j] != 'n';
    forall j: nat | j + 4 <= |path| ensures !OccursAt(path, "null", j) {
      assert path[j..j + 4][0] == path[j];
    }
    NullBaseDirSearchesNullText(path);
    assert DropFirst(path) == "rc/a.js";
  }
}
