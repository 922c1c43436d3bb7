/** `get_change_size`: hunks counted over the files of the reviewed source types. */
module Size {
  import opened Strings
  import opened Changes

  /** The file types whose hunks count (an inclusion list). */
  const SizedExtensions: seq<string> := ["py", "ts"]

  /** `path.split(".")[-1]`: the text after the last dot, or the whole path when it has none. */
  function Extension(path: string): (ext: string)
    ensures '.' !in ext
  {
    var parts := Split(path, '.');
    parts[|parts| - 1]
  }

  predicate IsSized(path: string)
  {
    Extension(path) in SizedExtensions
  }

  /** What one file adds to the change size. */
  function Contribution(f: FileChange): nat
  {
    if IsSized(f.path) then f.hunks else 0
  }

  function ChangeSize(d: Diff): (size: nat)
    ensures size <= TotalHunks(d)
  {
    if |d| == 0 then 0 else Contribution(d[0]) + ChangeSize(d[1..])
  }

  /** The loop of `get_change_size`, one file at a time. */
  method GetChangeSize(diff: Diff) returns (size: nat)
    ensures size == ChangeSize(diff)
    ensures size <= TotalHunks(diff)
  {
    size := 0;
    for i := 0 to |diff|
      invariant size == ChangeSize(diff[..i])
    {
      var parts := Split(diff[i].path, '.');
      if parts[|parts| - 1] in SizedExtensions {
        size := size + diff[i].hunks;
      }
      assert diff[..i + 1] == diff[..i] + [diff[i]];
      ChangeSizeAppend(diff[..i], [diff[i]]);
    }
    assert diff[..|diff|] == diff;
  }

  /** A path without a dot is its own extension. */
  lemma ExtensionWithoutDot(path: string)
    requires '.' !in path
    ensures Extension(path) == path
  {
    SplitWithoutSeparator(path, '.');
  }

  /** The extension is exactly what follows the last dot. */
  lemma ExtensionAfterLastDot(stem: string, ext: string)
    requires '.' !in ext
    ensures Extension(stem + "." + ext) == ext
  {
    SplitAtSeparator(stem, ext, '.');
    SplitWithoutSeparator(ext, '.');
  }

  /** The extension as a suffix: everything after the last dot (`path.rfind(".")`). */
  lemma ExtensionIsTextAfterLastDot(path: string)
    ensures Extension(path) == path[LastIndexOf(path, '.') + 1..]
  {
    var k := LastIndexOf(path, '.');
    NoneAfterLastIndex(path, '.');
    if k == -1 {
      assert path[k + 1..] == path;
      ExtensionWithoutDot(path);
    } else {
      assert path == path[..k] + "." + path[k + 1..];
      ExtensionAfterLastDot(path[..k], path[k + 1..]);
    }
  }

  /** A path ending in `.` + `ext`, with `ext` dot-free, has extension `ext`. */
  lemma ExtensionOfSuffix(path: string, ext: string)
    requires '.' !in ext
    requires |path| > |ext| && path[|path| - |ext| - 1..] == "." + ext
    ensures Extension(path) == ext
  {
    var n := |path| - |ext| - 1;
    assert path == path[..n] + "." + ext;
    ExtensionAfterLastDot(path[..n], ext);
  }

  /** Which paths count: `py` or `ts` as a whole dotless path, or a path ending in `.py` or `.ts`. */
  lemma SizedPaths(path: string)
    ensures IsSized(path) <==>
      || path == "py" || path == "ts"
      || (|path| >= 3 && (path[|path| - 3..] == ".py" || path[|path| - 3..] == ".ts"))
  {
    if |path| >= 3 && path[|path| - 3..] == ".py" {
      ExtensionOfSuffix(path, "py");
    } else if |path| >= 3 && path[|path| - 3..] == ".ts" {
      ExtensionOfSuffix(path, "ts");
    } else if path == "py" || path == "ts" {
      ExtensionWithoutDot(path);
    } else if IsSized(path) {
      SizedHasDottedSuffix(path);
    }
  }

  lemma SizedHasDottedSuffix(path: string)
    requires IsSized(path)
    ensures || path == "py" || path == "ts"
            || (|path| >= 3 && path[|path| - 3..] == "." + Extension(path))
  {
    var k := LastIndexOf(path, '.');
    var ext := Extension(path);
    ExtensionIsTextAfterLastDot(path);
    if k == -1 {
      assert ext == path;
    } else {
      assert |ext| == 2;
      assert k == |path| - 3;
      assert path[k..] == [path[k]] + path[k + 1..];
    }
  }

  /** A one-file diff of a sized type weighs its hunk count. */
  lemma SizedFileWeight(stem: string, ext: string, hunks: nat)
    requires '.' !in ext && ext in SizedExtensions
    ensures ChangeSize([FileChange(stem + "." + ext, hunks)]) == hunks
  {
    ExtensionAfterLastDot(stem, ext);
    assert [FileChange(stem + "." + ext, hunks)][1..] == [];
  }

  /** Change size is additive over concatenated diffs. */
  lemma {:induction false} ChangeSizeAppend(d1: Diff, d2: Diff)
    ensures ChangeSize(d1 + d2) == ChangeSize(d1) + ChangeSize(d2)
    decreases |d1|
  {
    if |d1| == 0 {
      assert d1 + d2 == d2;
    } else {
      assert (d1 + d2)[1..] == d1[1..] + d2;
      ChangeSizeAppend(d1[1..], d2);
    }
  }

  /** A file changes the size only when its type is sized, and then by its hunk count. */
  lemma AppendFile(d: Diff, f: FileChange)
    ensures !IsSized(f.path) ==> ChangeSize(d + [f]) == ChangeSize(d)
    ensures IsSized(f.path) ==> ChangeSize(d + [f]) == ChangeSize(d) + f.hunks
  {
    ChangeSizeAppend(d, [f]);
  }

  /** Size is zero when no file is of a sized type, and all hunks when every file is. */
  lemma {:induction false} ChangeSizeExtremes(d: Diff)
    ensures (forall i :: 0 <= i < |d| ==> !IsSized(d[i].path)) ==> ChangeSize(d) == 0
    ensures (forall i :: 0 <= i < |d| ==> IsSized(d[i].path)) ==> ChangeSize(d) == TotalHunks(d)
    decreases |d|
  {
    if |d| > 0 {
      ChangeSizeExtremes(d[1..]);
      assert forall i :: 1 <= i < |d| ==> d[1..][i - 1] == d[i];
    }
  }
}
