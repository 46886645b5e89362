/**
 * Paths as sequences of segments, and the relative import path from a
 * file's directory to the style module (`os.path.relpath` on normalised
 * absolute paths, then backslashes turned into slashes).
 */
module Paths {
  import opened Text
  import opened Registry

  /** A normalised absolute path: its segments from the root, none empty. */
  type Path = seq<string>

  /** The segment `..`, which names the parent directory. */
  predicate IsParent(x: string) {
    |x| == 2 && x[0] == '.' && x[1] == '.'
  }

  /** The segment `.`, which names the directory itself. */
  predicate IsCurrent(x: string) {
    |x| == 1 && x[0] == '.'
  }

  /** A segment of a normalised path: not empty, no separator, not `.` or `..`. */
  predicate NormalSegment(x: string) {
    x != [] && '/' !in x && !IsCurrent(x) && !IsParent(x)
  }

  predicate Normal(p: Path) {
    forall j :: 0 <= j < |p| ==> NormalSegment(p[j])
  }

  /** `os.path.dirname`: the path without its last segment. */
  function Dirname(p: Path): (d: Path)
    ensures p != [] ==> p == d + [p[|p| - 1]]
    ensures p == [] ==> d == []
  {
    if p == [] then [] else p[..|p| - 1]
  }

  /** Length of the longest common prefix of a and b. */
  function CommonPrefixLen(a: Path, b: Path): (n: nat)
    ensures n <= |a| && n <= |b|
  {
    if a == [] || b == [] || a[0] != b[0] then 0
    else CommonPrefixLen(a[1..], b[1..]) + 1
  }

  /** The common prefix is one: a and b agree on it and differ right after it. */
  lemma {:induction false} CommonPrefixAgree(a: Path, b: Path)
    ensures var n := CommonPrefixLen(a, b);
      a[..n] == b[..n] && (n < |a| && n < |b| ==> a[n] != b[n])
    decreases |a|
  {
    if a != [] && b != [] && a[0] == b[0] {
      CommonPrefixAgree(a[1..], b[1..]);
      var m := CommonPrefixLen(a[1..], b[1..]);
      assert a[..m + 1] == [a[0]] + a[1..][..m];
      assert b[..m + 1] == [b[0]] + b[1..][..m];
      if m + 1 < |a| && m + 1 < |b| {
        assert a[m + 1] == a[1..][m] && b[m + 1] == b[1..][m];
      }
    }
  }

  /** n copies of x. */
  function Repeat(x: string, n: nat): (r: seq<string>)
    ensures |r| == n
  {
    if n == 0 then [] else [x] + Repeat(x, n - 1)
  }

  /** Every item of `Repeat(x, n)` is x. */
  lemma {:induction false} RepeatAt(x: string, n: nat, j: nat)
    requires j < n
    ensures Repeat(x, n)[j] == x
  {
    if j > 0 {
      RepeatAt(x, n - 1, j - 1);
    }
  }

  /**
   * `os.path.relpath(target, start)`: one `..` for each segment of start
   * below the common prefix, then the rest of target; `.` when the two
   * paths are the same.
   */
  function RelSegments(target: Path, start: Path): seq<string> {
    var i := CommonPrefixLen(start, target);
    if i == |start| && i == |target| then ["."] else Repeat("..", |start| - i) + target[i..]
  }

  /** The segments joined with `/`. */
  function JoinSegments(segs: seq<string>): string {
    if |segs| == 0 then ""
    else if |segs| == 1 then segs[0]
    else segs[0] + "/" + JoinSegments(segs[1..])
  }

  /** The relative path from the file's directory to the style module, with `/` as separator. */
  function RelativePath(filePath: Path, stylePath: Path): string {
    ReplaceChar(JoinSegments(RelSegments(stylePath, Dirname(filePath))), '\\', '/')
  }

  /** A Dart import statement of the given path. */
  function ImportStatement(rel: string): string {
    "import '" + rel + "';"
  }

  /** The import statement adds only the characters of its keyword and quotes to the path's. */
  lemma ImportStatementChars(rel: string, c: char)
    ensures c in ImportStatement(rel) <==> c in rel || c in "import ';"
  {
  }

  /** `compute_relative_import`: the Dart import of the style module from the file's directory. */
  function RelativeImport(filePath: Path, stylePath: Path): string {
    ImportStatement(RelativePath(filePath, stylePath))
  }

  /** Following one relative segment from a directory: `..` goes up (not past the root), `.` stays. */
  function Follow(dir: Path, x: string): Path {
    if IsParent(x) then (if dir == [] then [] else dir[..|dir| - 1])
    else if IsCurrent(x) then dir
    else dir + [x]
  }

  /** The directory reached by following the segments of a relative path from dir. */
  function Resolve(dir: Path, rel: seq<string>): Path
    decreases |rel|
  {
    if rel == [] then dir else Resolve(Follow(dir, rel[0]), rel[1..])
  }

  /** Following a concatenation is following one part and then the other. */
  lemma {:induction false} ResolveAppend(dir: Path, a: seq<string>, b: seq<string>)
    ensures Resolve(dir, a + b) == Resolve(Resolve(dir, a), b)
    decreases |a|
  {
    if a == [] {
      assert a + b == b;
    } else {
      assert (a + b)[0] == a[0] && (a + b)[1..] == a[1..] + b;
      assert Resolve(dir, a + b) == Resolve(Follow(dir, a[0]), a[1..] + b);
      ResolveAppend(Follow(dir, a[0]), a[1..], b);
    }
  }

  /** n steps up from a directory at least n deep drop its last n segments. */
  lemma {:induction false} ResolveUp(dir: Path, n: nat)
    requires n <= |dir|
    ensures Resolve(dir, Repeat("..", n)) == dir[..|dir| - n]
    decreases n
  {
    if n > 0 {
      assert Repeat("..", n)[1..] == Repeat("..", n - 1);
      ResolveUp(dir[..|dir| - 1], n - 1);
      assert dir[..|dir| - 1][..|dir| - 1 - (n - 1)] == dir[..|dir| - n];
    }
  }

  /** Following normal segments appends them. */
  lemma {:induction false} ResolveDown(dir: Path, segs: seq<string>)
    requires Normal(segs)
    ensures Resolve(dir, segs) == dir + segs
    decreases |segs|
  {
    if segs != [] {
      assert NormalSegment(segs[0]);
      assert Normal(segs[1..]) by {
        assert forall j :: 0 <= j < |segs| - 1 ==> segs[1..][j] == segs[j + 1];
      }
      ResolveDown(dir + [segs[0]], segs[1..]);
      assert dir + [segs[0]] + segs[1..] == dir + segs;
    }
  }

  /** Dropping leading segments keeps a path normal. */
  lemma NormalSuffix(p: Path, i: nat)
    requires Normal(p) && i <= |p|
    ensures Normal(p[i..])
  {
    assert forall j :: 0 <= j < |p| - i ==> p[i..][j] == p[i + j];
  }

  /**
   * Climbing from start to a directory it shares with target and then
   * descending along the rest of target reaches target.
   */
  lemma ResolveUpDown(start: Path, target: Path, i: nat)
    requires Normal(target) && i <= |start| && i <= |target| && start[..i] == target[..i]
    ensures Resolve(start, Repeat("..", |start| - i) + target[i..]) == target
  {
    var up := Repeat("..", |start| - i);
    ResolveAppend(start, up, target[i..]);
    ResolveUpTo(start, target, i);
    ResolveDownFrom(target, i);
  }

  /** Climbing from start above everything past its first i segments. */
  lemma ResolveUpTo(start: Path, target: Path, i: nat)
    requires i <= |start| && i <= |target| && start[..i] == target[..i]
    ensures Resolve(start, Repeat("..", |start| - i)) == target[..i]
  {
    ResolveUp(start, |start| - i);
  }

  /** Descending from the first i segments of a normal path along the rest reaches the path. */
  lemma ResolveDownFrom(target: Path, i: nat)
    requires Normal(target) && i <= |target|
    ensures Resolve(target[..i], target[i..]) == target
  {
    NormalSuffix(target, i);
    ResolveDown(target[..i], target[i..]);
    assert target[..i] + target[i..] == target;
  }

  /** The relative path leads from start back to target. */
  lemma RelSegmentsResolve(target: Path, start: Path)
    requires Normal(target)
    ensures Resolve(start, RelSegments(target, start)) == target
  {
    var i := CommonPrefixLen(start, target);
    CommonPrefixAgree(start, target);
    if i == |start| && i == |target| {
      assert start[..i] == start && target[..i] == target;
      assert Resolve(start, ["."]) == start;
    } else {
      ResolveUpDown(start, target, i);
    }
  }

  /** When the common prefix is all of b, b is a prefix of a. */
  lemma CommonPrefixWhole(a: Path, b: Path)
    ensures CommonPrefixLen(a, b) == |b| ==> b <= a
  {
    CommonPrefixAgree(a, b);
    assert b[..|b|] == b;
  }

  /** Below the common prefix, the relative path climbs out of start and descends into target. */
  lemma RelSegmentsAt(target: Path, start: Path, i: nat)
    requires i == CommonPrefixLen(start, target) && i < |target|
    ensures i <= |start| && RelSegments(target, start) == Repeat("..", |start| - i) + target[i..]
  {
  }

  /** The relative path names the target's last segment last, when target is not above start. */
  lemma RelSegmentsLast(target: Path, start: Path)
    requires target != [] && !(target <= start)
    ensures var rel := RelSegments(target, start); rel != [] && rel[|rel| - 1] == target[|target| - 1]
  {
    var i := CommonPrefixLen(start, target);
    assert i < |target| by {
      CommonPrefixWhole(start, target);
    }
    RelSegmentsAt(target, start, i);
    var up := Repeat("..", |start| - i);
    var down := target[i..];
    assert (up + down)[|up| + |down| - 1] == down[|down| - 1] == target[|target| - 1];
  }

  /** A `/`-join ends with its last segment. */
  lemma {:induction false} JoinSegmentsLast(segs: seq<string>)
    requires segs != []
    ensures EndsWith(JoinSegments(segs), segs[|segs| - 1])
  {
    if |segs| > 1 {
      JoinSegmentsLast(segs[1..]);
      var j := JoinSegments(segs[1..]);
      var full := segs[0] + "/" + j;
      assert full[|full| - |segs[|segs| - 1]|..] == j[|j| - |segs[|segs| - 1]|..];
    }
  }

  /** Replacing a character that a suffix does not use keeps the suffix. */
  lemma ReplaceCharSuffix(s: string, suffix: string, from: char, to: char)
    requires EndsWith(s, suffix) && from !in suffix
    ensures EndsWith(ReplaceChar(s, from, to), suffix)
  {
    var r := ReplaceChar(s, from, to);
    forall j | 0 <= j < |suffix| ensures r[|r| - |suffix| + j] == suffix[j] {
      var k := |s| - |suffix| + j;
      assert s[k] == s[|s| - |suffix|..][j] == suffix[j];
      assert suffix[j] in suffix;
      assert r[k] == s[k];
    }
    assert r[|r| - |suffix|..] == suffix;
  }

  /**
   * The relative path has no backslash and, when the style module is not
   * above the file's directory, ends with the style module's file name.
   */
  lemma RelativePathShape(filePath: Path, stylePath: Path)
    requires stylePath != [] && stylePath[|stylePath| - 1] == StyleFileName
    requires !(stylePath <= Dirname(filePath))
    ensures '\\' !in RelativePath(filePath, stylePath)
    ensures EndsWith(RelativePath(filePath, stylePath), StyleFileName)
  {
    var segs := RelSegments(stylePath, Dirname(filePath));
    RelSegmentsLast(stylePath, Dirname(filePath));
    JoinSegmentsLast(segs);
    ReplaceCharSuffix(JoinSegments(segs), StyleFileName, '\\', '/');
    var rel := RelativePath(filePath, stylePath);
    forall j | 0 <= j < |rel| ensures rel[j] != '\\' { }
  }

  /** The import line mentions the style module's file name, the marker of an existing import. */
  lemma RelativeImportMentions(filePath: Path, stylePath: Path)
    requires stylePath != [] && stylePath[|stylePath| - 1] == StyleFileName
    requires !(stylePath <= Dirname(filePath))
    ensures Contains(RelativeImport(filePath, stylePath), StyleFileName)
  {
    RelativePathShape(filePath, stylePath);
    ContainsSuffix("import '", RelativePath(filePath, stylePath), "';", StyleFileName);
  }

  /** Paths that agree on their first n segments and differ at the next share exactly n. */
  lemma CommonPrefixExact(a: Path, b: Path, n: nat)
    requires n < |a| && n < |b| && a[..n] == b[..n] && a[n] != b[n]
    ensures CommonPrefixLen(a, b) == n
  {
    var m := CommonPrefixLen(a, b);
    CommonPrefixAgree(a, b);
    forall j | 0 <= j < n ensures a[j] == b[j] {
      assert a[j] == a[..n][j];
    }
    forall j | 0 <= j < m ensures a[j] == b[j] {
      assert a[j] == a[..m][j];
    }
  }

  /** Under a common root, paths that part at once share exactly the root. */
  lemma CommonPrefixRoot(root: Path, a: Path, b: Path)
    requires a != [] && b != [] && a[0] != b[0]
    ensures CommonPrefixLen(root + a, root + b) == |root|
  {
    assert (root + a)[..|root|] == root == (root + b)[..|root|];
    CommonPrefixExact(root + a, root + b, |root|);
  }

  /** Replacing a character the text does not use changes nothing. */
  lemma ReplaceCharAbsent(s: string, from: char, to: char)
    requires from !in s
    ensures ReplaceChar(s, from, to) == s
  {
  }

  /** n copies of `../`. */
  function UpPrefix(n: nat): (r: string)
    ensures '\\' !in r && 'B' !in r
  {
    if n == 0 then "" else "../" + UpPrefix(n - 1)
  }

  /** Joining n `..` segments ahead of other segments puts n copies of `../` in front. */
  lemma {:induction false} JoinSegmentsUp(n: nat, segs: seq<string>)
    requires segs != []
    ensures JoinSegments(Repeat("..", n) + segs) == UpPrefix(n) + JoinSegments(segs)
  {
    if n == 0 {
      assert Repeat("..", n) + segs == segs;
    } else {
      var all := Repeat("..", n) + segs;
      var tail := Repeat("..", n - 1) + segs;
      assert all == [".."] + tail;
      assert all[1..] == tail;
      JoinSegmentsUp(n - 1, segs);
      var rest := UpPrefix(n - 1) + JoinSegments(segs);
      assert ".." + "/" == "../";
      assert JoinSegments(all) == ".." + "/" + rest;
      assert UpPrefix(n) + JoinSegments(segs) == "../" + rest;
    }
  }

  /** A character other than `/` that no segment holds is not in their join. */
  lemma {:induction false} JoinSegmentsChars(segs: seq<string>, c: char)
    requires c != '/' && forall j :: 0 <= j < |segs| ==> c !in segs[j]
    ensures c !in JoinSegments(segs)
    decreases |segs|
  {
    if |segs| > 1 {
      assert forall j :: 0 <= j < |segs| - 1 ==> segs[1..][j] == segs[j + 1];
      JoinSegmentsChars(segs[1..], c);
      assert c !in segs[0];
    } else if |segs| == 1 {
      assert c !in segs[0];
    }
  }

  /** The style module's path below the library root, joined. */
  lemma StyleSubPathJoined()
    ensures JoinSegments(StyleSubPath) == "core/theme/app_spacing.dart"
  {
    assert StyleSubPath[1..][1..] == [StyleFileName];
    assert JoinSegments(StyleSubPath[1..][1..]) == "app_spacing.dart";
    assert JoinSegments(StyleSubPath[1..]) == "theme" + "/" + "app_spacing.dart";
    assert JoinSegments(StyleSubPath) == "core" + "/" + ("theme" + "/" + "app_spacing.dart");
  }

  /** The joined style path holds no backslash and no `B`. */
  lemma StyleSubPathChars()
    ensures '\\' !in JoinSegments(StyleSubPath) && 'B' !in JoinSegments(StyleSubPath)
  {
    JoinSegmentsChars(StyleSubPath, '\\');
    JoinSegmentsChars(StyleSubPath, 'B');
  }

  /** From a directory below the library root, outside `core`, the style module is reached by climbing to the root. */
  lemma RelSegmentsBelowRoot(root: Path, dirs: Path)
    requires dirs == [] || dirs[0] != "core"
    ensures RelSegments(root + StyleSubPath, root + dirs) == Repeat("..", |dirs|) + StyleSubPath
  {
    if dirs == [] {
      assert root + dirs == root;
      RelSegmentsBelow(root, StyleSubPath);
    } else {
      assert CommonPrefixLen(root + dirs, root + StyleSubPath) == |root| by {
        CommonPrefixRoot(root, dirs, StyleSubPath);
      }
      RelSegmentsAt(root + StyleSubPath, root + dirs, |root|);
      assert (root + StyleSubPath)[|root|..] == StyleSubPath;
      assert |root + dirs| - |root| == |dirs|;
    }
  }

  /**
   * The import written into a file below the library root, outside `core`:
   * one `../` for each directory between the root and the file, then
   * `core/theme/app_spacing.dart`.
   */
  lemma RelativeImportBelowRoot(root: Path, dirs: Path, name: string)
    requires dirs == [] || dirs[0] != "core"
    ensures RelativeImport(root + dirs + [name], root + StyleSubPath)
      == ImportStatement(UpPrefix(|dirs|) + "core/theme/app_spacing.dart")
  {
    assert Dirname(root + dirs + [name]) == root + dirs;
    RelSegmentsBelowRoot(root, dirs);
    JoinSegmentsUp(|dirs|, StyleSubPath);
    StyleSubPathJoined();
    StyleSubPathChars();
    var rel := UpPrefix(|dirs|) + JoinSegments(StyleSubPath);
    assert JoinSegments(RelSegments(root + StyleSubPath, root + dirs)) == rel;
    assert '\\' !in rel;
    ReplaceCharAbsent(rel, '\\', '/');
  }

  /** Paths under a common root share at least the root. */
  lemma {:induction false} CommonPrefixUnderRoot(root: Path, a: Path, b: Path)
    ensures CommonPrefixLen(root + a, root + b) >= |root|
    decreases |root|
  {
    if root != [] {
      assert (root + a)[1..] == root[1..] + a;
      assert (root + b)[1..] == root[1..] + b;
      CommonPrefixUnderRoot(root[1..], a, b);
    }
  }

  /**
   * From any directory below the library root, the relative path to the
   * style module is made of `..` segments and segments of the style
   * module's path below the root.
   */
  lemma RelSegmentsUnderRoot(root: Path, dirs: Path, c: char)
    requires c != '.' && forall j :: 0 <= j < |StyleSubPath| ==> c !in StyleSubPath[j]
    ensures forall j :: 0 <= j < |RelSegments(root + StyleSubPath, root + dirs)| ==>
      c !in RelSegments(root + StyleSubPath, root + dirs)[j]
  {
    var start, target := root + dirs, root + StyleSubPath;
    var i := CommonPrefixLen(start, target);
    CommonPrefixUnderRoot(root, dirs, StyleSubPath);
    if !(i == |start| && i == |target|) {
      var up := Repeat("..", |start| - i);
      var segs := up + target[i..];
      forall j | 0 <= j < |segs| ensures c !in segs[j] {
        if j < |up| {
          RepeatAt("..", |start| - i, j);
        } else {
          assert segs[j] == target[i + j - |up|] == StyleSubPath[i + j - |up| - |root|];
        }
      }
    }
  }

  /**
   * The import written into any file below the library root holds no
   * character that is absent from `..`, `/`, the statement's own text and
   * the style module's path below the root.
   */
  lemma RelativeImportUnderRoot(root: Path, dirs: Path, name: string, c: char)
    requires c != '.' && c != '/' && c !in "import ';"
    requires forall j :: 0 <= j < |StyleSubPath| ==> c !in StyleSubPath[j]
    ensures c !in RelativeImport(root + dirs + [name], root + StyleSubPath)
  {
    assert Dirname(root + dirs + [name]) == root + dirs;
    RelSegmentsUnderRoot(root, dirs, c);
    var joined := JoinSegments(RelSegments(root + StyleSubPath, root + dirs));
    JoinSegmentsChars(RelSegments(root + StyleSubPath, root + dirs), c);
    var rel := ReplaceChar(joined, '\\', '/');
    assert forall j :: 0 <= j < |rel| ==> rel[j] != c;
    ImportStatementChars(rel, c);
  }

  /** The report names a file below the library root by the segments after the root. */
  lemma RelSegmentsBelow(root: Path, rest: Path)
    requires rest != []
    ensures RelSegments(root + rest, root) == rest
  {
    CommonPrefixAgree(root, root + rest);
    assert forall j :: 0 <= j < |root| ==> (root + rest)[j] == root[j];
    assert (root + rest)[|root|..] == rest;
  }
}
