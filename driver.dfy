/**
 * The driver: one file is transformed by the rule pass and, when a rule
 * fired, given the style import; a batch walks the collected files of a
 * tree of file contents and rewrites the ones a rule fires on.
 */
module Driver {
  import opened Text
  import opened Registry
  import opened Rewrite
  import opened RulePass
  import opened Paths
  import opened Imports
  import opened Discovery

  /**
   * What `process_file` does to a file's content: the table's pass and, if
   * any rule fired, the style import; otherwise the content stays as read.
   */
  function Transform(original: string, filePath: Path, stylePath: Path): Pass {
    var p := ApplyRules(original, Rules);
    if p.changed then Pass(EnsureImport(p.text, RelativeImport(filePath, stylePath)), true)
    else Pass(original, false)
  }

  /** `process_file` on a file's content: the loop over the table, then the import. */
  method ProcessFile(original: string, filePath: Path, stylePath: Path) returns (content: string, madeChanges: bool)
    ensures Pass(content, madeChanges) == Transform(original, filePath, stylePath)
  {
    content := original;
    madeChanges := false;
    for i := 0 to |Rules|
      invariant Pass(content, madeChanges) == ApplyRules(original, Rules[..i])
    {
      assert Rules[..i + 1][..i] == Rules[..i];
      var rule := Rules[i];
      if !NoMatch(content, rule.value) {
        content := Substitute(content, rule.value, rule.replacement);
        madeChanges := true;
      }
    }
    assert Rules[..|Rules|] == Rules;
    ApplyRulesUnchanged(original, Rules);
    if madeChanges {
      content := AddImportIfNeeded(content, filePath, stylePath);
    }
  }

  /** Neither needle of a numeral holds a newline or a semicolon. */
  lemma ForeignChars(u: string)
    requires IsNumeral(u)
    ensures '\n' !in IntNeedle(u) && '\n' !in FracNeedle(u)
    ensures ';' !in IntNeedle(u) && ';' !in FracNeedle(u)
  {
    forall needle, k | (needle == IntNeedle(u) || needle == FracNeedle(u)) && 0 <= k < |needle|
      ensures needle[k] != '\n' && needle[k] != ';'
    {
      if k < |Wrapper| {
        assert needle[k] == Wrapper[k];
      } else if k < |Wrapper| + |u| {
        assert needle[k] == u[k - |Wrapper|];
      }
    }
  }

  /** Inserting a match-free line keeps a text free of matches. */
  lemma NoMatchInsert(lines: seq<string>, k: nat, x: string, u: string)
    requires IsNumeral(u) && 1 <= k <= |lines|
    requires NoMatch(JoinLines(lines), u) && NoMatch(x, u)
    ensures NoMatch(JoinLines(Insert(lines, k, x)), u)
  {
    InsertJoin(lines, k, x);
    var rest := if k == |lines| then "" else "\n" + JoinLines(lines[k..]);
    NoMatchSplit(JoinLines(lines), JoinLines(lines[..k]), rest, u);
    NoMatchAround(JoinLines(lines[..k]), x, rest, u);
  }

  /** Both parts of a match-free text are match-free. */
  lemma NoMatchSplit(whole: string, a: string, rest: string, u: string)
    requires whole == a + rest && NoMatch(whole, u)
    ensures NoMatch(a, u) && NoMatch(rest, u)
  {
    NoMatchPrefix(a, rest, u);
    assert whole[|a|..] == rest;
    NoMatchSuffix(whole, |a|, u);
  }

  /**
   * A match-free line put after a newline between two match-free texts adds
   * no match, when what follows it is nothing or the next newline.
   */
  lemma NoMatchAround(a: string, x: string, rest: string, u: string)
    requires IsNumeral(u) && NoMatch(a, u) && NoMatch(x, u) && NoMatch(rest, u)
    requires rest == "" || rest[0] == '\n'
    ensures NoMatch(a + "\n" + x + rest, u)
  {
    ForeignChars(u);
    assert NoMatch(a + "\n", u) by {
      NoMatchWithoutB("\n", u);
      NoMatchJoin(a, "\n", u);
    }
    NoMatchJoin(a + "\n", x, u);
    if rest == "" {
      assert a + "\n" + x + rest == a + "\n" + x;
    } else {
      NoMatchJoin(a + "\n" + x, rest, u);
    }
  }

  /** Adding the import keeps a match-free text free of matches when the import line is. */
  lemma EnsureImportClear(t: string, line: string, u: string)
    requires IsNumeral(u) && NoMatch(t, u) && NoMatch(line, u)
    ensures NoMatch(EnsureImport(t, line), u)
  {
    var lines := SplitLines(t);
    var k := LastImportIndex(lines);
    if !Contains(t, StyleFileName) && k >= 0 {
      NoMatchInsert(lines, k + 1, line, u);
    }
  }

  /**
   * After the transformation no rule's pattern matches the file, provided
   * the import line holds no `B` (and so no match of its own).
   */
  lemma TransformClears(original: string, filePath: Path, stylePath: Path)
    requires 'B' !in RelativeImport(filePath, stylePath)
    ensures Cleared(Transform(original, filePath, stylePath).text, Rules)
  {
    RulesWellFormed();
    var p := ApplyRules(original, Rules);
    var line := RelativeImport(filePath, stylePath);
    ApplyRulesFlag(original, Rules);
    if p.changed {
      ApplyRulesClears(original, Rules);
      forall k | 0 <= k < |Rules| ensures NoMatch(Transform(original, filePath, stylePath).text, Rules[k].value) {
        var u := Rules[k].value;
        NoMatchWithoutB(line, u);
        EnsureImportClear(p.text, line, u);
      }
    }
  }

  /**
   * The change flag of `process_file`: it is raised exactly when some rule's
   * pattern matches the file as read; when it is lowered the content stays
   * as read and nothing is written.
   */
  lemma TransformFlag(original: string, filePath: Path, stylePath: Path)
    ensures Transform(original, filePath, stylePath).changed <==>
      exists k :: 0 <= k < |Rules| && !NoMatch(original, Rules[k].value)
    ensures !Transform(original, filePath, stylePath).changed ==>
      Transform(original, filePath, stylePath).text == original
  {
    ApplyRulesFlag(original, Rules);
  }

  /** The flag is raised exactly when the file's content changes. */
  lemma TransformChanged(original: string, filePath: Path, stylePath: Path)
    requires 'B' !in RelativeImport(filePath, stylePath)
    ensures Transform(original, filePath, stylePath).changed <==>
      Transform(original, filePath, stylePath).text != original
  {
    TransformFlag(original, filePath, stylePath);
    TransformClears(original, filePath, stylePath);
  }

  /** Running the script a second time leaves every file as the first run left it. */
  lemma TransformIdempotent(original: string, filePath: Path, stylePath: Path)
    requires 'B' !in RelativeImport(filePath, stylePath)
    ensures var once := Transform(original, filePath, stylePath).text;
      Transform(once, filePath, stylePath) == Pass(once, false)
  {
    TransformClears(original, filePath, stylePath);
    ApplyRulesCleared(Transform(original, filePath, stylePath).text, Rules);
  }

  /**
   * The import written into any file below the library root holds no `B`;
   * so there the transformation clears every pattern and a second run
   * changes nothing.
   */
  lemma ImportLineBelowRoot(root: Path, dirs: Path, name: string)
    ensures 'B' !in RelativeImport(root + dirs + [name], root + StyleSubPath)
  {
    assert 'B' !in "import ';";
    assert forall j :: 0 <= j < |StyleSubPath| ==> 'B' !in StyleSubPath[j];
    RelativeImportUnderRoot(root, dirs, name, 'B');
  }

  /** Idempotence of the whole script for the files it is meant for: every file below the library root. */
  lemma TransformIdempotentBelowRoot(original: string, root: Path, dirs: Path, name: string)
    ensures var f := root + dirs + [name];
      var once := Transform(original, f, root + StyleSubPath).text;
      && Cleared(once, Rules)
      && Transform(once, f, root + StyleSubPath) == Pass(once, false)
  {
    ImportLineBelowRoot(root, dirs, name);
    TransformClears(original, root + dirs + [name], root + StyleSubPath);
    TransformIdempotent(original, root + dirs + [name], root + StyleSubPath);
  }

  /** A file tree: the content of each file, by path. */
  type Tree = map<Path, string>

  /** The state after a batch: the tree and the updated files, in processing order. */
  datatype Batch = Batch(tree: Tree, updated: seq<Path>)

  /**
   * The files processed one after another, each read from the tree as the
   * earlier files left it; a file is written back and reported when a rule
   * fired on it.
   */
  function RunFiles(tree: Tree, files: seq<Path>, stylePath: Path): (b: Batch)
    requires forall j :: 0 <= j < |files| ==> files[j] in tree
    ensures b.tree.Keys == tree.Keys
    decreases |files|
  {
    if files == [] then Batch(tree, [])
    else
      var b := RunFiles(tree, files[..|files| - 1], stylePath);
      var f := files[|files| - 1];
      var r := Transform(b.tree[f], f, stylePath);
      if r.changed then Batch(b.tree[f := r.text], b.updated + [f]) else b
  }

  /** One more file of the batch: it is read from the tree as the earlier files left it. */
  lemma RunFilesNext(tree: Tree, files: seq<Path>, i: nat, stylePath: Path)
    requires i < |files| && forall j :: 0 <= j < |files| ==> files[j] in tree
    ensures var b := RunFiles(tree, files[..i], stylePath);
      var f := files[i];
      var r := Transform(b.tree[f], f, stylePath);
      RunFiles(tree, files[..i + 1], stylePath) ==
        if r.changed then Batch(b.tree[f := r.text], b.updated + [f]) else b
  {
    assert files[..i + 1][..i] == files[..i];
    assert files[..i + 1][i] == files[i];
  }

  /** The report: each updated file named relative to the library root, in update order. */
  predicate Reports(report: seq<seq<string>>, files: seq<Path>, root: Path) {
    |report| == |files| && forall j :: 0 <= j < |report| ==> report[j] == RelSegments(files[j], root)
  }

  /** Reporting one more updated file extends the report by its relative name. */
  lemma ReportsNext(report: seq<seq<string>>, files: seq<Path>, root: Path, f: Path)
    requires Reports(report, files, root)
    ensures Reports(report + [RelSegments(f, root)], files + [f], root)
  {
  }

  /** The main loop over the collected files, with the count and the report of updated files. */
  method RunBatch(tree: Tree, walk: seq<WalkEntry>, root: Path)
    returns (newTree: Tree, updatedFiles: seq<Path>, updated: nat, report: seq<seq<string>>)
    requires forall p :: p in DartFiles(walk) ==> p in tree
    ensures Batch(newTree, updatedFiles) == RunFiles(tree, DartFiles(walk), root + StyleSubPath)
    ensures updated == |updatedFiles| == |report|
    ensures forall j :: 0 <= j < |report| ==> report[j] == RelSegments(updatedFiles[j], root)
  {
    var stylePath := root + StyleSubPath;
    var files := FindDartFiles(walk);
    assert forall j :: 0 <= j < |files| ==> files[j] in tree;
    newTree := tree;
    updatedFiles := [];
    updated := 0;
    report := [];
    for i := 0 to |files|
      invariant Batch(newTree, updatedFiles) == RunFiles(tree, files[..i], stylePath)
      invariant updated == |updatedFiles|
      invariant Reports(report, updatedFiles, root)
    {
      RunFilesNext(tree, files, i, stylePath);
      var filepath := files[i];
      var content, changed := ProcessFile(newTree[filepath], filepath, stylePath);
      if changed {
        ReportsNext(report, updatedFiles, root, filepath);
        newTree := newTree[filepath := content];
        updatedFiles := updatedFiles + [filepath];
        updated := updated + 1;
        report := report + [RelSegments(filepath, root)];
      }
    }
    assert files[..|files|] == files;
  }

  /** No path occurs twice, as in a directory walk. */
  predicate Distinct(files: seq<Path>) {
    forall i, j :: 0 <= i < j < |files| ==> files[i] != files[j]
  }

  /**
   * For a batch over distinct files: each processed file holds its
   * transformed content, every other file is untouched, and the updated
   * files are exactly the processed ones a rule fired on.
   */
  lemma {:induction false} RunFilesEffect(tree: Tree, files: seq<Path>, stylePath: Path, p: Path)
    requires forall j :: 0 <= j < |files| ==> files[j] in tree
    requires Distinct(files) && p in tree
    ensures var b := RunFiles(tree, files, stylePath);
      && p in b.tree
      && (p in files ==> b.tree[p] == Transform(tree[p], p, stylePath).text)
      && (p !in files ==> b.tree[p] == tree[p])
      && (p in b.updated <==> p in files && Transform(tree[p], p, stylePath).changed)
    decreases |files|
  {
    if files != [] {
      var init := files[..|files| - 1];
      var f := files[|files| - 1];
      RunFilesEffect(tree, init, stylePath, p);
      RunFilesEffect(tree, init, stylePath, f);
      assert f !in init by {
        forall j | 0 <= j < |init| ensures init[j] != f {
          assert init[j] == files[j];
        }
      }
      assert p in files <==> p in init || p == f by {
        assert files == init + [f];
      }
    }
  }

  /**
   * A batch over the walk's collected files never touches a skipped file or
   * a file whose name does not end with `.dart`.
   */
  lemma RunBatchLeavesOthers(tree: Tree, walk: seq<WalkEntry>, stylePath: Path, p: Path)
    requires forall q :: q in DartFiles(walk) ==> q in tree
    requires Distinct(DartFiles(walk)) && p in tree
    requires p == [] || p[|p| - 1] in SkipFiles || !EndsWith(p[|p| - 1], ".dart")
    ensures var b := RunFiles(tree, DartFiles(walk), stylePath);
      p in b.tree && b.tree[p] == tree[p] && p !in b.updated
  {
    if p in DartFiles(walk) {
      DartFilesNames(walk, p);
    }
    RunFilesEffect(tree, DartFiles(walk), stylePath, p);
  }
}
