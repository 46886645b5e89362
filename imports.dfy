/**
 * The import manager: a file that does not yet mention the style module
 * gets one import line, placed right after its last import line; a file
 * with no import line at all is left as it is.
 */
module Imports {
  import opened Text
  import opened Registry
  import opened Paths

  /** A line whose whitespace-stripped form starts with `import `. */
  predicate IsImportLine(line: string) {
    StartsWith(Strip(line), "import ")
  }

  /** Index of the last import line, -1 when there is none. */
  function LastImportIndex(lines: seq<string>): (r: int)
    ensures -1 <= r < |lines|
  {
    if lines == [] then -1
    else if IsImportLine(lines[|lines| - 1]) then |lines| - 1
    else LastImportIndex(lines[..|lines| - 1])
  }

  /** The index found is an import line and no later line is one; -1 means no line is. */
  lemma {:induction false} LastImportIndexSpec(lines: seq<string>)
    ensures var r := LastImportIndex(lines);
      && (r >= 0 ==> IsImportLine(lines[r]))
      && forall j :: r < j < |lines| ==> !IsImportLine(lines[j])
    decreases |lines|
  {
    if lines != [] && !IsImportLine(lines[|lines| - 1]) {
      var init := lines[..|lines| - 1];
      LastImportIndexSpec(init);
      var r := LastImportIndex(init);
      if r >= 0 {
        assert lines[r] == init[r];
      }
      forall j | r < j < |lines| ensures !IsImportLine(lines[j]) {
        if j < |init| {
          assert lines[j] == init[j];
        }
      }
    }
  }

  /** One more line: it is the last import line if it is one, otherwise the last one stays. */
  lemma LastImportIndexStep(lines: seq<string>, i: nat)
    requires i < |lines|
    ensures LastImportIndex(lines[..i + 1]) ==
      if IsImportLine(lines[i]) then i else LastImportIndex(lines[..i])
  {
    assert lines[..i + 1][..i] == lines[..i];
  }

  /**
   * What `add_import_if_needed` returns for a given import line: the content
   * itself when it mentions the style module or has no import line, and
   * otherwise its lines with the import line inserted after the last import.
   */
  function EnsureImport(content: string, importLine: string): string {
    if Contains(content, StyleFileName) then content else AfterLastImport(content, importLine)
  }

  /** The lines of the content with the import line inserted after the last import line, if any. */
  function AfterLastImport(content: string, importLine: string): string {
    var lines := SplitLines(content);
    var k := LastImportIndex(lines);
    if k >= 0 then JoinLines(Insert(lines, k + 1, importLine)) else content
  }

  /**
   * `add_import_if_needed`: a content that mentions the style module is
   * returned at once; otherwise the relative import line is computed and
   * placed after the last import line.
   */
  method AddImportIfNeeded(content: string, filePath: Path, stylePath: Path) returns (result: string)
    ensures result == EnsureImport(content, RelativeImport(filePath, stylePath))
  {
    if Contains(content, StyleFileName) {
      EnsureImportMarked(content, RelativeImport(filePath, stylePath));
      return content;
    }
    var importLine := RelativeImport(filePath, stylePath);
    result := InsertAfterLastImport(content, importLine);
  }

  /** The tail of `add_import_if_needed`: split into lines, find the last import, insert after it. */
  method InsertAfterLastImport(content: string, importLine: string) returns (result: string)
    ensures result == AfterLastImport(content, importLine)
  {
    var lines := SplitLines(content);
    var lastImportIdx := FindLastImport(lines);
    if lastImportIdx >= 0 {
      lines := Insert(lines, lastImportIdx + 1, importLine);
      return JoinLines(lines);
    }
    return content;
  }

  /** The loop of `add_import_if_needed` that remembers the index of the last import line seen. */
  method FindLastImport(lines: seq<string>) returns (lastImportIdx: int)
    ensures lastImportIdx == LastImportIndex(lines)
  {
    lastImportIdx := -1;
    for i := 0 to |lines|
      invariant lastImportIdx == LastImportIndex(lines[..i])
    {
      LastImportIndexStep(lines, i);
      var stripped := Strip(lines[i]);
      if StartsWith(stripped, "import ") {
        lastImportIdx := i;
      }
    }
    assert lines[..|lines|] == lines;
  }

  /** Without the style module and with an import line, the line goes in after the last import. */
  lemma EnsureImportAfterLast(content: string, importLine: string, lines: seq<string>, k: int)
    requires !Contains(content, StyleFileName)
    requires lines == SplitLines(content) && k == LastImportIndex(lines) && k >= 0
    ensures EnsureImport(content, importLine) == JoinLines(Insert(lines, k + 1, importLine))
  {
  }

  /** Without any import line the content is returned as it is, and indeed no line is an import. */
  lemma EnsureImportNoImport(content: string, importLine: string)
    requires LastImportIndex(SplitLines(content)) < 0
    ensures EnsureImport(content, importLine) == content
    ensures forall j :: 0 <= j < |SplitLines(content)| ==> !IsImportLine(SplitLines(content)[j])
  {
    LastImportIndexSpec(SplitLines(content));
  }

  /** Inserting after an existing import line makes the content longer. */
  lemma EnsureImportGrows(content: string, importLine: string)
    requires !Contains(content, StyleFileName) && LastImportIndex(SplitLines(content)) >= 0
    ensures |EnsureImport(content, importLine)| > |content|
    ensures IsImportLine(SplitLines(content)[LastImportIndex(SplitLines(content))])
  {
    var lines := SplitLines(content);
    var k := LastImportIndex(lines);
    EnsureImportAfterLast(content, importLine, lines, k);
    InsertSize(lines, k + 1, importLine);
    LastImportIndexSpec(lines);
  }

  /**
   * Inserting a line after the first k lines adds exactly a newline and the
   * line at that point of the text; before and after, the text is as it was.
   */
  lemma InsertJoin(lines: seq<string>, k: nat, x: string)
    requires 1 <= k <= |lines|
    ensures var rest := if k == |lines| then "" else "\n" + JoinLines(lines[k..]);
      && JoinLines(lines) == JoinLines(lines[..k]) + rest
      && JoinLines(Insert(lines, k, x)) == JoinLines(lines[..k]) + "\n" + x + rest
  {
    assert Insert(lines, k, x) == lines[..k] + ([x] + lines[k..]);
    if k == |lines| {
      assert lines[..k] == lines;
      assert [x] + lines[k..] == [x];
      JoinLinesAppend(lines[..k], [x]);
    } else {
      var a := JoinLines(lines[..k]) + "\n";
      var b := JoinLines(lines[k..]);
      assert lines == lines[..k] + lines[k..];
      JoinLinesAppend(lines[..k], lines[k..]);
      assert JoinLines(lines) == a + b;
      AppendAssoc(JoinLines(lines[..k]), "\n", b);
      JoinLinesAppend(lines[..k], [x] + lines[k..]);
      assert ([x] + lines[k..])[1..] == lines[k..];
      assert JoinLines([x] + lines[k..]) == (x + "\n") + b;
      AppendAssoc(a, x + "\n", b);
      AppendAssoc(a, x, "\n");
      AppendAssoc(a + x, "\n", b);
    }
  }

  /**
   * The two no-op cases: the content comes back unchanged exactly when it
   * already mentions the style module or no line is an import line.
   */
  lemma EnsureImportUnchanged(content: string, importLine: string)
    ensures EnsureImport(content, importLine) == content ==>
      Contains(content, StyleFileName) ||
      forall j :: 0 <= j < |SplitLines(content)| ==> !IsImportLine(SplitLines(content)[j])
    ensures (Contains(content, StyleFileName) ||
      forall j :: 0 <= j < |SplitLines(content)| ==> !IsImportLine(SplitLines(content)[j])) ==>
      EnsureImport(content, importLine) == content
  {
    if Contains(content, StyleFileName) {
      EnsureImportMarked(content, importLine);
    } else if LastImportIndex(SplitLines(content)) >= 0 {
      EnsureImportGrows(content, importLine);
    } else {
      EnsureImportNoImport(content, importLine);
    }
  }

  /** Inserting a line lengthens the joined text by the line and one newline. */
  lemma InsertSize(lines: seq<string>, k: nat, x: string)
    requires 1 <= k <= |lines|
    ensures |JoinLines(Insert(lines, k, x))| == |JoinLines(lines)| + 1 + |x|
  {
    InsertJoin(lines, k, x);
  }

  /**
   * Single-line insertion: otherwise the lines of the result are the
   * original lines with the import line inserted right after the last
   * import line; every original line keeps its content and order.
   */
  lemma EnsureImportInserts(content: string, importLine: string)
    requires !Contains(content, StyleFileName) && '\n' !in importLine
    requires LastImportIndex(SplitLines(content)) >= 0
    ensures var lines := SplitLines(content);
      var k := LastImportIndex(lines);
      var r := SplitLines(EnsureImport(content, importLine));
      && r == Insert(lines, k + 1, importLine)
      && |r| == |lines| + 1 && r[k + 1] == importLine && IsImportLine(r[k])
      && r[..k + 1] == lines[..k + 1] && r[k + 2..] == lines[k + 1..]
  {
    var lines := SplitLines(content);
    var k := LastImportIndex(lines);
    var r := Insert(lines, k + 1, importLine);
    InsertShape(lines, k + 1, importLine);
    forall j | 0 <= j < |r| ensures '\n' !in r[j] {
      if j < k + 1 {
        assert r[j] == r[..k + 1][j] == lines[j];
      } else if j > k + 1 {
        assert r[j] == r[k + 2..][j - k - 2] == lines[j - 1];
      }
    }
    SplitJoinLines(r);
    LastImportIndexSpec(lines);
    assert r[k] == r[..k + 1][k];
  }

  /**
   * Import idempotence: once the inserted line mentions the style module, a
   * second call changes nothing.
   */
  lemma EnsureImportIdempotent(content: string, importLine: string)
    requires Contains(importLine, StyleFileName)
    ensures EnsureImport(EnsureImport(content, importLine), importLine) == EnsureImport(content, importLine)
  {
    var lines := SplitLines(content);
    var k := LastImportIndex(lines);
    if !Contains(content, StyleFileName) && k >= 0 {
      var r := Insert(lines, k + 1, importLine);
      assert EnsureImport(content, importLine) == JoinLines(r);
      JoinLinesContains(r, k + 1);
      ContainsTransitive(JoinLines(r), importLine, StyleFileName);
      EnsureImportMarked(JoinLines(r), importLine);
    }
  }

  /** A content that already mentions the style module is returned as it is. */
  lemma EnsureImportMarked(content: string, importLine: string)
    requires Contains(content, StyleFileName)
    ensures EnsureImport(content, importLine) == content
  {
  }

  /** The import statement is itself an import line. */
  lemma ImportStatementIsImport(rel: string)
    ensures IsImportLine(ImportStatement(rel))
  {
    var line := ImportStatement(rel);
    assert line[0] == 'i' && line[|line| - 1] == ';';
    StripUnpadded(line);
    StartsWithIsPrefix(line, "import ");
  }
}
