# Border-radius rewriter, modelled in Dafny

`replace_border_radius.py` rewrites Dart sources. Each hard-coded
`BorderRadius.circular(N)` or `BorderRadius.circular(N.0)` with N in a fixed
table (2, 4, 8, 12, 16, 20, 24) becomes a named spacing constant. The table
is applied in order, each rule to the previous rule's output. When any rule
fired, the file gets an import of the style module `app_spacing.dart`,
computed relative to the file's directory and inserted after the last import
line. There are two exceptions: a file that already mentions
`app_spacing.dart`, and a file with no import line at all. Either one is
written back with its rewritten calls but no new import. The collected files are every `.dart` file of the
library tree except the two theme files. `main` runs the rewrite over them
and reports the updated files.

The model has eight modules, one per part of the program:

- `Text`: Python string operations: `in`, `startswith`, `endswith`, `strip`, `split('\n')`, `'\n'.join`, `replace`, `list.insert`.
- `Registry`: the replacement table, the skipped files, the style module's location, and the well-formedness of the table.
- `Rewrite`: one rule. `re.search` is `!NoMatch`. `re.sub` is `Substitute`, a left-to-right, non-overlapping replacement of the rule's two literal needles, with the longer `.0` needle tried first (the optional group is greedy).
- `RulePass`: the loop over the table as the fold `ApplyRules`, with its change flag, and the proofs that nothing is left to match and that the pass is idempotent.
- `Paths`: `compute_relative_import` over paths as sequences of segments. `Resolve` is an independent reference for what a relative path means.
- `Imports`: `add_import_if_needed`, with its scan loop, its no-op cases, single-line insertion and idempotence.
- `Discovery`: `find_dart_files` over a given walk, with its two nested loops and the filename filter.
- `Driver`: `process_file` as the method `ProcessFile` and the function `Transform`, and `main`'s loop as `RunBatch` over an in-memory tree of file contents.

Paths are sequences of segments. `os.path.join` is concatenation and `dirname` drops the last segment. The library root is a parameter, and the style module sits at `root + ["core", "theme", "app_spacing.dart"]`. File contents are Dafny strings. Reading and writing a file become reading and updating a map from path to content.

## Model

| member | source | states |
|---|---|---|
| Registry.RulesWellFormed | replace_border_radius.py:14-22 | every table literal is a non-empty numeral, no literal occurs twice, and no replacement can itself match any rule's pattern |
| Registry.RuleKinds | replace_border_radius.py:10-22 | the entries for 2, 16 and 24, and only those, keep the `BorderRadius.circular(` wrapper, with `AppSpacing.` as the argument and `)` at the end; the others replace the whole call by an `AppSpacing.` constant whose name ends in `Radius` |
| Registry.RuleShape | replace_border_radius.py:14-22 | the same two shapes, entry by entry |
| Registry.RuleRadius | replace_border_radius.py:14-22 | entry by entry, a replacement of the whole call names a constant ending in `Radius` |
| Registry.WrapperChars | replace_border_radius.py:72 | the wrapper `BorderRadius.circular(` is 22 characters long, starts with `B`, and has no digit, no `A` and no second `B` |
| Text.LStripShape | replace_border_radius.py:51 | `lstrip` keeps a suffix of the line that starts with a non-space, and everything it drops is whitespace |
| Text.RStripShape | replace_border_radius.py:51 | `rstrip` keeps a prefix that ends with a non-space, and everything it drops is whitespace |
| Text.StripUnpadded | replace_border_radius.py:51 | a line with no whitespace at either end is its own `strip()` |
| Text.SplitLines | replace_border_radius.py:48 | `split('\n')` gives at least one piece, no piece holds a newline, and joining the pieces with newlines gives the text back |
| Text.SplitJoinLines | replace_border_radius.py:48-56 | splitting newline-free lines after joining them gives the same lines back |
| Text.ContainsAt | replace_border_radius.py:43 | `needle in s` holds exactly when the needle starts at some index of s |
| Text.ContainsTransitive | replace_border_radius.py:43 | a text containing the import line contains whatever the line contains |
| Text.JoinLinesContains | replace_border_radius.py:56 | every line of a join occurs in the joined text |
| Text.StartsWithIsPrefix | replace_border_radius.py:51 | `startswith` holds exactly when the prefix is an initial segment of the text |
| Text.ReplaceChar | replace_border_radius.py:29 | the result has the same length, with every `from` character turned into `to` and every other character kept |
| Text.InsertShape | replace_border_radius.py:55 | `list.insert(k, x)` puts x at index k, with the items before and after it unchanged and in order |
| Rewrite.MatchLen | replace_border_radius.py:72 | the match at the start of a text is positive exactly when the pattern matches there, and is no longer than the text |
| Rewrite.SubstituteNoMatch | replace_border_radius.py:74-75 | where the pattern matches nowhere, `re.sub` returns the text unchanged |
| Rewrite.SubstituteCall | replace_border_radius.py:72-75 | the call with the literal alone, or with `.0`, is replaced as a whole by the replacement |
| Rewrite.SubstituteOccurrence | replace_border_radius.py:72-75 | a call of the rule's literal, bare or with `.0`, is replaced wherever it stands, and the text before and after it is rewritten independently |
| Rewrite.SubstituteThrough | replace_border_radius.py:72-75 | a call of another literal passes through the rule unchanged wherever it stands, and the text around it is rewritten independently |
| Rewrite.SubstituteAround | replace_border_radius.py:72-75 | an earlier rule's replacement passes through the rule unchanged wherever it stands |
| Rewrite.SubstituteAppend | replace_border_radius.py:74-75 | substitution distributes over a split that no match can cross: one after a boundary, or one before a `B` or a character of neither needle |
| Rewrite.SubstituteClears | replace_border_radius.py:72-75 | after `re.sub` with a safe replacement, the rule's own pattern no longer matches anywhere, and a pattern that did not match before does not match after |
| Rewrite.ExactToken | replace_border_radius.py:72 | for an argument arg with no `B` or `)`, the call with argument arg matches the rule for u exactly when arg is `u` or `u.0` |
| Rewrite.ExactTokenStart | replace_border_radius.py:72 | at the start of a call whose argument has no `)`, the rule for u matches exactly when the argument is `u` or `u.0` |
| Rewrite.ExactTokenLater | replace_border_radius.py:72 | past its first character, a call whose argument has no `B` starts no match |
| Rewrite.OtherNeedle | replace_border_radius.py:72 | the call for one literal never matches the rule of a different literal |
| Rewrite.NoMatchWithoutB | replace_border_radius.py:72 | a text without `B` matches no rule |
| Rewrite.NoMatchJoin | replace_border_radius.py:72 | two match-free texts stay match-free when joined where no match can cross: after a boundary, or before a `B` or a character of neither needle |
| Rewrite.SubstitutePast | replace_border_radius.py:72-75 | a call whose argument has no `B` or `)` and is neither `v` nor `v.0` passes through the rule for v unchanged wherever it stands, and the text around it is rewritten independently |
| Rewrite.NoMatchPast | replace_border_radius.py:72-74 | such a call adds no match: the rule matches the text around it exactly when it matches one of the two sides |
| Rewrite.AfterReplacement | replace_border_radius.py:14-22 | a safe replacement followed by a match-free text is match-free |
| Rewrite.OutputPrefix | replace_border_radius.py:75 | a prefix of the output that avoids the letters starting a replacement was already a prefix of the input |
| RulePass.ApplyRulesFlag | replace_border_radius.py:67-76 | `made_changes` is set exactly when some rule's pattern matches the original text |
| RulePass.ApplyRulesUnchanged | replace_border_radius.py:67-76 | with the flag down, the content is the original |
| RulePass.ApplyRulesChanged | replace_border_radius.py:67-76 | for a well-formed table, the flag is set exactly when the content differs from the original |
| RulePass.ApplyRulesClears | replace_border_radius.py:69-76 | after the pass over a well-formed table, no rule's pattern matches anywhere: every occurrence was rewritten |
| RulePass.ApplyRulesCleared | replace_border_radius.py:69-76 | a pass over a text that no rule matches changes nothing and lowers the flag |
| RulePass.ApplyRulesIdempotent | replace_border_radius.py:69-76 | running the pass on its own output changes nothing and reports no change |
| RulePass.TableIdempotent | replace_border_radius.py:69-76 | the same for the program's own table |
| RulePass.StepText | replace_border_radius.py:74-75 | the text after one rule is the `re.sub` result, whether `re.search` found the pattern or not |
| RulePass.PassOccurrencePrefix | replace_border_radius.py:69-76 | after the first j rules, a call of entry k is still there while j is at most k, and is entry k's replacement after that; the text on either side goes through the same rules on its own |
| RulePass.PassOccurrence | replace_border_radius.py:69-76 | every call of a table literal, bare or with `.0`, becomes that literal's replacement wherever it stands, the text around it goes through the pass on its own, and the flag is raised |
| RulePass.TableNested | replace_border_radius.py:14-22 | `foo(BorderRadius.circular(8))` becomes `foo(AppSpacing.buttonRadius)`, with the change reported |
| RulePass.TableWithoutB | replace_border_radius.py:69-76 | a text without `B` goes through the table's pass unchanged, with no change reported |
| RulePass.CallAfter | replace_border_radius.py:69-76 | a call of a table literal at the end of a text that no rule matches and that ends at a boundary becomes the rule's replacement, with that text left as it is and the flag raised; `PassOccurrence` covers a call anywhere |
| RulePass.SingleCall | replace_border_radius.py:69-76 | a text that is just one table call becomes that rule's replacement |
| RulePass.PassThroughPrefix | replace_border_radius.py:69-76 | after the first j rules, a call whose argument is no table literal is still in place, and the text on either side goes through the same rules on its own |
| RulePass.PassThrough | replace_border_radius.py:69-76 | a call whose argument has no `B` or `)` and is no table literal, bare or with `.0`, is left byte for byte wherever it stands; the text around it goes through the pass on its own, and the flag is raised exactly when it is raised for one of the two sides |
| RulePass.TableMixed | replace_border_radius.py:14-22 | in `x(BorderRadius.circular(5)); BorderRadius.circular(8)` the call with 5 survives and the call with 8 becomes `AppSpacing.buttonRadius`, with the change reported |
| RulePass.AbsentLiteral | replace_border_radius.py:14-22 | for an argument with no `B` or `)`, a call whose argument is not a table literal, with or without `.0`, is left byte for byte and the flag stays down |
| RulePass.TableCalls | replace_border_radius.py:14-22 | `BorderRadius.circular(8)` becomes `AppSpacing.buttonRadius`; `BorderRadius.circular(16.0)` becomes `BorderRadius.circular(AppSpacing.radiusXl)` |
| RulePass.TableAbsent | replace_border_radius.py:14-22 | `BorderRadius.circular(5)` and `BorderRadius.circular(100)` pass through unchanged, with no change reported |
| RulePass.ExactTokenTwo | replace_border_radius.py:72 | the rule for 2 matches neither `circular(20)` nor `circular(12)` |
| RulePass.ExactTokenFour | replace_border_radius.py:72 | the rule for 4 matches neither `circular(4.5)` nor `circular(40)` |
| Paths.Dirname | replace_border_radius.py:26 | `dirname` drops exactly the last segment |
| Paths.CommonPrefixAgree | replace_border_radius.py:27 | the two paths agree up to the common-prefix length and differ right after it |
| Paths.RelSegmentsResolve | replace_border_radius.py:27 | following the relative path from the file's directory reaches the style module |
| Paths.ResolveUpDown | replace_border_radius.py:27 | one `..` per segment of the start past the shared prefix, then the rest of the target, reaches the target |
| Paths.ResolveAppend | replace_border_radius.py:27 | following a concatenation of segments is following one part, then the other |
| Paths.RelSegmentsLast | replace_border_radius.py:27 | unless the target is an ancestor of the start, the relative path ends with the target's last segment |
| Paths.RelSegmentsBelow | replace_border_radius.py:93 | a file below the root is named relative to the root by the segments after the root |
| Paths.RelSegmentsBelowRoot | replace_border_radius.py:24-30 | from a directory below the library root that is not in `core`, the path goes up once per directory and then down to `core/theme/app_spacing.dart` |
| Paths.RelativeImportBelowRoot | replace_border_radius.py:24-30 | for such a file, the import line is `import '../…/core/theme/app_spacing.dart';` with one `../` per directory |
| Paths.CommonPrefixUnderRoot | replace_border_radius.py:27 | two paths below the same root share at least the root |
| Paths.RelSegmentsUnderRoot | replace_border_radius.py:27 | from any directory below the root, a character other than `.` that no segment of `core/theme/app_spacing.dart` holds occurs in no segment of the relative path |
| Paths.RelativeImportUnderRoot | replace_border_radius.py:24-30 | a character other than `.` and `/` that is neither in `import ';` nor in a segment of `core/theme/app_spacing.dart` does not occur in the import line of any file below the root |
| Paths.RelativePathShape | replace_border_radius.py:27-29 | the relative path has no backslash and ends with `app_spacing.dart` |
| Paths.RelativeImportMentions | replace_border_radius.py:24-30 | the import line mentions `app_spacing.dart` |
| Paths.ImportStatementChars | replace_border_radius.py:30 | the import statement adds only the characters of `import ';` to the path's |
| Paths.ReplaceCharSuffix | replace_border_radius.py:29 | replacing backslashes keeps a suffix that has none |
| Paths.JoinSegmentsLast | replace_border_radius.py:27 | a joined relative path ends with its last segment |
| Imports.LastImportIndexSpec | replace_border_radius.py:49-53 | the index found is an import line and no later line is one; -1 means that no line is one |
| Imports.FindLastImport | replace_border_radius.py:49-53 | the scan loop ends with the index of the last line whose stripped form starts with `import ` |
| Imports.InsertAfterLastImport | replace_border_radius.py:48-59 | split, scan, insert after the last import and join, or return the content when there is no import |
| Imports.AddImportIfNeeded | replace_border_radius.py:41-59 | `add_import_if_needed` returns what `EnsureImport` describes for the file's relative import line |
| Imports.EnsureImportUnchanged | replace_border_radius.py:41-59 | the content comes back unchanged exactly when it mentions `app_spacing.dart` or no line is an import line |
| Imports.EnsureImportGrows | replace_border_radius.py:55-57 | otherwise the result is strictly longer than the content |
| Imports.EnsureImportInserts | replace_border_radius.py:48-57 | for a newline-free import line, otherwise the result has one more line, the import line sits right after the last import line, and every original line keeps its content and order |
| Imports.InsertJoin | replace_border_radius.py:55-56 | inserting a line adds exactly a newline and the line at that point of the joined text |
| Imports.EnsureImportIdempotent | replace_border_radius.py:41-59 | when the import line mentions `app_spacing.dart`, a second call changes nothing |
| Imports.ImportStatementIsImport | replace_border_radius.py:30 | the generated import statement is itself an import line |
| Discovery.FindDartFiles | replace_border_radius.py:32-39 | the nested loops collect the candidate files of the walk in walk order |
| Discovery.CandidatesMembers | replace_border_radius.py:36-38 | a directory contributes exactly its file names ending in `.dart` that are not skipped |
| Discovery.DartFilesMembers | replace_border_radius.py:32-39 | the collected paths are exactly a walk directory followed by one of its candidate file names |
| Discovery.DartFilesNames | replace_border_radius.py:37 | every collected path ends with a `.dart` name outside the skipped files |
| Driver.ProcessFile | replace_border_radius.py:61-83 | the loop over the table and the import step give what `Transform` describes |
| Driver.TransformFlag | replace_border_radius.py:67-83 | `process_file` reports a change exactly when some rule matched, and with no change the content is the original |
| Driver.TransformChanged | replace_border_radius.py:74-83 | with an import line free of `B`, a change is reported exactly when the content differs |
| Driver.TransformClears | replace_border_radius.py:69-79 | after `process_file` no rule's pattern matches the file, the import included |
| Driver.TransformIdempotent | replace_border_radius.py:61-83 | a second run over the written file changes nothing and reports no change |
| Driver.ImportLineBelowRoot | replace_border_radius.py:24-30 | for every file below the root, `core` included, the import line holds no `B` |
| Driver.TransformIdempotentBelowRoot | replace_border_radius.py:61-83 | for every file below the root, the written content matches no rule, and rerunning leaves it as it is |
| Driver.EnsureImportClear | replace_border_radius.py:55-57 | adding a match-free import line keeps a match-free text free of matches |
| Driver.NoMatchInsert | replace_border_radius.py:55-56 | the same for a line inserted between the lines of a text |
| Driver.RunFiles | replace_border_radius.py:85-92 | the batch rewrites files but never adds or removes one |
| Driver.RunBatch | replace_border_radius.py:85-97 | the loop of `main` gives the batch's tree and updated files, counts every update, and reports each updated file relative to the root, in update order |
| Driver.RunFilesEffect | replace_border_radius.py:85-92 | over distinct files, each processed file holds its transformed content, every other file is untouched, and the updated files are those a rule fired on |
| Driver.RunBatchLeavesOthers | replace_border_radius.py:85-92 | skipped files and non-`.dart` files are never rewritten or reported |

## Left out

- Reading and writing files and `os.walk`: the walk is a given sequence of entries, and the tree maps each path to its decoded content.
- What text-mode I/O does to that content is not modelled. This covers the `encoding='utf-8'` decoding and the newline translation of `open(filepath, 'r')` at line 63, which turns `\r\n` and a lone `\r` into `\n`, so the split at line 48 never sees a `\r`. It also covers the write at lines 80-81, which emits `os.linesep` for each `\n`, so on POSIX an updated CRLF file comes back with LF line endings.
- `__file__` and `abspath`: the library root is a parameter.
- The unused `dirnames` of the walk are carried in `WalkEntry` but play no part.
- `main` sorts the collected paths before processing them. `RunBatch` takes them in walk order. `RunFilesEffect` shows that over distinct paths the final contents and the set of updated files do not depend on the order. Only the order of the report would differ.
- `print` of each updated path and of the total: the report and the count are out-parameters of `RunBatch`.
- General `re` semantics: each rule is modelled by its two literal needles.
- `str.strip` removes the ASCII characters Python counts as whitespace: space, `\t`, `\n`, `\v`, `\f`, `\r` and `\x1c` to `\x1f`. Non-ASCII whitespace is not modelled.
- `os.path.relpath` on normalised paths only. There are no drive letters, symlinks or `.`/`..` segments in the inputs, and the paths are given as segment lists. The backslash replacement is modelled, but a segment list never produces a backslash separator.
- Distinct paths: `RunFilesEffect` and `RunBatchLeavesOthers` assume that the walk lists no path twice, as `os.walk` does.
- Driver.TransformClears assumes that the import line holds no `B`, since otherwise the import line could itself form a match. `Driver.ImportLineBelowRoot` discharges this for every file below the library root.
- Driver.TransformChanged assumes the same `B`-free import line, for the same reason and with the same discharge.
- Driver.TransformIdempotent assumes the same `B`-free import line. `Driver.TransformIdempotentBelowRoot` states idempotence without that assumption for every file below the library root.
- Rewrite.ExactToken speaks only of arguments with no `B` and no `)`. An argument that holds a nested call, such as `BorderRadius.circular(BorderRadius.circular(8))`, does match, and `RulePass.PassOccurrence` covers it.
- RulePass.AbsentLiteral is limited to the same arguments, for the same reason.
- RulePass.PassThrough is limited to the same arguments, for the same reason.
- Imports.EnsureImportInserts assumes the import line holds no newline. A directory name containing `\n` would make the source insert more than one line.
- Imports.EnsureImportIdempotent assumes the import line mentions `app_spacing.dart`. `Paths.RelativeImportMentions` proves this for every file whose directory is not below the style module's path.
