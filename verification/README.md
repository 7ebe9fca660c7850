# npm_plugin report pipeline in Dafny

A functional model of the report-shaping core of the npm security plugin (`report.js`). The plugin runs ESLint with the `security` rule set over a project's JavaScript files. For each diagnostic it:

- maps the rule id to a vulnerability class (`EslintMap`);
- derives an *instance hash* from the revision, the file's path relative to the project root and the offending source text;
- attaches `git blame` records for the diagnostic's lines.

It then replaces each file's source text by its parsed syntax tree. `createReport` puts that result together with the dependency audit, host name, dependency list and VCS information into one nested bundle.

Modules:

- `Js` (js.dfy): the JavaScript semantics the code relies on. This covers `null`, thrown errors and `slice` with negative and out-of-range indices. It also covers `indexOf`/`replace` with a string pattern (first occurrence only), `split` on `'\n'`, `join`, and how `null` concatenates into a string (`"null"`).
- `Eslint` (eslint.dfy): the analyzer output as read by the pipeline.
- `Taxonomy` (taxonomy.dfy): `EslintMap` and the rule-id rewrite.
- `Identity` (identity.dfy): line/column normalisation, span selection, the `replace('\s', '')` step, the relative path and the hashed string.
- `Blame` (blame.dfy): the raw blame lookup and `_assignBlame`.
- `Normalizer` (normalizer.dfy): `prepareEslint`.
- `Bundle` (bundle.dfy): the target flattening of `runEslint` and the data shaping of `createReport`.

The foreign functions are parameters. These are MD5, the tolerant Esprima parse (returning `None` where it throws), `Vcs.genBlame`, the ESLint run, `Vcs.parseBlm`, and the values of `hostname`, `Vcs.getHash/getProject/getBlame/getURL` and `Files.getDependencyList`. They are grouped in the datatypes `Normalizer.Tools` and `Bundle.Environment`. The syntax tree, blame record, `parseBlm` result and audit JSON are type parameters.

The instance hash is MD5 of `Identity.HashInput`, a function of the revision, the relative path and the span, so identical inputs always give identical hashes.

Two quirks of the code are modelled literally:

- `'\s'` in a JavaScript string literal is the one-letter string `"s"`. So the span loses its first letter `s`, and whitespace is never stripped (`Identity.StripFirstS`).
- The column-slice branch tests `start_line === end_line && end_line === 1`, where `start_line` is 0-based and `end_line` is not. It therefore fires only for `line == 2 && endLine == 1` (`Identity.ColumnSliceOnlyForLineTwoEndingAtOne`).

Three behaviours of the code are modelled as written:

- The normalised start line, end line and column are locals only. They are not written back into the message.
- The diagnostic's message text is kept. Only the file-level `source` field is removed.
- The relative path replaces the first occurrence of the root path anywhere in the file path. It is not a prefix replacement.

## Model

| member | source | states |
|---|---|---|
| Taxonomy.Classify | report.js:140-142 | a rule id that is a key of `EslintMap` becomes its label; any other id, including a null one, is returned unchanged |
| Taxonomy.ClassifyChangesExactlyMappedIds | report.js:140-142 | the rule id changes if and only if it is a key of the table, and a changed id is always one of the class labels |
| Taxonomy.ClassifyIdempotent | report.js:140-142 | rewriting an already rewritten id changes nothing, because no label is itself a rule id |
| Taxonomy.LabelsAreNotRuleIds | report.js:11-23 | no label text of the table is one of its keys |
| Taxonomy.EveryLabelReachable | report.js:11-23 | every class of the closed label set is the target of at least one rule |
| Identity.Range | report.js:135-137 | start line is `line - 1`; a missing `endLine` makes the range exactly the diagnostic's own line; a missing column is 0 |
| Identity.ColumnSliceOnlyForLineTwoEndingAtOne | report.js:144 | the column-slice test (`Identity.TakesColumnSlice`) holds if and only if `line == 2` and `endLine == 1`, and never without an `endLine` |
| Identity.Span | report.js:144-145 | in the column-slice case the span is the source from the column to `endColumn`, or to the end when `endColumn` is absent; otherwise it is the lines `[start, end)` of the range joined without separator; bounds past the end are clamped and an inverted range gives the empty text, as `slice` does |
| Identity.SpanPastLastLineIsTruncated | report.js:145 | an `endLine` past the last `'\n'`-separated line (ESLint also breaks lines at `\r`, U+2028 and U+2029) cuts the span at the end of the file: lines 2-5 of `a\nb` give `b` |
| Identity.DefaultSpanIsOwnLine | report.js:144-145 | a diagnostic without `endLine` whose line exists is identified by the text of that line |
| Identity.StripFirstS | report.js:144-145 | a string without `s` is unchanged; otherwise exactly the character at the first `s` is removed, the text before and after it kept in order; every other character, whitespace included, keeps its count |
| Identity.InstanceData | report.js:144-145 | the identifying text is the span with its first `s` removed and everything else in order, or the span itself when it holds no `s` |
| Identity.Relative | report.js:127 | the first occurrence of the root, wherever it is, becomes `"."`; a path that starts with the root becomes `"."` plus the rest; a path not containing the root is unchanged |
| Identity.RelativeReplacesInsidePath | report.js:127 | a root that occurs inside the path rather than at its start is cut out there: root `/p` turns `/w/p/a.js` into `/w./a.js` |
| Identity.HashInput | report.js:146 | the hashed string is the revision text (`null` when absent), then the relative path, then the span, each at its own position and nothing else |
| Identity.HashInputSeparatesSpans | report.js:146 | for one revision and path, two spans give the same hashed string if and only if they are equal |
| Identity.NullRevisionIsLiteralNull | report.js:146 | a missing revision hashes exactly like the revision named `"null"` |
| Identity.PathSpanBoundaryIsAmbiguous | report.js:146 | path and span are joined without separator, so `./a`+`bc` and `./ab`+`c` hash alike |
| Identity.HashStableUnderLineDrift | report.js:144-146 | two diagnostics whose line ranges hold the same text get the same instance hash, whatever their line numbers and rules |
| Blame.RawBlame | report.js:128 | a file with no blame entry, or with empty (falsy) blame text, has no blame lines; otherwise the lines rejoin to the blame text and hold no newline |
| Blame.AssignBlame | report.js:105-114 | no raw lines gives null; otherwise `genBlame` of the lines `[start, end)` in order, with length `max(0, min(end,n) - min(start,n))` |
| Blame.AssignBlameInRange | report.js:109-113 | a range inside the blame text gives exactly `end - start` records |
| Blame.AssignBlameInvertedRange | report.js:109 | an inverted range gives an empty list, not null and not an error |
| Normalizer.LookupBlame | report.js:128 | with no blame map no file has blame lines; with one, the lines are the file's blame lines |
| Normalizer.Context | report.js:126-129 | the per-file values: the source lines are at least one, hold no newline and rejoin to the source (so they are exactly `split('\n')`), the relative path, the blame lines |
| Normalizer.ContextLinesDetermined | report.js:129 | a newline-free list of lines rejoins to the source if and only if it is the context's lines |
| Normalizer.PrepareMessage | report.js:134-149 | the rule id is classified, the other fields are kept, the instance hash is MD5 of `Identity.HashInput` over revision, relative path and `Identity.InstanceData`, and the blame is `Normalizer.MessageBlame` of the diagnostic |
| Normalizer.MessageBlame | report.js:135-148 | the blame is null exactly when the file has none; otherwise record `k` is `genBlame` of blame line `line - 1 + k`, and there are `max(0, min(end,n) - min(line-1,n))` of them |
| Normalizer.PrepareMessages | report.js:134 | one prepared message per diagnostic, in the same order |
| Normalizer.PrepareReport | report.js:125-154 | same path, same number of messages each prepared with the file's values, `ast` is the parse result (null if it throws), no source field |
| Normalizer.PrepareEslint | report.js:124-156 | the same files in the same order, each prepared on its own |
| Normalizer.PrepareEslintAsWritten | report.js:124-128 | with a null blame map and at least one file the code throws; when it returns, it returns one result per file |
| Normalizer.AsWrittenAgreesWithBlameMap | report.js:124-156 | whenever a blame map is present (or there are no files) the code as written returns the corrected model's result |
| Normalizer.AsWrittenThrowsWithoutBlameMap | report.js:128 | one file result and a null blame map make the code as written throw |
| Normalizer.PrepareEslintAppend | report.js:125 | preparing two lists of files back to back is preparing each list separately |
| Normalizer.NoBlameMapMeansNullBlame | report.js:106 | with no blame map every prepared diagnostic has a null blame |
| Normalizer.DefaultBlameIsOwnLine | report.js:135-136 | a diagnostic without `endLine` on an existing blame line gets exactly that line's record |
| Normalizer.MappedRuleWithBlame | report.js:134-148 | a mapped rule on line 3 of a file with four blame lines is labelled and gets one blame record, for line 3 |
| Bundle.Targets | report.js:84-89 | the reference target list has exactly one entry per listed file (the full characterisation is `Bundle.TargetsExactlyListedFiles`) |
| Bundle.Prefixed | report.js:86-88 | each of a directory's files becomes the directory key followed by the file name, in order |
| Bundle.TargetsExactlyListedFiles | report.js:84-89 | one target per listed file, and a path is a target if and only if it is a directory key followed by one of its files |
| Bundle.FlattenTargets | report.js:84-89 | the nested loop builds exactly the reference target list, with one entry per listed file |
| Bundle.RunEslint | report.js:58-91 | an absent listing gives null; otherwise the lint run over the flattened targets |
| Bundle.GatedVcs | report.js:182-188 | outside version control the hash, project name, blame map and URL are all null; inside, they are the VCS client's values |
| Bundle.CreateReport | report.js:176-219 | the corrected `createReport` (see Findings: it uses `Normalizer.PrepareEslint`, where the code as written throws outside git): exit code 0, root `"."`, absolute path, listing, host name, start time and dependencies copied; VCS fields null unless a git project; `parseBlm` gets a null blame map outside git; the findings are the prepared lint results |
| Bundle.NonGitReportHasNullVcsData | report.js:182-195 | for the corrected `createReport` outside version control (the code as written throws, see Findings): the bundle is produced, every blame is null, and every instance hash is MD5 of `"null"` + the relative path + the instance data |
| Bundle.Assemble | report.js:197-216 | the nested bundle: start time, host name, audit data, findings, project name, dependencies, absolute path, exit code 0, listing, root `"."`, and the VCS info of URL, revision and `parseBlm` of the blame map |
| Bundle.CreateReportAsWritten | report.js:176-219 | `createReport` as written: outside git with at least one lint result it throws; whenever it returns, exit code 0 and root `"."` |
| Bundle.CreateReportAsWrittenAgrees | report.js:176-219 | with a blame map inside git, or with no lint results, the code as written returns exactly the corrected bundle |
| Bundle.NoDiagnosticsNoFindings | report.js:195 | for the corrected `createReport` (outside git the code as written throws on any non-empty list of lint results, see Findings): a lint run with no diagnostics gives an empty findings list for every file |
| Js.Slice | report.js:109 | JavaScript `slice`: with `from`/`to` the resolved indices (negative ones counted from the end, clamped to `[0, n]`, an absent end meaning `n`), the result has length `max(0, to - from)` and element `k` is `s[from + k]` |
| Js.SliceInRange | report.js:145 | a slice with in-range bounds is the ordinary subsequence |
| Js.IndexOfFrom | report.js:127 | the first occurrence of the pattern at or after the start position, or -1 when there is none |
| Js.IndexOf | report.js:127 | -1 if and only if the pattern does not occur; otherwise the first occurrence |
| Js.JoinShape | report.js:145 | `join` (`Js.Join`): no pieces give `""`; the first piece leads; with two or more pieces the separator follows the first |
| Js.JoinLength | report.js:145 | a join is as long as all pieces plus one separator between each neighbouring pair |
| Js.ReplaceFirst | report.js:127 | only the first occurrence is replaced, and a string without the pattern is unchanged |
| Js.Split | report.js:129 | splitting on a character gives at least one piece, no piece holds the separator, and the pieces rejoin to the input |
| Js.JoinInjective | report.js:129 | separator-free pieces are determined by their joined text |
| Js.SplitJoin | report.js:128-129 | splitting a join of separator-free pieces gives the pieces back |
| Js.NullableText | report.js:146 | a null revision is concatenated as the text `null` |

## Left out

- `runAudit` (report.js:36-50) runs `ls`, `npm i` and `npm audit` as shell commands. `createReport` receives the audit result already parsed as `data`, and a failing `JSON.parse` is not modelled.
- The ESLint `CLIEngine` configuration and `getErrorResults` (report.js:63-81, 91-92) are external tools. The lint run is the `lint` parameter, from target list to file results.
- MD5, the Esprima parser, `Vcs.genBlame` and `Vcs.parseBlm` are foreign functions, taken as parameters. The values of `hostname`, `Vcs.getHash`, `Vcs.getProject`, `Vcs.getBlame`, `Vcs.getURL` and `Files.loadPackage`/`Files.getDependencyList` are parameters too. `vcs.js`, `file.js` and `common.js` are not part of this model, so dependency-list extraction is not modelled.
- git.js and main.js are process and network glue (simple-git wrappers, CLI checks, exit codes, the scan service). They do not call this core.
- Bundle.CreateReport: the file listing is always present. With a null `root_json`, `runEslint` returns null and `prepareEslint` would throw on `null.forEach`; that path is not modelled. `Bundle.RunEslint` does model the null result itself.
- ESLint result and message fields the pipeline neither reads nor writes (`errorCount`, `nodeType`, `fix`, …) are not modelled; the code passes them through untouched.
- A message without a `line` (which would make `start_line` NaN) is not modelled; `line` is always an integer.
- `Object.keys` ordering: the listing is given in key order. JavaScript's hoisting of integer-like keys is not modelled.
- Mutation in place and the implicit global scratch variables of `prepareEslint` are modelled as fresh values and locals. Nothing outside one iteration observes them.
- Console logging is not modelled.
- Identity.Span: a diagnostic on line 0, or with a negative column or `endColumn`, would give `slice` a negative index counted from the end. The contract does not describe that case, because ESLint reports 1-based lines and 0-based columns.
- Js.Slice: string indices count Unicode scalar values, while JavaScript `slice` counts UTF-16 code units. A character outside the Basic Multilingual Plane before the column shifts the column-slice span (`Identity.Span`).
- Js.ReplaceFirst: `$` replacement patterns are not modelled; every replacement string in the code (`"."`, `""`) is free of them.

## Findings

| source | as written | input that shows it | evidently intended | confidence | as-written member | corrected member |
|---|---|---|---|---|---|---|
| report.js:128 | `createReport` passes `blame_inf = null` when `is_git` is false, and `prepareEslint` then reads `blame_inf[f_path]`, which throws a TypeError | `createReport(data, start, root, listing, false)` where the ESLint run returns at least one file result | without version control no file has blame: every `blame` is null and the bundle is still returned | high; not executed | Normalizer.PrepareEslintAsWritten and Bundle.CreateReportAsWritten (counterexample: Normalizer.AsWrittenThrowsWithoutBlameMap) | Normalizer.PrepareEslint and Bundle.CreateReport (with Normalizer.NoBlameMapMeansNullBlame and Bundle.NonGitReportHasNullVcsData) |
