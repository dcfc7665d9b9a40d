# xlsx-diff core in Dafny

This project models the computing core of xlsx-diff, a tool that compares two
versions of a spreadsheet workbook. It has two parts.

- **The row diff engine**, `myersDiff` (src/diff.ts). This is Myers'
  shortest-edit-script search over two row sequences. The forward pass keeps
  the furthest-reaching table `v` in an array of size 2(n+m)+1 indexed by
  diagonal plus offset. Before each depth it saves a copy of `v` into `trace`.
  The backward pass `buildPath` walks the saved copies from the corner (n, m)
  back to depth 0 and puts one Insert or Delete in front of the result per
  depth. Rows are compared with `deepEqual`.
- **The workbook orchestrator**, `buildDiff` (src/index.ts). It computes the
  added and removed sheet names and runs `myersDiff` on every shared sheet, in
  old-workbook order. It drops edit items whose row holds only `null` or `''`,
  files each shared sheet as unchanged or modified, and assembles the report.

Files and modules:

- `types.dfy` (`Types`): cells (`Str | Num | Bool | Null`), rows, `DiffItem`
  (`Insert(new_index, value) | Delete(old_index, value)`), workbooks and the
  report records of src/types.ts.
- `edit_graph.dfy` (`EditGraph`): the edit grid, the insert/delete distance
  `Cost`/`EditDistance`, and what a set of removed positions keeps (`Kept`).
  It also proves the lower bound behind minimality.
- `edit_script.dfy` (`EditScript`): what a list of `DiffItem`s means as an
  edit script: well-formed, increasing, reconstructing.
- `furthest.dfy` (`Furthest`): the values the forward pass writes, `FR(d, k)`,
  as pure functions. It proves Myers' lemma: `FR(d, k)` is the furthest point
  on diagonal k that d edits can reach. The search therefore first reaches the
  corner at depth `EditDistance`.
- `backtrace.dfy` (`Backtrace`): `Backtrack`, the items `buildPath` emits, and
  `Script`, the result of `myersDiff`. It proves what the script is.
- `table.dfy` (`Table`): what the live table, each saved copy and the
  backward walk hold at every loop step.
- `diff.dfy` (`Diff`): the imperative engine. `MyersDiff` (the two early
  returns), `SearchPaths` (the loop over d), `SearchDepth` (the loop over k),
  `FollowSnake`, `RetreatSnake` and `BuildPath` work on an `array<int>` and a
  `seq<seq<int>>` trace, as the source does.
- `filters.dfy` (`Filters`): `Array.prototype.filter` and subsequences.
- `orchestrator.dfy` (`Orchestrator`): `buildDiff` and its lemmas.
- `scenarios.dfy` (`Scenarios`): the insert, delete and replaced-row cases
  of tests/diff.test.ts, derived from the general facts about the script.

The model has no I/O. The workbooks `buildDiff` receives are parameters; the
loader that produces them is not part of this model.

Three facts about the code that the model makes explicit:

- At src/diff.ts:45 and :97 the lowest diagonal k = -d always takes its step
  from diagonal k + 1, which is a vertical move, an insert. The model encodes
  this rule as `PrevDiag` and `PrevK`.
- The test at src/index.ts:78 counts the empty string `''` as empty, like
  `null`, so a row of only `null` and `''` cells is dropped. The model's test
  is `HasContent`.
- `Partition` holds without any assumption that sheet names are unique: a
  repeated old name is filed the same way each time, because its filtered
  diff depends only on the name.

## Model

| member | source | states |
|---|---|---|
| Diff.MyersDiff | src/diff.ts:7-70 | the result is `Script(old, new)`: well-formed, deletes and inserts in increasing index order, it reconstructs (kept old rows equal kept new rows), and its length is the insert/delete edit distance |
| Diff.SearchPaths | src/diff.ts:33-69 | for two non-empty sequences, the depth loop with its saved copies of `v` ends in `buildPath` at depth `EditDistance` and returns `Script(old, new)`; the fallback after the loop is never reached |
| Diff.SearchDepth | src/diff.ts:42-64 | one depth of the forward pass writes `FR(d, k)` on every diagonal of depth d and reads `v` only inside `[0, 2(n+m)]`; it stops exactly when d equals the edit distance, otherwise the table becomes the layer of depth d; every entry off depth d's diagonals keeps its old value |
| Diff.FollowSnake | src/diff.ts:51-56 | the snake loop stops at the end of the run of equal rows (`Slide`) and stays on its diagonal |
| Diff.RetreatSnake | src/diff.ts:106-110 | the backward snake loop stays on its diagonal and stops at the first point where x or y no longer exceeds the predecessor's end point |
| Diff.BuildPath | src/diff.ts:80-134 | walking the saved tables from (n, m) gives exactly `Backtrack` of the corner diagonal at depth `EditDistance`, reading every table inside its bounds |
| Diff.DeepEqual | src/diff.ts:72-78 | two rows are `deepEqual` exactly when they are equal: same length and equal cells |
| Table.StartFromTable | src/diff.ts:97-103 | read off a saved copy of depth d-1, the tie-break (`Table.PrevK`, the table form of lines 45 and 97) reads inside the table and picks the same predecessor diagonal as the forward rule, whose entry gives the snake start |
| Table.TableStart | src/diff.ts:45-49 | during depth d the neighbours of diagonal k in the live table still hold depth d-1's values, so the forward rule computes the snake start |
| Table.WalkStep | src/diff.ts:106-130 | one depth d > 0 of the backward pass emits the backtrace's item for that depth in front of the result and moves to the predecessor's end point |
| Furthest.FRFurthest | src/diff.ts:39-58 | Myers' lemma: every point reachable with at most d edits on a diagonal of depth d's parity lies at or before `FR(d, k)` |
| Furthest.FRReachable | src/diff.ts:39-58 | every table value `FR(d, k)` is reachable with at most d edits and has x >= 0 and y >= 0 |
| Furthest.ReachesCorner | src/diff.ts:39-63 | at depth `EditDistance` the diagonal n - m reaches exactly the corner (n, m) |
| Furthest.HitIsCorner | src/diff.ts:58-63 | no diagonal reaches x >= n and y >= m before depth `EditDistance`; the first hit is the corner diagonal, stopping at x = n |
| EditGraph.EditDistanceBounds | src/diff.ts:13-39 | the edit distance, hence the last depth d, lies between the absolute difference of n and m and n + m and has the parity of n + m |
| EditScript.EditDistanceIsMinimal | src/diff.ts:39-62 | any item list that reconstructs has at least `EditDistance` items |
| EditScript.EmptyScript | src/diff.ts:39-62 | the empty script reconstructs exactly when the sequences are equal |
| Backtrace.BacktrackShape | src/diff.ts:106-128 | the backtrace from depth d has exactly d items, each naming an existing row and carrying it, with strictly increasing delete and insert indices |
| Backtrace.BacktrackKeeps | src/diff.ts:91-131 | the backtrace to a point (x, y) keeps the same rows of a[..x] and b[..y] |
| Backtrace.ScriptWellFormed | src/diff.ts:112-129 | every Delete names an old index in range and carries that old row, every Insert a new index in range with that new row; both index lists strictly increase |
| Backtrace.ScriptReconstructs | src/diff.ts:91-131 | the old rows no Delete names, in order, equal the new rows no Insert names, in order |
| Backtrace.ScriptLength | src/diff.ts:112-130 | the script has exactly `EditDistance` items, one per depth d > 0 |
| Backtrace.ScriptIsShortest | src/diff.ts:39-131 | no reconstructing item list is shorter than the script |
| Backtrace.ScriptOfEmptyOld | src/diff.ts:15-22 | with no old rows, the script (`Backtrace.InsertAll`) is one Insert per new row, in order, `new_index = i`, value the i-th new row |
| Backtrace.ScriptOfEmptyNew | src/diff.ts:24-31 | with no new rows, the script (`Backtrace.DeleteAll`) is one Delete per old row, in order, `old_index = i`, value the i-th old row |
| Backtrace.ScriptOfIdentical | src/diff.ts:39-62 | equal sequences give the empty script |
| Backtrace.ScriptEmptyIff | src/diff.ts:39-62 | the script is empty exactly when the two sequences are equal |
| Scenarios.ScenarioInsert | tests/diff.test.ts:12-22 | `[["a","b"]]` to `[["a","b"],["c","d"]]` gives exactly `[Insert(1, ["c","d"])]` |
| Scenarios.ScenarioDelete | tests/diff.test.ts:24-34 | `[["a","b"],["c","d"]]` to `[["a","b"]]` gives exactly `[Delete(1, ["c","d"])]` |
| Scenarios.ScenarioReplace | tests/diff.test.ts:45-58 | `[["1","2"],["3","4"],["5","6"]]` to `[["1","2"],["7","8"],["5","6"]]` gives exactly `[Delete(1, ["3","4"]), Insert(1, ["7","8"])]`, so the test's two items, one Delete and one Insert, hold |
| Scenarios.ReplaceSearch | src/diff.ts:39-63 | on that input depth 0 slides to x = 1, depth 1 reaches x = 2 on diagonal 1 and x = 1 on diagonal -1, so the tie-break at depth 2 steps from diagonal 1 |
| Scenarios.ReplaceBacktrack | src/diff.ts:91-131 | on that input the backward pass emits the delete of old row 1 at depth 1, then the insert of new row 1 at depth 2 |
| Orchestrator.AddedSheets | src/index.ts:59-61 | the added names are a subsequence of the new names, every occurrence of each name the old workbook lacks and nothing else |
| Orchestrator.RemovedSheets | src/index.ts:63-65 | the removed names are a subsequence of the old names, every occurrence of each name the new workbook lacks and nothing else |
| Orchestrator.NoiseFilter | src/index.ts:76-81 | the filtered diff is a subsequence of the diff holding exactly the items whose row has a cell other than null and '', each as often as before |
| Orchestrator.NoiseFilterKeepsFalsyValues | src/index.ts:78 | an item whose row holds 0 or false survives the filter; one whose cells are all null or '' does not |
| Orchestrator.BuildDiff | src/index.ts:50-110 | the classification loop returns `Report`: added, removed, the unchanged and modified lists of the old names, and the origin data |
| Orchestrator.DiffSheet | src/index.ts:73-81 | a shared sheet's filtered diff is `myersDiff` of its old and new rows, then the noise filter, as `SheetDiff` specifies |
| Orchestrator.ClassifyStep | src/index.ts:68-92 | one loop turn appends the old name at i to unchanged when its filtered diff is empty, to modified with that diff otherwise, and does nothing for a name the new workbook lacks |
| Orchestrator.ClassifyMembers | src/index.ts:68-92 | a visited name is unchanged exactly when it is shared and its filtered diff is empty; it is modified exactly when shared with a non-empty filtered diff, which the entry carries |
| Orchestrator.Partition | src/index.ts:59-92 | every name of either workbook is in exactly one of added, removed, unchanged and modified, and no list holds a name of neither; a shared name is unchanged exactly when its filtered diff is empty |
| Orchestrator.ModifiedDiffs | src/index.ts:73-90 | a modified sheet's diff is non-empty, is the noise-filtered subsequence of `myersDiff` of its rows, and holds no row of only null or '' |
| Orchestrator.ReportData | src/index.ts:94-109 | in the result `Orchestrator.Assemble` builds, `data.old.sheet_names` and `data.new.sheet_names` are the input name lists; `data.*.data` is the input row map when raw data is requested and null otherwise |
| Orchestrator.SelfDiff | tests/integration.test.ts:81-89 | a workbook diffed against itself has no added, removed or modified sheet, and its unchanged list is its sheet-name list |

## Left out

- src/parse.ts (`loadWorkbook`, `parseWorksheet`, `convertCellValue`) is not part of this model. It is glue over the xlsx library and JavaScript's date and string conversions. Its row-drop rule (a row is kept only when it has content) is not needed by any proof and is not imposed on the workbooks.
- `diffXlsx` and `diffXlsxFromBuffer` (src/index.ts:19-44) read files and buffers; the model starts from two loaded workbooks. The re-exports at src/index.ts:112-115 add no behaviour.
- Orchestrator.BuildDiff requires every shared sheet name to have rows in both workbooks, as the loader guarantees. Without them the source calls `myersDiff` on `undefined` and throws; that crash is not modelled.
- JavaScript numbers: `Num` carries an integer, so floating point and `NaN !== NaN` inside `deepEqual` are not modelled. `deepEqual` is modelled only on rows of cells, the one way the core calls it.
- The non-array branch of the noise filter (src/index.ts:80) cannot be reached with rows, and `undefined` cells do not occur, so neither is modelled.
- The `'Equal'` tag of `DiffItem` (src/types.ts:4) is never produced and is not modelled. The null index of each item is absent from its constructor instead of being a null field.
- `myersDiff` is generic in the source; the model fixes its element type to rows, the one type the core diffs.
- The fallback `return []` after the depth loop (src/diff.ts:69) is proved unreachable, since the search always stops by depth n + m.
