# TranslationTool in Dafny

TranslationTool converts the JSON translation files of an application to
spreadsheets and back. It has two scripts:

- `json2excel.js` reads a directory of JSON files. That is either one flat
  directory of base-language (`en`) files, or one directory per language.
  It turns every tree into rows `{Key, English, Translation}`. A row's Key is
  `<file>:<dotted.path>`. The script also builds a merged workbook whose rows
  are concatenated per language.
- `excel2json.js` reads the rows back. It splits each Key into a file name
  (the group id) and a property path, and writes the cell's value into a
  nested tree at that path. Each output tree starts either from `{}` or
  from the locale file the language already has. A missing locale file
  suppresses the output.

This project models the core of both scripts and proves its properties.
It has these modules:

- `JsonTree`: JSON values, with objects as insertion-ordered member
  sequences, JavaScript truthiness, and property read and write.
- `Text`: `split`, `join` and `path.basename(name, ext)`.
- `Flattener`: the `iterateObject` walk and its reference, the list of
  truthy leaves.
- `SheetAssembler`:
  - `_getMultiSheetConfig`, as a loop over the directory listings;
  - the `MERGE_DATA` lists, as a class whose methods push rows.
- `Unflattener`: key parsing, `_createNestedObject` as a loop with a cursor,
  and the application of a sheet's rows.
- `Reconcile`: `_updateNonmergeJsonData`, and `_updateMergeJsonData` as a loop
  over its three state variables, specified by the runs of equal group id.
- `RoundTrip`: rows of a tree on the base sheet, written back into `{}`, give
  the tree.

File-system state is an input:
- a directory listing is a sequence of names;
- a parsed file is a tree in a map;
- the locale store is two booleans (a locales path was given, the language
  directory exists) plus a map of the locale files it holds.

Nothing is read or written. A file the scripts would write is a value of the
form `Output(dir, file, tree)`.

## Model

| member | source | states |
|---|---|---|
| JsonTree.GetKeys | excel2json.js:184-185 | A property is present exactly when its name is one of `Object.keys`, and it is then a member of the object. |
| JsonTree.Put | excel2json.js:184-185 | `o[k] = v` reads back `v` at `k`; every other property reads as before; an existing key keeps its position and a new key goes last. |
| JsonTree.PutSame | excel2json.js:185 | Writing back the value a property already holds leaves the object unchanged. |
| JsonTree.PutPut | excel2json.js:184-185 | A second write to the same property overrides the first. |
| JsonTree.PutNew | excel2json.js:184-185 | Writing a property that is not there appends it as the last member. |
| JsonTree.PutWellFormed | excel2json.js:184-185 | A write keeps every object's property names distinct. |
| Text.SplitPieces | excel2json.js:90-92 | No piece of `s.split(sep)` contains the separator. |
| Text.SplitJoin | excel2json.js:92 | Splitting a join gives back the pieces when none contains the separator. |
| Text.JoinSplit | excel2json.js:92 | Joining a split gives back the text: nothing is lost. |
| Text.SplitHead | excel2json.js:90-91 | `split(sep)[0]` is the text before the first separator. |
| Text.SplitLast | excel2json.js:92 | `split(sep).pop()` is the text after the last separator. |
| Text.BasenameStrips | json2excel.js:171 | For every name `n` without `/`, including the empty one, `path.basename(n + ext, ext)` is `n`. So a path equal to `ext` gives "". |
| Text.BasenameKeeps | json2excel.js:171 | A name without `/` that does not end with `ext` comes back unchanged. |
| Text.BasenameDir | excel2json.js:97 | Everything up to the last `/` is dropped. The last segment loses `ext` only when it is longer than `ext` and ends with it; a segment equal to `ext` is kept whole. |
| Text.BasenameDirStrips | excel2json.js:97 | Below a directory, `<m><ext>` with a non-empty `m` gives `m`. |
| Text.BasenameNodeExample | excel2json.js:97 | `path.basename('/foo/bar/baz/asdf/quux.html', '.html')` is `quux`. |
| Text.BasenameDirExtension | excel2json.js:97 | `path.basename('dir/.json', '.json')` is `.json`: a segment equal to the extension stays. |
| Flattener.WalkRows | json2excel.js:172-201 | `iterateObject` emits exactly one row per truthy non-object leaf, in leaf order. The key is the dotted prefix plus the path; the English/Translation cells come from the leaf and from the chained base lookups below the same keys. |
| Flattener.SheetRowsSpec | json2excel.js:163-205 | A sheet has one row per leaf, depth first. The key is the file name without `.json`, `:`, then the dotted path. The `en` sheet has English = the value and no Translation. Other sheets have Translation = the value and English = the base tree's value at the same path. |
| Flattener.LeavesExact | json2excel.js:176-198 | A (path, value) is a leaf exactly when the path is non-empty and resolves to that value, which is truthy and not an object. So falsy values and everything below them produce no row. |
| Flattener.LeafHeads | json2excel.js:173 | Every leaf path starts with a property name of the object walked. |
| Flattener.LeavesDistinctPaths | json2excel.js:172-200 | No two leaves of a well-formed tree share a path. |
| Flattener.WalkConcat | json2excel.js:173-200 | The rows of two member lists in sequence are the rows of the first, then those of the second. |
| Flattener.WalkCons | json2excel.js:173 | The rows of an object are the rows of its first member, then those of the rest. |
| Flattener.SubtreeContiguous | json2excel.js:176-179 | A nested object's rows come out together, at its parent key's position, built under the extended key and base. |
| Flattener.BaseAtUndefined | json2excel.js:175 | With no base tree, every English lookup is undefined. |
| Flattener.BaseAtFalsy | json2excel.js:175 | A falsy base value passes through `baseObject && baseObject[key]` unchanged, whatever path follows. |
| Flattener.BaseAtResolve | json2excel.js:175 | The chained base lookup along a path gives the base tree's value there, or undefined where the path is absent, or the falsy value that stops it. |
| Flattener.DotPathJoin | json2excel.js:178 | With a non-empty first segment, the stored key is the plain dot-join of the path and is non-empty. |
| Flattener.GreetExample | json2excel.js:163-205 | The rows of the `en` sheet of `greet.json` = `{a: {b: "hello", c: ""}, d: "world"}` are `greet:a.b` and `greet:d`; the empty value gives no row. |
| Unflattener.GroupIdOf | excel2json.js:90-91 | The group id of `<id>:<rest>` is `id` when `id` has no colon. |
| Unflattener.TreePathAfterColon | excel2json.js:92 | When the text after the last colon has no colon, the tree path is that text split on dots. |
| Unflattener.TreePathOf | excel2json.js:92 | The tree path of `<prefix>:<p joined by dots>` is `p` when no segment holds `.` or `:`. |
| Unflattener.KeyWithoutColon | excel2json.js:170 | A key without a colon is its own group id, and its path is the whole key split on dots. |
| Unflattener.KeyRoundTrip | excel2json.js:170 | The key the flattener builds for a path of safe segments parses back to that path. |
| Unflattener.SetPathStores | excel2json.js:182-187 | After the write, the value is stored at the full path. If a truthy primitive sits inside the path, the tree is unchanged. |
| Unflattener.SetPathElsewhere | excel2json.js:183-186 | Every path that parts ways with the written one leads to the same value as before. |
| Unflattener.SetPathKeys | excel2json.js:185 | At the top level the write keeps the old keys, in order, and adds the first segment last if it is new. |
| Unflattener.SetPathReuses | excel2json.js:185 | An object already on the path is reused, not replaced by `{}`: the same path still leads to an object whose keys are the old keys in the old order, followed by the next segment if it is new. |
| Unflattener.LastWriteWins | excel2json.js:183-186 | Writing the same path twice leaves what writing the second value once leaves. |
| Unflattener.SetPathIdempotent | excel2json.js:183-186 | Writing the same (path, value) twice gives what writing it once gives. |
| Unflattener.SetPathWellFormed | excel2json.js:183-186 | The write never gives an object two properties with the same name. |
| Unflattener.CreateNested | excel2json.js:182-187 | The cursor loop ends with the tree `SetPath(base, keys, value ? value : '')`. |
| Unflattener.ApplyRowsConcat | excel2json.js:166-173 | Applying two row sequences in order is applying the first, then the second. |
| Unflattener.FalsyCellIgnored | excel2json.js:171-172 | A row whose cell for the sheet (English on `en`, else Translation) is blank or falsy leaves the tree as it is. |
| Reconcile.LocaleFileOfWorkbook | excel2json.js:152 | The workbook `<n>.xlsx` (no `/` in `n`) has the locale and output file `<n>.json`; the workbook `.xlsx` has `.json`. |
| Reconcile.LocaleFileOfGroup | excel2json.js:97 | A group id without `/` that does not end with `.xlsx` looks up `<id>.json`. |
| Reconcile.LocaleFileIgnoresDir | excel2json.js:97 | The directory part of a group id is ignored in the lookup, unless the last segment is `.xlsx`. |
| Reconcile.LocaleFileExamples | excel2json.js:97 | The group `sub/agent` looks up `agent.json`, and the group `.xlsx` looks up `.json`. |
| Reconcile.UpdateNonmerge | excel2json.js:147-180 | No output exactly when the language directory exists but the file does not. Otherwise the output is `<name>/<excel basename>.json`, holding every truthy cell applied in order to `{}` (no locales path, or a new language) or to the loaded locale tree. |
| Reconcile.RunsUpTo | excel2json.js:123-136 | The runs of the first `i` rows: none for no rows; otherwise the last run has the last row's group id and ends with that row. |
| Reconcile.RunsConcat | excel2json.js:123-136 | The runs, put back together, are the rows read so far. |
| Reconcile.RunsGrouped | excel2json.js:127 | Every run is a non-empty stretch of one group id, and neighbouring runs have different ids. |
| Reconcile.RunsPartition | excel2json.js:123-136 | The runs of a sheet partition it: every row once, in order, in non-empty stretches of one group id, neighbours differing. |
| Reconcile.RunsJoin | excel2json.js:127 | A row with the previous row's group id joins the current run. |
| Reconcile.RunsOpen | excel2json.js:123-127 | The first row, or one whose group id differs, opens a new run. |
| Reconcile.ReadAfterReset | excel2json.js:94-113 | `_readLocaleFile` after `json = {}` yields the decision's start tree and `isLocaleFileExist` = the file is not missing. |
| Reconcile.OpenFirst | excel2json.js:123-126 | The first row reads the locale file of its group and opens the first run. |
| Reconcile.OpenSame | excel2json.js:127 | A row of the current group leaves the variables as the current run has them. |
| Reconcile.OpenNew | excel2json.js:127-136 | A change of group id writes the finished run, if its file was not missing, and starts the next run from `{}` or from its loaded locale file. |
| Reconcile.GroupBoundary | excel2json.js:123-136 | The head of the loop body: the first row reads its group's locale file; a change of group id writes the finished group unless its file was missing, resets `json` and reads the next group's file. |
| Reconcile.SkippedFacts | excel2json.js:138 | A row of a group whose locale file is missing changes none of the loop variables; the files written are those of the finished runs. |
| Reconcile.AppliedFacts | excel2json.js:140-142 | A row of a group whose file is not missing has its cell applied to the group's tree; the last row of the sheet writes the group. |
| Reconcile.CloseRow | excel2json.js:138-142 | Rows of a missing file are skipped; otherwise the cell is applied, and the last row writes its group. |
| Reconcile.FoldStep | excel2json.js:86-143 | One pass of the loop body keeps `json`, `previousKey` and `isLocaleFileExist` in step with the runs read so far. |
| Reconcile.FoldState | excel2json.js:86-143 | After any number of rows, the loop variables are those of the last run, and the files written are those of the finished runs. |
| Reconcile.FoldWrites | excel2json.js:116-142 | After the last row, the files written are one per run whose locale file is not missing, in run order. |
| Reconcile.UpdateMerge | excel2json.js:81-144 | The merged sheet writes `<name>/<group id>.json` once per run of equal group id whose locale file is not missing, in order. Each holds that run's truthy cells applied to its start tree. |
| SheetAssembler.BuildConfig | json2excel.js:91-114 | The nested loop over directories and their listings returns the configuration the entries define: `ConfigOf(dirs, listings)`. |
| SheetAssembler.RecordEntry | json2excel.js:99-110 | One entry: `.json` is skipped; a new file gets an empty list; `en` is unshifted and any other language pushed. |
| SheetAssembler.BaseFirstSnoc | json2excel.js:106-110 | Recording one more holder keeps the list as "all `en` first, the rest in order". |
| SheetAssembler.AssembleFiles | json2excel.js:93-113 | The configuration's files are the names other than `.json`, in order of first occurrence. |
| SheetAssembler.AssembleLangs | json2excel.js:93-113 | A file is configured exactly when it is not `.json` and some directory lists it. Its list is every holder, `en` occurrences first, the others in scan order. |
| SheetAssembler.ScanHolds | json2excel.js:93-98 | An entry (language, file) is seen exactly when some directory of that name lists the file. |
| SheetAssembler.ConfigFiles | json2excel.js:91-114 | The configured files are distinct and have lists. A name is a configured file exactly when it is not `.json` and some listing holds it. |
| SheetAssembler.ConfigLangs | json2excel.js:91-114 | A language is on a file's list exactly when its directory lists the file; `en`, when present, is first. |
| SheetAssembler.ConfigDistinct | json2excel.js:91-114 | With distinct directory names and listings, no file's list repeats a language. |
| SheetAssembler.MergedLists | json2excel.js:148-149 | After pushes, each language's list is its old list followed by the rows of its sheets in push order; a list exists exactly when it existed or a sheet has that language. |
| SheetAssembler.MergedConcat | json2excel.js:141-150 | Pushing the sheets of one batch and then another is pushing their concatenation, so the nested loops compose. |
| SheetAssembler.MergedOrder | json2excel.js:148-149 | Pushes keep the property order consistent with the lists; existing languages keep their position and new ones go last. |
| SheetAssembler.FromInitial | json2excel.js:16 | Starting from `{ en: [] }`, `en` stays the first sheet, and each language's list is exactly its sheets' rows in push order. |
| SheetAssembler.MergeData.constructor | json2excel.js:16 | `MERGE_DATA` starts as `{ en: [] }`. |
| SheetAssembler.MergeData.Push | json2excel.js:148-149 | Creates the language's list if absent and appends the sheet's rows; the object stays consistent. |
| SheetAssembler.MergeData.MergeBaseFiles | json2excel.js:74-88 | The `en` rows of every file except `.json` are pushed, in listing order. |
| SheetAssembler.MergeData.MergeConfigSheets | json2excel.js:137-151 | For every configured file, in order, and each language on its list, that sheet's rows are pushed. |
| SheetAssembler.MergeData.MergeNextFile | json2excel.js:141-150 | One configured file's sheets continue the merge of the files before it. |
| SheetAssembler.MergeData.MergeFileSheets | json2excel.js:142-149 | Each language on one file's list, in list order, has that sheet's rows pushed onto its own list. |
| SheetAssembler.CollectFile | json2excel.js:142-149 | One file's sheets contribute to a language exactly that language's sheet, if it is on the file's list. |
| SheetAssembler.CollectConfig | json2excel.js:140-150 | Each language's merged rows are the concatenation, in configuration order, of every file's rows in that language. |
| RoundTrip.ApplyUnder | excel2json.js:185 | Writing a subtree's leaves below `k` builds their object at `k`: in the object already there, or from `{}`. |
| RoundTrip.Rebuild | excel2json.js:182-187 | Writing the leaves of a plain tree, in order, into an object that lacks its names appends the tree's properties in order. |
| RoundTrip.LeafSegments | json2excel.js:176-184 | A leaf of a plain tree has a truthy non-object value and a non-empty path of segments without `.` or `:`. |
| RoundTrip.RowWritesLeaf | excel2json.js:170-172 | A base-sheet row built for a leaf writes that value at that path. |
| RoundTrip.RowsWriteLeaves | json2excel.js:172-202 | The first `n` base-sheet rows build what the first `n` leaves build. |
| RoundTrip.RoundTrip | excel2json.js:166-173 | A plain, well-formed tree, flattened on the `en` sheet and written back into `{}`, is the same tree: same properties, order and values. |
| RoundTrip.RoundTripFresh | excel2json.js:147-173 | With no locales path or no language directory, `_updateNonmergeJsonData` on those rows starts from `{}` and produces the original tree. |

## Left out

- Command-line parsing, `main`, `process.exit` and the `isDir` dispatch between flat and per-language directories: plumbing around the modelled functions.
- Reading and writing files, `readdir`, `existsSync` and `mkdir`: directory listings, parsed files and the locale store are inputs; a written file is an `Output` value.
- The `xlsx` library (`json_to_sheet`, `book_append_sheet`, `readFile`, `writeFile`, `sheet_to_json`), `_generateSheet` and `_xlsxWriteFile`: a foreign format. A sheet is its sequence of rows.
- `_generateExcel` and `_generateExcelMultiSheet` are not modelled as separate operations. Their sheets are the ones `SheetRows` and `FileSheets` produce, each written to its own workbook.
- `JSON.parse` and `JSON.stringify`: trees are already parsed. Numbers are integers, floats are left out, and arrays are not a separate case.
- JavaScript orders integer-like property names before the others; the model keeps plain insertion order.
- Property names inherited from `Object.prototype` (such as `constructor`), as keys of the configuration, of `MERGE_DATA` or of a tree: the model's objects have no prototype.
- The shared `BASE_EN_OBJ` and the un-awaited, concurrent generators that race on it: the base tree is a parameter. For a file of a per-language directory it is that file's `en` tree, if there is one.
- `Promise.all` over the sheets of a workbook: each sheet is reconciled on its own.
- Text.Basename: modelled only for extensions without `/`. The scripts pass only `.json` and `.xlsx`.
- `path.join` normalisation, such as `..` and repeated or trailing slashes: a locale file is looked up under the exact text `LocaleFile` gives. In merge mode the output file is `<group id>.json`, directory part included, as the source writes it. The lookup uses only the basename, so a group id with `/` reads one file and writes another.
- Parsed JSON whose root is an array or a primitive, which `JSON.parse` can return: every tree in the model, parsed file or locale file, is an object.
- A row without `Key` crashes the scripts after a warning; the model's rows always carry a key.
- Writing through an existing truthy string, number or boolean on the path: the model treats such writes as lost. JavaScript's special properties, such as a string's `length` and indices, are not modelled.
- `chalk` logging.
- Reconcile.UpdateMerge: its postcondition is stated for sheets whose rows all have a non-empty group id (`NamedGroups`). A row with an empty group id makes `!previousKey` true again, and the locale file is re-read in the middle of a group. The loop is still modelled for every input.
- SheetAssembler.ConfigDistinct: stated only under readdir's guarantees, that directory names are distinct and each listing names a file once; without them a language can appear twice on a list.
- RoundTrip.RoundTrip: stated for trees in which every value is truthy, every named object is non-empty and no property name is empty or contains `.` or `:`. Other trees lose those parts on the way out.
