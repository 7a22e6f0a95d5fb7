/**
 * Sheets -> locale files (excel2json.js): `_updateNonmergeJsonData` for a
 * workbook per file and `_updateMergeJsonData` for the merged workbook,
 * whose rows are grouped by the file name before the colon of their keys.
 * Both start each output file either from scratch or from the locale file
 * that already exists for the language, so that cells left blank keep the
 * values already translated.
 */
module Reconcile {
  import opened Wrappers
  import opened Sequences
  import opened JsonTree
  import opened Flattener
  import opened Unflattener
  import Text

  // ---------------------------------------------------------------------------
  // The existing locale files

  /**
   * What the file system holds for one sheet (language): whether a locales
   * directory was given on the command line, whether it has a directory for
   * this language, and the parsed JSON files in that directory by name.
   */
  datatype LocaleStore = LocaleStore(configured: bool, langDir: bool, files: map<string, Obj>)

  /** What an output file starts from. */
  datatype Decision =
    | Fresh          // no locales directory, or a language not translated before: start from `{}`
    | Missing        // the language exists but this file does not: nothing is generated
    | Loaded(tree: Obj)  // start from the existing translations

  /** A file written to `excel_output/<dir>/<file>`. */
  datatype Output = Output(dir: string, file: string, tree: Obj)

  /** `${path.basename(name, '.xlsx')}.json`. */
  function LocaleFile(name: string): string {
    Text.Basename(name, ".xlsx") + ".json"
  }

  /** A workbook `<n>.xlsx` reads and writes `<n>.json`; the workbook `.xlsx` itself gives `.json`. */
  lemma LocaleFileOfWorkbook(n: string)
    requires '/' !in n
    ensures LocaleFile(n + ".xlsx") == n + ".json"
  {
    Text.BasenameStrips(n, ".xlsx");
  }

  /** A group id without `/` that does not end with `.xlsx` names its locale file directly. */
  lemma LocaleFileOfGroup(id: string)
    requires '/' !in id && !Text.EndsWith(id, ".xlsx")
    ensures LocaleFile(id) == id + ".json"
  {
    Text.BasenameKeeps(id, ".xlsx");
  }

  /** The directory part of a group id is ignored when its locale file is looked up. */
  lemma LocaleFileIgnoresDir(d: string, n: string)
    requires n != [] && '/' !in n && n != ".xlsx"
    ensures LocaleFile(d + "/" + n) == LocaleFile(n)
  {
    var ext := ".xlsx";
    Text.BasenameDir(d, n, ext);
    if |n| > |ext| && Text.EndsWith(n, ext) {
      var m := n[..|n| - |ext|];
      assert n == m + ext;
      Text.BasenameStrips(m, ext);
    } else {
      Text.BasenameKeeps(n, ext);
    }
  }

  /** The group id `sub/agent` looks up `agent.json`, and the group id `.xlsx` looks up `.json`. */
  lemma LocaleFileExamples()
    ensures LocaleFile("sub/agent") == "agent.json"
    ensures LocaleFile(".xlsx") == ".json"
  {
    assert "sub/agent" == "sub" + "/" + "agent";
    LocaleFileIgnoresDir("sub", "agent");
    assert !Text.EndsWith("agent", ".xlsx");
    LocaleFileOfGroup("agent");
    assert ".xlsx" == "" + ".xlsx";
    LocaleFileOfWorkbook("");
  }

  /** The three-way check on the language directory and the locale file. */
  function Decide(store: LocaleStore, file: string): Decision {
    if !store.configured || !store.langDir then Fresh
    else if file !in store.files then Missing
    else Loaded(store.files[file])
  }

  function Start(d: Decision): Obj {
    if d.Loaded? then d.tree else []
  }

  // ---------------------------------------------------------------------------
  // One workbook per file

  /**
   * `_updateNonmergeJsonData(sheetJson, name, excelFile)`: the output file
   * is not generated when the language exists but the file does not;
   * otherwise every row with a truthy cell is written, in order, into the
   * tree the decision starts from.
   */
  method UpdateNonmerge(rows: seq<Row>, name: string, excelFile: string, store: LocaleStore)
    returns (out: Option<Output>)
    ensures out.None? <==> Decide(store, LocaleFile(excelFile)).Missing?
    ensures out.Some? ==> out.value.dir == name && out.value.file == LocaleFile(excelFile)
    ensures out.Some? ==> out.value.tree == ApplyRows(Start(Decide(store, LocaleFile(excelFile))), rows, name)
  {
    var fileName := LocaleFile(excelFile);
    var json: Obj := [];
    if store.configured {
      if !store.langDir {
        // a new language: nothing to keep
      } else if fileName !in store.files {
        return None;
      } else {
        json := store.files[fileName];
      }
    }
    assert json == ApplyRows(Start(Decide(store, fileName)), rows[..0], name);
    for i := 0 to |rows|
      invariant json == ApplyRows(Start(Decide(store, fileName)), rows[..i], name)
    {
      var row := rows[i];
      var objectKeys := TreePath(row.key);
      var translation := Cell(row, name);
      ApplyRowsPrefix(Start(Decide(store, fileName)), rows, i, name);
      if TruthyCell(translation) {
        json := CreateNested(json, objectKeys, translation);
      }
    }
    assert rows[..|rows|] == rows;
    return Some(Output(name, fileName, json));
  }

  // ---------------------------------------------------------------------------
  // The merged workbook: rows grouped by file

  /** A maximal stretch of consecutive rows with the same group id. */
  datatype Run = Run(id: string, rows: seq<Row>)

  /** The first `i` rows cut into runs of equal group id, from the left: a row whose group id differs from the row before it opens a run. */
  function RunsUpTo(rows: seq<Row>, i: nat): (runs: seq<Run>)
    requires i <= |rows|
    ensures i == 0 <==> runs == []
    ensures i > 0 ==> runs[|runs| - 1].id == GroupId(rows[i - 1].key)
    ensures i > 0 ==> var last := runs[|runs| - 1].rows; last != [] && last[|last| - 1] == rows[i - 1]
    decreases i
  {
    if i == 0 then []
    else
      var init := RunsUpTo(rows, i - 1);
      var r := rows[i - 1];
      if i >= 2 && GroupId(r.key) == GroupId(rows[i - 2].key) then
        init[..|init| - 1] + [Run(GroupId(r.key), init[|init| - 1].rows + [r])]
      else
        init + [Run(GroupId(r.key), [r])]
  }

  /** The runs of a whole sheet. */
  function Runs(rows: seq<Row>): seq<Run> {
    RunsUpTo(rows, |rows|)
  }

  function ConcatRows(runs: seq<Run>): seq<Row>
    decreases |runs|
  {
    if runs == [] then [] else ConcatRows(runs[..|runs| - 1]) + runs[|runs| - 1].rows
  }

  /** A non-empty stretch of rows that all carry the run's group id. */
  predicate RunOf(run: Run) {
    run.rows != [] && forall row :: row in run.rows ==> GroupId(row.key) == run.id
  }

  /** Every run is a proper stretch and neighbouring runs have different group ids. */
  predicate Grouped(runs: seq<Run>)
    decreases |runs|
  {
    runs == [] ||
    var n := |runs|;
    && RunOf(runs[n - 1])
    && (n >= 2 ==> runs[n - 2].id != runs[n - 1].id)
    && Grouped(runs[..n - 1])
  }

  /** `runs` cuts `rows` into non-empty stretches of one id, neighbours differing. */
  predicate Partition(rows: seq<Row>, runs: seq<Run>) {
    ConcatRows(runs) == rows && Grouped(runs)
  }

  lemma ConcatRowsSnoc(runs: seq<Run>, r: Run)
    ensures ConcatRows(runs + [r]) == ConcatRows(runs) + r.rows
  {
    assert (runs + [r])[..|runs|] == runs;
  }

  /** The runs of the first `i` rows, put back together, are those rows. */
  lemma {:induction false} RunsConcat(rows: seq<Row>, i: nat)
    requires i <= |rows|
    ensures ConcatRows(RunsUpTo(rows, i)) == rows[..i]
    decreases i
  {
    if i > 0 {
      var r := rows[i - 1];
      assert rows[..i - 1] + [r] == rows[..i];
      var init := RunsUpTo(rows, i - 1);
      if i >= 2 && GroupId(r.key) == GroupId(rows[i - 2].key) {
        var n := |init|;
        var prev := init[..n - 1];
        var last := init[n - 1];
        assert init == prev + [last];
        RunsJoin(rows, i - 1);
        RunsConcat(rows, i - 1);
        ConcatRowsSnoc(prev, last);
        ConcatRowsSnoc(prev, Run(last.id, last.rows + [r]));
        ConcatAssoc(ConcatRows(prev), last.rows, [r]);
      } else {
        RunsOpen(rows, i - 1);
        RunsConcat(rows, i - 1);
        ConcatRowsSnoc(init, Run(GroupId(r.key), [r]));
      }
    }
  }

  lemma GroupedSnoc(prev: seq<Run>, x: Run, runs: seq<Run>)
    requires runs == prev + [x]
    requires Grouped(prev) && RunOf(x) && (prev == [] || prev[|prev| - 1].id != x.id)
    ensures Grouped(runs)
  {
    assert runs[..|runs| - 1] == prev;
  }

  lemma GroupedInit(runs: seq<Run>, prev: seq<Run>)
    requires runs != [] && Grouped(runs) && prev == runs[..|runs| - 1]
    ensures Grouped(prev) && RunOf(runs[|runs| - 1])
    ensures prev == [] || prev[|prev| - 1].id != runs[|runs| - 1].id
  {
  }

  lemma RunOfSnoc(run: Run, r: Row, joined: Run)
    requires RunOf(run) && GroupId(r.key) == run.id && joined == Run(run.id, run.rows + [r])
    ensures RunOf(joined)
  {
    assert forall row :: row in joined.rows ==> row in run.rows || row == r;
  }

  lemma RunOfSingle(r: Row, x: Run)
    requires x == Run(GroupId(r.key), [r])
    ensures RunOf(x)
  {
    assert forall row :: row in x.rows ==> row == r;
  }

  /** Extending the last run by a row of its id keeps the runs grouped. */
  lemma GroupedJoin(init: seq<Run>, r: Row, runs: seq<Run>)
    requires init != [] && Grouped(init) && GroupId(r.key) == init[|init| - 1].id
    requires runs == init[..|init| - 1] + [Run(init[|init| - 1].id, init[|init| - 1].rows + [r])]
    ensures Grouped(runs)
  {
    var prev := init[..|init| - 1];
    var last := init[|init| - 1];
    var joined := Run(last.id, last.rows + [r]);
    GroupedInit(init, prev);
    RunOfSnoc(last, r, joined);
    GroupedSnoc(prev, joined, runs);
  }

  /** A row of the same group id as the row before it keeps the runs grouped. */
  lemma GroupedJoinStep(rows: seq<Row>, j: nat)
    requires 0 < j < |rows| && GroupId(rows[j].key) == GroupId(rows[j - 1].key)
    requires Grouped(RunsUpTo(rows, j))
    ensures Grouped(RunsUpTo(rows, j + 1))
  {
    RunsJoin(rows, j);
    GroupedJoin(RunsUpTo(rows, j), rows[j], RunsUpTo(rows, j + 1));
  }

  /** A row that opens a run keeps the runs grouped. */
  lemma GroupedOpenStep(rows: seq<Row>, j: nat)
    requires j < |rows| && (j == 0 || GroupId(rows[j].key) != GroupId(rows[j - 1].key))
    requires Grouped(RunsUpTo(rows, j))
    ensures Grouped(RunsUpTo(rows, j + 1))
  {
    RunsOpen(rows, j);
    RunOfSingle(rows[j], Run(GroupId(rows[j].key), [rows[j]]));
    GroupedSnoc(RunsUpTo(rows, j), Run(GroupId(rows[j].key), [rows[j]]), RunsUpTo(rows, j + 1));
  }

  /** The runs of the first `i` rows are grouped: proper stretches, neighbours differing. */
  lemma {:induction false} RunsGrouped(rows: seq<Row>, i: nat)
    requires i <= |rows|
    ensures Grouped(RunsUpTo(rows, i))
    decreases i
  {
    if i > 0 {
      var j := i - 1;
      RunsGrouped(rows, j);
      if j > 0 && GroupId(rows[j].key) == GroupId(rows[j - 1].key) {
        GroupedJoinStep(rows, j);
      } else {
        GroupedOpenStep(rows, j);
      }
    }
  }

  /** The runs of a sheet are exactly its grouping: every row once, in order. */
  lemma RunsPartition(rows: seq<Row>)
    ensures Partition(rows, Runs(rows))
  {
    RunsConcat(rows, |rows|);
    RunsGrouped(rows, |rows|);
    assert rows[..|rows|] == rows;
  }

  /** A row with the group id of the row before it joins the current run. */
  lemma RunsJoin(rows: seq<Row>, i: nat)
    requires 0 < i < |rows| && GroupId(rows[i].key) == GroupId(rows[i - 1].key)
    ensures var runs := RunsUpTo(rows, i); var n := |runs|;
      RunsUpTo(rows, i + 1) == runs[..n - 1] + [Run(runs[n - 1].id, runs[n - 1].rows + [rows[i]])]
  {
  }

  /** A row with another group id than the row before it (or the first row) starts a new run. */
  lemma RunsOpen(rows: seq<Row>, i: nat)
    requires i < |rows| && (i == 0 || GroupId(rows[i].key) != GroupId(rows[i - 1].key))
    ensures RunsUpTo(rows, i + 1) == RunsUpTo(rows, i) + [Run(GroupId(rows[i].key), [rows[i]])]
  {
  }

  /** The file a run produces: none when its locale file is missing. */
  function RunWrites(run: Run, name: string, store: LocaleStore): seq<Output> {
    var d := Decide(store, LocaleFile(run.id));
    if d.Missing? then [] else [Output(name, run.id + ".json", ApplyRows(Start(d), run.rows, name))]
  }

  function AllWrites(runs: seq<Run>, name: string, store: LocaleStore): seq<Output>
    decreases |runs|
  {
    if runs == [] then []
    else AllWrites(runs[..|runs| - 1], name, store) + RunWrites(runs[|runs| - 1], name, store)
  }

  /** The files the merged sheet produces, in order: one per run that is not missing. */
  function GroupedWrites(rows: seq<Row>, name: string, store: LocaleStore): seq<Output> {
    AllWrites(Runs(rows), name, store)
  }

  predicate NamedGroups(rows: seq<Row>) {
    forall i :: 0 <= i < |rows| ==> GroupId(rows[i].key) != ""
  }

  /** The body of `_readLocaleFile`: the new `json` and `isLocaleFileExist`. */
  function ReadLocale(store: LocaleStore, id: string, json: Obj, present: bool): (Obj, bool) {
    var file := LocaleFile(id);
    if !store.configured then (json, present)
    else if !store.langDir then (json, true)
    else if file !in store.files then (json, false)
    else (store.files[file], true)
  }

  /** Read after `json = {}`, the closure agrees with the decision for the run's file. */
  lemma ReadAfterReset(store: LocaleStore, id: string, present: bool)
    requires store.configured || present
    ensures var d := Decide(store, LocaleFile(id));
      ReadLocale(store, id, [], present) == (Start(d), !d.Missing?)
  {
  }

  lemma ApplyRowsSnoc(o: Obj, rows: seq<Row>, row: Row, sheetName: string)
    ensures ApplyRows(o, rows + [row], sheetName) == ApplyRow(ApplyRows(o, rows, sheetName), row, sheetName)
  {
    assert (rows + [row])[..|rows|] == rows;
  }

  lemma AllWritesSnoc(runs: seq<Run>, run: Run, name: string, store: LocaleStore)
    ensures AllWrites(runs + [run], name, store) == AllWrites(runs, name, store) + RunWrites(run, name, store)
  {
    assert (runs + [run])[..|runs|] == runs;
  }

  /** The variables of the loop in `_updateMergeJsonData`. */
  datatype MergeLoop = MergeLoop(json: Obj, previousKey: string, present: bool, writes: seq<Output>)

  /**
   * The two `if` blocks at the head of the loop body: on the first row the
   * locale file is read; when the group id changes, the finished group is
   * written (unless its locale file was missing), `json` is reset and the
   * next group's file is read.
   */
  ghost function MergeHead(st: MergeLoop, row: Row, name: string, store: LocaleStore): MergeLoop {
    var id := GroupId(row.key);
    var st1 :=
      if st.previousKey == "" then
        var loaded := ReadLocale(store, id, st.json, st.present);
        MergeLoop(loaded.0, id, loaded.1, st.writes)
      else st;
    if st1.previousKey != id then
      var loaded := ReadLocale(store, id, [], st1.present);
      var written := if st1.present then [Output(name, st1.previousKey + ".json", st1.json)] else [];
      MergeLoop(loaded.0, id, loaded.1, st1.writes + written)
    else st1
  }

  /** The rest of the body: skipped for a missing file, else the cell and, on the last row, the file are written. */
  ghost function MergeTail(st: MergeLoop, row: Row, isLast: bool, name: string): MergeLoop {
    if !st.present then st
    else
      var json := ApplyRow(st.json, row, name);
      var written := if isLast then [Output(name, st.previousKey + ".json", json)] else [];
      MergeLoop(json, st.previousKey, st.present, st.writes + written)
  }

  /** The loop variables after the rows before `i`. */
  ghost function MergeFold(rows: seq<Row>, i: nat, name: string, store: LocaleStore): MergeLoop
    requires i <= |rows|
    decreases i
  {
    if i == 0 then MergeLoop([], "", true, [])
    else
      var st := MergeFold(rows, i - 1, name, store);
      MergeTail(MergeHead(st, rows[i - 1], name, store), rows[i - 1], i - 1 == |rows| - 1, name)
  }

  lemma MergeFoldStep(rows: seq<Row>, i: nat, name: string, store: LocaleStore, before: MergeLoop, head: MergeLoop)
    requires i < |rows| && before == MergeFold(rows, i, name, store) && head == MergeHead(before, rows[i], name, store)
    ensures MergeFold(rows, i + 1, name, store) == MergeTail(head, rows[i], i == |rows| - 1, name)
  {
  }

  /** The loop variables after the rows before `i`, stated through the runs seen so far. */
  ghost predicate MergeState(rows: seq<Row>, i: nat, name: string, store: LocaleStore, st: MergeLoop)
    requires 0 < i <= |rows|
  {
    var runs := RunsUpTo(rows, i);
    var n := |runs|;
    var d := Decide(store, LocaleFile(runs[n - 1].id));
    && st.previousKey == runs[n - 1].id
    && st.present == !d.Missing?
    && (store.configured || st.present)
    && (st.present ==> st.json == ApplyRows(Start(d), runs[n - 1].rows, name))
    && st.writes == if i == |rows| then AllWrites(runs, name, store) else AllWrites(runs[..n - 1], name, store)
  }

  /** The loop variables once row `i` has joined its run, before its cell is written. */
  ghost predicate Opened(rows: seq<Row>, i: nat, name: string, store: LocaleStore, st: MergeLoop)
    requires i < |rows|
  {
    var runs := RunsUpTo(rows, i + 1);
    OpenedWith(name, store, st, runs[..|runs| - 1], runs[|runs| - 1])
  }

  /** `Opened`, with the finished runs `init` and the current run `last` named. */
  ghost predicate OpenedWith(name: string, store: LocaleStore, st: MergeLoop, init: seq<Run>, last: Run) {
    var d := Decide(store, LocaleFile(last.id));
    && last.rows != []
    && st.previousKey == last.id
    && st.present == !d.Missing?
    && (store.configured || st.present)
    && (st.present ==> st.json == ApplyRows(Start(d), last.rows[..|last.rows| - 1], name))
    && st.writes == AllWrites(init, name, store)
  }

  /** The first row opens the first run. */
  lemma OpenFirst(rows: seq<Row>, name: string, store: LocaleStore)
    requires |rows| > 0
    ensures Opened(rows, 0, name, store, MergeHead(MergeLoop([], "", true, []), rows[0], name, store))
  {
    RunsOpen(rows, 0);
    assert [rows[0]][..0] == [];
    ReadAfterReset(store, GroupId(rows[0].key), true);
  }

  /** A row of the current group joins its run. */
  lemma OpenSame(rows: seq<Row>, i: nat, name: string, store: LocaleStore, st: MergeLoop)
    requires 0 < i < |rows|
    requires MergeState(rows, i, name, store, st)
    requires st.previousKey != "" && GroupId(rows[i].key) == st.previousKey
    ensures Opened(rows, i, name, store, MergeHead(st, rows[i], name, store))
  {
    RunsJoin(rows, i);
    var runs := RunsUpTo(rows, i);
    var n := |runs|;
    assert RunsUpTo(rows, i + 1)[n - 1].rows[..|runs[n - 1].rows|] == runs[n - 1].rows;
  }

  /** The run that a row of another group finishes is the one its state describes. */
  lemma FinishedRun(rows: seq<Row>, i: nat, name: string, store: LocaleStore, st: MergeLoop)
    requires 0 < i < |rows|
    requires MergeState(rows, i, name, store, st)
    ensures var runs := RunsUpTo(rows, i);
      st.writes + (if st.present then [Output(name, st.previousKey + ".json", st.json)] else [])
      == AllWrites(runs, name, store)
  {
    var runs := RunsUpTo(rows, i);
    var n := |runs|;
    var prev := runs[n - 1];
    assert (if st.present then [Output(name, st.previousKey + ".json", st.json)] else []) == RunWrites(prev, name, store);
    assert runs == runs[..n - 1] + [prev];
    AllWritesSnoc(runs[..n - 1], prev, name, store);
  }

  /** A row of another group writes the finished run and opens a new one. */
  lemma OpenNew(rows: seq<Row>, i: nat, name: string, store: LocaleStore, st: MergeLoop)
    requires 0 < i < |rows|
    requires MergeState(rows, i, name, store, st)
    requires st.previousKey != "" && GroupId(rows[i].key) != st.previousKey
    ensures Opened(rows, i, name, store, MergeHead(st, rows[i], name, store))
  {
    var runs := RunsUpTo(rows, i);
    var n := |runs|;
    var id := GroupId(rows[i].key);
    FinishedRun(rows, i, name, store, st);
    RunsOpen(rows, i);
    var runs' := RunsUpTo(rows, i + 1);
    assert runs' == runs + [Run(id, [rows[i]])];
    assert runs'[..n] == runs;
    ReadAfterReset(store, id, st.present);
    assert runs'[n].rows[..0] == [];
  }

  /** The current run closes the runs seen so far, and its last row is the row being read. */
  lemma RunsLast(rows: seq<Row>, i: nat)
    requires i < |rows|
    ensures var runs := RunsUpTo(rows, i + 1);
      var last := runs[|runs| - 1];
      && runs == runs[..|runs| - 1] + [last]
      && last.rows != [] && last.rows == last.rows[..|last.rows| - 1] + [rows[i]]
  {
  }

  /** `MergeState` from its parts, with the finished runs, the current run and the decision named. */
  lemma MergeStateIntro(rows: seq<Row>, i: nat, name: string, store: LocaleStore, st: MergeLoop, runs: seq<Run>, init: seq<Run>, last: Run, d: Decision)
    requires 0 < i <= |rows| && runs == RunsUpTo(rows, i) && runs == init + [last]
    requires d == Decide(store, LocaleFile(last.id))
    requires st.previousKey == last.id
    requires st.present == !d.Missing? && (store.configured || st.present)
    requires st.present ==> st.json == ApplyRows(Start(d), last.rows, name)
    requires st.writes == if i == |rows| then AllWrites(init + [last], name, store) else AllWrites(init, name, store)
    ensures MergeState(rows, i, name, store, st)
  {
    assert runs[|runs| - 1] == last && runs[..|runs| - 1] == init;
  }

  /** A row of a group whose locale file is missing changes none of the loop variables. */
  lemma SkippedFacts(st: MergeLoop, row: Row, isLast: bool, name: string, store: LocaleStore, d: Decision, init: seq<Run>, last: Run, st': MergeLoop)
    requires d == Decide(store, LocaleFile(last.id)) && d.Missing? && !st.present
    requires st.writes == AllWrites(init, name, store)
    requires st' == MergeTail(st, row, isLast, name)
    ensures st' == st
    ensures st'.writes == if isLast then AllWrites(init + [last], name, store) else AllWrites(init, name, store)
  {
    AllWritesSnoc(init, last, name, store);
    assert RunWrites(last, name, store) == [];
    assert st.writes + [] == st.writes;
  }

  /** The rest of the loop body for a group whose locale file is not missing. */
  lemma TailPresent(st: MergeLoop, row: Row, isLast: bool, name: string, json': Obj)
    requires st.present && json' == ApplyRow(st.json, row, name)
    ensures MergeTail(st, row, isLast, name)
         == MergeLoop(json', st.previousKey, true, st.writes + if isLast then [Output(name, st.previousKey + ".json", json')] else [])
  {
  }

  /** A row of a group whose locale file is not missing has its cell applied; the last row of the sheet writes the group. */
  lemma AppliedFacts(st: MergeLoop, row: Row, isLast: bool, name: string, store: LocaleStore, d: Decision, init: seq<Run>, last: Run, before: seq<Row>, st': MergeLoop)
    requires last.rows == before + [row]
    requires d == Decide(store, LocaleFile(last.id)) && !d.Missing?
    requires st.previousKey == last.id && st.present
    requires st.json == ApplyRows(Start(d), before, name)
    requires st.writes == AllWrites(init, name, store)
    requires st' == MergeTail(st, row, isLast, name)
    ensures st'.previousKey == last.id && st'.present
    ensures st'.json == ApplyRows(Start(d), last.rows, name)
    ensures st'.writes == if isLast then AllWrites(init + [last], name, store) else AllWrites(init, name, store)
  {
    ApplyRowsSnoc(Start(d), before, row, name);
    var json' := ApplyRows(Start(d), last.rows, name);
    TailPresent(st, row, isLast, name, json');
    if isLast {
      AllWritesSnoc(init, last, name, store);
      assert RunWrites(last, name, store) == [Output(name, last.id + ".json", json')];
    } else {
      assert st'.writes == st.writes + [];
    }
  }

  /** Writing the row's cell (and, on the last row, the file) closes the step. */
  lemma CloseRow(rows: seq<Row>, i: nat, name: string, store: LocaleStore, st: MergeLoop)
    requires i < |rows|
    requires Opened(rows, i, name, store, st)
    ensures MergeState(rows, i + 1, name, store, MergeTail(st, rows[i], i == |rows| - 1, name))
  {
    var runs := RunsUpTo(rows, i + 1);
    var init := runs[..|runs| - 1];
    var last := runs[|runs| - 1];
    var d := Decide(store, LocaleFile(last.id));
    var isLast := i == |rows| - 1;
    var st' := MergeTail(st, rows[i], isLast, name);
    assert OpenedWith(name, store, st, init, last);
    RunsLast(rows, i);
    if st.present {
      AppliedFacts(st, rows[i], isLast, name, store, d, init, last, last.rows[..|last.rows| - 1], st');
    } else {
      SkippedFacts(st, rows[i], isLast, name, store, d, init, last, st');
    }
    MergeStateIntro(rows, i + 1, name, store, st', runs, init, last, d);
  }

  /** One pass through the loop body keeps the loop variables in step with the runs. */
  lemma FoldStep(rows: seq<Row>, i: nat, name: string, store: LocaleStore, st: MergeLoop)
    requires NamedGroups(rows) && i < |rows|
    requires i == 0 ==> st == MergeLoop([], "", true, [])
    requires 0 < i ==> MergeState(rows, i, name, store, st)
    ensures MergeState(rows, i + 1, name, store, MergeTail(MergeHead(st, rows[i], name, store), rows[i], i == |rows| - 1, name))
  {
    if i == 0 {
      OpenFirst(rows, name, store);
    } else {
      assert st.previousKey == GroupId(rows[i - 1].key) != "";
      if GroupId(rows[i].key) == st.previousKey {
        OpenSame(rows, i, name, store, st);
      } else {
        OpenNew(rows, i, name, store, st);
      }
    }
    CloseRow(rows, i, name, store, MergeHead(st, rows[i], name, store));
  }

  /** The loop variables follow the runs of the rows read so far. */
  lemma {:induction false} FoldState(rows: seq<Row>, i: nat, name: string, store: LocaleStore)
    requires NamedGroups(rows) && 0 < i <= |rows|
    ensures MergeState(rows, i, name, store, MergeFold(rows, i, name, store))
    decreases i
  {
    var st := MergeFold(rows, i - 1, name, store);
    if i > 1 {
      FoldState(rows, i - 1, name, store);
    }
    FoldStep(rows, i - 1, name, store, st);
    assert MergeFold(rows, i, name, store) == MergeTail(MergeHead(st, rows[i - 1], name, store), rows[i - 1], i - 1 == |rows| - 1, name);
  }

  /** After the last row, the files written are one per run whose locale file is not missing. */
  lemma FoldWrites(rows: seq<Row>, name: string, store: LocaleStore)
    requires NamedGroups(rows)
    ensures MergeFold(rows, |rows|, name, store).writes == GroupedWrites(rows, name, store)
  {
    if rows != [] {
      FoldState(rows, |rows|, name, store);
    }
  }

  /**
   * The two `if` blocks at the head of the loop body of `_updateMergeJsonData`:
   * the first row reads its locale file; a change of group id writes the
   * finished group (unless its file was missing) and reads the next one's.
   */
  method GroupBoundary(json: Obj, previousKey: string, isLocaleFileExist: bool, writes: seq<Output>, row: Row, name: string, store: LocaleStore)
    returns (json': Obj, previousKey': string, isLocaleFileExist': bool, writes': seq<Output>)
    ensures MergeLoop(json', previousKey', isLocaleFileExist', writes') == MergeHead(MergeLoop(json, previousKey, isLocaleFileExist, writes), row, name, store)
  {
    var jsonFileName := GroupId(row.key);
    json', previousKey', isLocaleFileExist', writes' := json, previousKey, isLocaleFileExist, writes;
    if previousKey' == "" {
      var loaded := ReadLocale(store, jsonFileName, json', isLocaleFileExist');
      json', isLocaleFileExist' := loaded.0, loaded.1;
      previousKey' := jsonFileName;
    }
    if previousKey' != jsonFileName {
      // the group just finished is written, the next one starts
      if isLocaleFileExist' {
        writes' := writes' + [Output(name, previousKey' + ".json", json')];
      }
      json' := [];
      var loaded := ReadLocale(store, jsonFileName, json', isLocaleFileExist');
      json', isLocaleFileExist' := loaded.0, loaded.1;
      previousKey' := jsonFileName;
    }
  }

  /**
   * `_updateMergeJsonData(sheetJson, name, excelFile)`: the sheet is read
   * row by row; each time the group id changes, the group just finished is
   * written (when its locale file was not missing) and the next one starts
   * from a fresh or loaded tree; the row that ends the sheet writes its
   * group.  For sheets whose rows all name a file, the files written are
   * exactly one per run of equal group id whose locale file is not missing.
   */
  method UpdateMerge(rows: seq<Row>, name: string, store: LocaleStore) returns (writes: seq<Output>)
    ensures NamedGroups(rows) ==> writes == GroupedWrites(rows, name, store)
  {
    var json: Obj := [];
    var previousKey := "";
    var isLocaleFileExist := true;
    writes := [];
    for i := 0 to |rows|
      invariant MergeLoop(json, previousKey, isLocaleFileExist, writes) == MergeFold(rows, i, name, store)
    {
      var row := rows[i];
      var objectKeys := TreePath(row.key);
      ghost var before := MergeLoop(json, previousKey, isLocaleFileExist, writes);
      json, previousKey, isLocaleFileExist, writes := GroupBoundary(json, previousKey, isLocaleFileExist, writes, row, name, store);
      MergeFoldStep(rows, i, name, store, before, MergeLoop(json, previousKey, isLocaleFileExist, writes));
      if !isLocaleFileExist {
        continue;
      }
      var translation := Cell(row, name);
      if TruthyCell(translation) {
        json := CreateNested(json, objectKeys, translation);
      }
      if i == |rows| - 1 {
        writes := writes + [Output(name, previousKey + ".json", json)];
      }
    }
    if NamedGroups(rows) {
      FoldWrites(rows, name, store);
    }
  }
}
