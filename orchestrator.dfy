/**
 * The workbook orchestrator of src/index.ts, `buildDiff`: added and removed
 * sheet names, the per-sheet diff of every shared sheet with its noise
 * filter, the unchanged/modified classification and the report.
 */
module Orchestrator {
  import opened Types
  import opened Filters
  import opened EditScript
  import opened Backtrace
  import opened Diff

  // ---------------------------------------------------------------------
  // The noise filter

  /** A cell the filter counts as content: neither null nor ''. (A row
      never holds `undefined`.) */
  predicate Meaningful(c: Cell) {
    c != Null && c != Str("")
  }

  /** The row has at least one cell with content. */
  predicate HasContent(row: Row) {
    exists i :: 0 <= i < |row| && Meaningful(row[i])
  }

  predicate KeepOp(op: DiffItem) {
    HasContent(op.value)
  }

  /** The noise filter: the edit items whose row has content, in order. */
  function NoiseFilter(diff: seq<DiffItem>): (r: seq<DiffItem>)
    ensures IsSubsequence(r, diff)
    ensures forall op: DiffItem :: op in r <==> op in diff && HasContent(op.value)
    ensures forall op: DiffItem :: HasContent(op.value) ==> multiset(r)[op] == multiset(diff)[op]
  {
    FilterIsSubsequence(diff, KeepOp);
    Filter(diff, KeepOp)
  }

  /** Rows holding 0 or false are content; rows of nulls and '' are not. */
  lemma NoiseFilterKeepsFalsyValues(diff: seq<DiffItem>, op: DiffItem)
    requires op in diff
    ensures (Num(0) in op.value || Bool(false) in op.value) ==> op in NoiseFilter(diff)
    ensures (forall c :: c in op.value ==> c == Null || c == Str("")) ==> op !in NoiseFilter(diff)
  {
    if Num(0) in op.value {
      var i :| 0 <= i < |op.value| && op.value[i] == Num(0);
      assert Meaningful(op.value[i]);
    } else if Bool(false) in op.value {
      var i :| 0 <= i < |op.value| && op.value[i] == Bool(false);
      assert Meaningful(op.value[i]);
    }
    if op in NoiseFilter(diff) {
      var i :| 0 <= i < |op.value| && Meaningful(op.value[i]);
      assert op.value[i] in op.value;
    }
  }

  // ---------------------------------------------------------------------
  // Added and removed sheets

  /** The added sheets: the new workbook's names filtered down to those the
      old workbook does not list, every occurrence kept, in new order. */
  function AddedSheets(wbOld: Workbook, wbNew: Workbook): (r: seq<string>)
    ensures IsSubsequence(r, wbNew.sheet_names)
    ensures forall name :: name in r <==> name in wbNew.sheet_names && name !in wbOld.sheet_names
    ensures forall name :: name !in wbOld.sheet_names ==> multiset(r)[name] == multiset(wbNew.sheet_names)[name]
  {
    var fresh_name := name => name !in wbOld.sheet_names;
    FilterIsSubsequence(wbNew.sheet_names, fresh_name);
    Filter(wbNew.sheet_names, fresh_name)
  }

  /** The removed sheets: the old workbook's names filtered down to those the
      new workbook does not list, every occurrence kept, in old order. */
  function RemovedSheets(wbOld: Workbook, wbNew: Workbook): (r: seq<string>)
    ensures IsSubsequence(r, wbOld.sheet_names)
    ensures forall name :: name in r <==> name in wbOld.sheet_names && name !in wbNew.sheet_names
    ensures forall name :: name !in wbNew.sheet_names ==> multiset(r)[name] == multiset(wbOld.sheet_names)[name]
  {
    var gone := name => name !in wbNew.sheet_names;
    FilterIsSubsequence(wbOld.sheet_names, gone);
    Filter(wbOld.sheet_names, gone)
  }

  // ---------------------------------------------------------------------
  // Classification of the shared sheets

  /** Every name of `names` that the new workbook lists has rows on both
      sides; without them `myersDiff` would be called on `undefined`. */
  ghost predicate Loaded(wbOld: Workbook, wbNew: Workbook, names: seq<string>) {
    forall name :: name in names && name in wbNew.sheet_names ==> name in wbOld.data && name in wbNew.data
  }

  /** The caller's guarantee: each shared sheet has rows in both workbooks,
      as `loadWorkbook` stores rows for every sheet name it lists. */
  ghost predicate SharedLoaded(wbOld: Workbook, wbNew: Workbook) {
    Loaded(wbOld, wbNew, wbOld.sheet_names)
  }

  /** The filtered diff of a shared sheet. */
  ghost function SheetDiff(wbOld: Workbook, wbNew: Workbook, name: string): seq<DiffItem>
    requires name in wbOld.data && name in wbNew.data
  {
    NoiseFilter(Script(wbOld.data[name], wbNew.data[name]))
  }

  /** `no_change_sheets` after the loop has visited `names`. */
  ghost function Unchanged(wbOld: Workbook, wbNew: Workbook, names: seq<string>): seq<string>
    requires Loaded(wbOld, wbNew, names)
    decreases |names|
  {
    if |names| == 0 then []
    else
      var init, name := names[..|names| - 1], names[|names| - 1];
      assert forall s :: s in init ==> s in names;
      Unchanged(wbOld, wbNew, init)
        + (if name in wbNew.sheet_names && SheetDiff(wbOld, wbNew, name) == [] then [name] else [])
  }

  /** `modified_sheets` after the loop has visited `names`. */
  ghost function Modified(wbOld: Workbook, wbNew: Workbook, names: seq<string>): seq<ModifiedSheet>
    requires Loaded(wbOld, wbNew, names)
    decreases |names|
  {
    if |names| == 0 then []
    else
      var init, name := names[..|names| - 1], names[|names| - 1];
      assert forall s :: s in init ==> s in names;
      Modified(wbOld, wbNew, init)
        + (if name in wbNew.sheet_names && SheetDiff(wbOld, wbNew, name) != []
           then [ModifiedSheet(name, SheetDiff(wbOld, wbNew, name))] else [])
  }

  /** The report object literal of `buildDiff`. */
  function Assemble(added: seq<string>, removed: seq<string>, noChange: seq<string>, modified: seq<ModifiedSheet>,
                    wbOld: Workbook, wbNew: Workbook, rawData: bool): DiffResult
  {
    DiffResult(added, removed, noChange, modified,
      OriginData(
        OriginWorkbookData(wbOld.sheet_names, if rawData then Some(wbOld.data) else None),
        OriginWorkbookData(wbNew.sheet_names, if rawData then Some(wbNew.data) else None)))
  }

  /** The report `buildDiff(wbOld, wbNew, rawData)` returns. */
  ghost function Report(wbOld: Workbook, wbNew: Workbook, rawData: bool): DiffResult
    requires SharedLoaded(wbOld, wbNew)
  {
    Assemble(AddedSheets(wbOld, wbNew), RemovedSheets(wbOld, wbNew),
      Unchanged(wbOld, wbNew, wbOld.sheet_names), Modified(wbOld, wbNew, wbOld.sheet_names),
      wbOld, wbNew, rawData)
  }

  /** `buildDiff`: the classification loop over the old sheet names runs
      `myersDiff` on each shared sheet and files it under unchanged or
      modified by its filtered diff. */
  method BuildDiff(wbOld: Workbook, wbNew: Workbook, rawData: bool) returns (r: DiffResult)
    requires SharedLoaded(wbOld, wbNew)
    ensures r == Report(wbOld, wbNew, rawData)
  {
    var modifiedSheets: seq<ModifiedSheet> := [];
    var noChangeSheets: seq<string> := [];
    var addedSheets := AddedSheets(wbOld, wbNew);
    var removedSheets := RemovedSheets(wbOld, wbNew);

    for i := 0 to |wbOld.sheet_names|
      invariant Loaded(wbOld, wbNew, wbOld.sheet_names[..i])
      invariant noChangeSheets == Unchanged(wbOld, wbNew, wbOld.sheet_names[..i])
      invariant modifiedSheets == Modified(wbOld, wbNew, wbOld.sheet_names[..i])
    {
      var sheetName := wbOld.sheet_names[i];
      ClassifyStep(wbOld, wbNew, i);
      if sheetName in wbNew.sheet_names {
        var filteredDiff := DiffSheet(wbOld, wbNew, sheetName);
        if |filteredDiff| == 0 {
          noChangeSheets := noChangeSheets + [sheetName];
        } else {
          modifiedSheets := modifiedSheets + [ModifiedSheet(sheetName, filteredDiff)];
        }
      }
    }
    assert wbOld.sheet_names[..|wbOld.sheet_names|] == wbOld.sheet_names;
    r := Assemble(addedSheets, removedSheets, noChangeSheets, modifiedSheets, wbOld, wbNew, rawData);
  }

  /** The body of the classification loop for a shared sheet: `myersDiff`
      on its old and new rows, then the noise filter. */
  method DiffSheet(wbOld: Workbook, wbNew: Workbook, sheetName: string) returns (filteredDiff: seq<DiffItem>)
    requires sheetName in wbOld.data && sheetName in wbNew.data
    ensures filteredDiff == SheetDiff(wbOld, wbNew, sheetName)
  {
    var diff := MyersDiff(wbOld.data[sheetName], wbNew.data[sheetName]);
    filteredDiff := NoiseFilter(diff);
  }

  /** One turn of the classification loop: the prefix grows by the old
      sheet name at i, which is filed by its filtered diff. */
  lemma ClassifyStep(wbOld: Workbook, wbNew: Workbook, i: int)
    requires SharedLoaded(wbOld, wbNew) && 0 <= i < |wbOld.sheet_names|
    ensures var names, name := wbOld.sheet_names[..i + 1], wbOld.sheet_names[i];
            var before := wbOld.sheet_names[..i];
            && Loaded(wbOld, wbNew, names) && Loaded(wbOld, wbNew, before)
            && (name !in wbNew.sheet_names ==>
                  && Unchanged(wbOld, wbNew, names) == Unchanged(wbOld, wbNew, before)
                  && Modified(wbOld, wbNew, names) == Modified(wbOld, wbNew, before))
            && (name in wbNew.sheet_names ==> name in wbOld.data && name in wbNew.data)
            && (name in wbNew.sheet_names && SheetDiff(wbOld, wbNew, name) == [] ==>
                  && Unchanged(wbOld, wbNew, names) == Unchanged(wbOld, wbNew, before) + [name]
                  && Modified(wbOld, wbNew, names) == Modified(wbOld, wbNew, before))
            && (name in wbNew.sheet_names && SheetDiff(wbOld, wbNew, name) != [] ==>
                  && Unchanged(wbOld, wbNew, names) == Unchanged(wbOld, wbNew, before)
                  && Modified(wbOld, wbNew, names)
                     == Modified(wbOld, wbNew, before) + [ModifiedSheet(name, SheetDiff(wbOld, wbNew, name))])
  {
    var names := wbOld.sheet_names[..i + 1];
    assert names[..i] == wbOld.sheet_names[..i];
    assert names[i] == wbOld.sheet_names[i];
    assert forall s :: s in names ==> s in wbOld.sheet_names;
  }

  // ---------------------------------------------------------------------
  // What the report promises

  /** The classification of the loop over `names`: a name is unchanged
      exactly when it is shared and its filtered diff is empty, modified
      exactly when it is shared and its filtered diff is not; a modified
      entry carries that non-empty filtered diff. */
  lemma {:induction false} ClassifyMembers(wbOld: Workbook, wbNew: Workbook, names: seq<string>)
    requires Loaded(wbOld, wbNew, names)
    ensures forall name :: name in Unchanged(wbOld, wbNew, names) <==>
              name in names && name in wbNew.sheet_names && SheetDiff(wbOld, wbNew, name) == []
    ensures forall ms :: ms in Modified(wbOld, wbNew, names) ==>
              && ms.sheet_name in names && ms.sheet_name in wbNew.sheet_names
              && ms.diff == SheetDiff(wbOld, wbNew, ms.sheet_name) && ms.diff != []
    ensures forall name :: name in names && name in wbNew.sheet_names && SheetDiff(wbOld, wbNew, name) != [] ==>
              ModifiedSheet(name, SheetDiff(wbOld, wbNew, name)) in Modified(wbOld, wbNew, names)
    decreases |names|
  {
    if |names| > 0 {
      var init, last := names[..|names| - 1], names[|names| - 1];
      assert names == init + [last];
      assert forall s :: s in init ==> s in names;
      ClassifyMembers(wbOld, wbNew, init);
    }
  }

  /** The old sheet name `name` is modified in report r. */
  ghost predicate IsModified(r: DiffResult, name: string) {
    exists ms :: ms in r.modified_sheets && ms.sheet_name == name
  }

  /** Every name of either workbook lands in exactly one of the four lists,
      and no list holds a name of neither. A shared name is unchanged
      exactly when no edit of its diff survives the noise filter. */
  lemma Partition(wbOld: Workbook, wbNew: Workbook, rawData: bool, name: string)
    requires SharedLoaded(wbOld, wbNew)
    ensures var r := Report(wbOld, wbNew, rawData);
            && (name in r.added_sheets <==> name in wbNew.sheet_names && name !in wbOld.sheet_names)
            && (name in r.removed_sheets <==> name in wbOld.sheet_names && name !in wbNew.sheet_names)
            && (name in r.no_change_sheets ==> name in wbOld.sheet_names && name in wbNew.sheet_names)
            && (IsModified(r, name) ==> name in wbOld.sheet_names && name in wbNew.sheet_names)
            && (name in wbOld.sheet_names && name in wbNew.sheet_names ==>
                  && (name in r.no_change_sheets <==> !IsModified(r, name))
                  && (name in r.no_change_sheets <==> SheetDiff(wbOld, wbNew, name) == []))
  {
    var r := Report(wbOld, wbNew, rawData);
    ClassifyMembers(wbOld, wbNew, wbOld.sheet_names);
    if name in wbOld.sheet_names && name in wbNew.sheet_names && SheetDiff(wbOld, wbNew, name) != [] {
      assert ModifiedSheet(name, SheetDiff(wbOld, wbNew, name)) in r.modified_sheets;
    }
  }

  /** Noise filter soundness: every modified sheet carries a non-empty diff
      that is the order-preserving subsequence of the sheet's edit script
      whose rows have content, and no row in it is all null or ''. */
  lemma ModifiedDiffs(wbOld: Workbook, wbNew: Workbook, rawData: bool, ms: ModifiedSheet)
    requires SharedLoaded(wbOld, wbNew) && ms in Report(wbOld, wbNew, rawData).modified_sheets
    ensures ms.sheet_name in wbOld.data && ms.sheet_name in wbNew.data
    ensures ms.diff != []
    ensures ms.diff == NoiseFilter(Script(wbOld.data[ms.sheet_name], wbNew.data[ms.sheet_name]))
    ensures IsSubsequence(ms.diff, Script(wbOld.data[ms.sheet_name], wbNew.data[ms.sheet_name]))
    ensures forall op :: op in ms.diff ==> HasContent(op.value)
  {
    ClassifyMembers(wbOld, wbNew, wbOld.sheet_names);
  }

  /** The snapshots ride along: both name lists always, the row maps only
      when raw data is requested, an explicit null otherwise. */
  lemma ReportData(wbOld: Workbook, wbNew: Workbook, rawData: bool)
    requires SharedLoaded(wbOld, wbNew)
    ensures var r := Report(wbOld, wbNew, rawData);
            && r.data.old_book.sheet_names == wbOld.sheet_names
            && r.data.new_book.sheet_names == wbNew.sheet_names
            && (r.data.old_book.data.Some? <==> rawData) && (r.data.new_book.data.Some? <==> rawData)
            && (rawData ==> r.data.old_book.data.value == wbOld.data && r.data.new_book.data.value == wbNew.data)
  {
  }

  /** Against itself, every visited sheet is unchanged and none modified. */
  lemma {:induction false} SelfClassify(wb: Workbook, names: seq<string>)
    requires forall name :: name in names ==> name in wb.sheet_names && name in wb.data
    ensures Loaded(wb, wb, names)
    ensures Unchanged(wb, wb, names) == names && Modified(wb, wb, names) == []
    decreases |names|
  {
    if |names| > 0 {
      var init, last := names[..|names| - 1], names[|names| - 1];
      assert names == init + [last];
      SelfClassify(wb, init);
      ScriptOfIdentical(wb.data[last]);
      assert NoiseFilter([]) == [];
    }
  }

  /** Diffing a workbook against itself reports no added, removed or
      modified sheet, and every sheet, in order, as unchanged. */
  lemma SelfDiff(wb: Workbook, rawData: bool)
    requires forall name :: name in wb.sheet_names ==> name in wb.data
    ensures SharedLoaded(wb, wb)
    ensures var r := Report(wb, wb, rawData);
            && r.added_sheets == [] && r.removed_sheets == [] && r.modified_sheets == []
            && r.no_change_sheets == wb.sheet_names
  {
    SelfClassify(wb, wb.sheet_names);
  }
}
