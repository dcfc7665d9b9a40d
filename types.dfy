/**
 * The value types shared by the diff engine and the workbook orchestrator
 * (src/types.ts).
 */
module Types {

  datatype Option<+T> = None | Some(value: T)

  /** SerializableData: one cell of a sheet. `Null` stands for an empty,
      error or missing cell. Numbers carry an integer payload. */
  datatype Cell = Str(text: string) | Num(number: int) | Bool(flag: bool) | Null

  /** A row is the flat list of its cells. */
  type Row = seq<Cell>

  /** DiffItem<Row>. An Insert has a null old_index and a Delete a null
      new_index, so each constructor carries only the index it has. The
      'Equal' tag of the source type is never produced and is not modelled. */
  datatype DiffItem =
    | Insert(new_index: int, value: Row)
    | Delete(old_index: int, value: Row)

  /** WorkbookData: sheet name to its rows. */
  type WorkbookData = map<string, seq<Row>>

  /** CalamineWorkbook: a loaded snapshot. */
  datatype Workbook = Workbook(sheet_names: seq<string>, data: WorkbookData)

  datatype ModifiedSheet = ModifiedSheet(sheet_name: string, diff: seq<DiffItem>)

  /** OriginWorkbookData: `data` is None where the source has null. */
  datatype OriginWorkbookData = OriginWorkbookData(sheet_names: seq<string>, data: Option<WorkbookData>)

  /** OriginData: the fields `old` and `new` of the source (both are Dafny
      keywords) are called `old_book` and `new_book`. */
  datatype OriginData = OriginData(old_book: OriginWorkbookData, new_book: OriginWorkbookData)

  datatype DiffResult = DiffResult(
    added_sheets: seq<string>,
    removed_sheets: seq<string>,
    no_change_sheets: seq<string>,
    modified_sheets: seq<ModifiedSheet>,
    data: OriginData)
}
