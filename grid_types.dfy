/** Types shared by the three interaction controllers of the data grid.
    Only SelectionMode is declared in src/components/DataGrid/types.ts; the
    record types below are defined from how the controllers use them. */
module GridTypes {

  /** An optional value; `None` stands for JavaScript's `undefined`. */
  datatype Option<+T> = None | Some(value: T)

  /** `'single' | 'multiple'`, fixed when a row-selection controller is made. */
  datatype SelectionMode = Single | Multiple

  /** A row identifier is `string | number`. A JavaScript Set keeps the string
      "1" and the number 1 apart, and so do these two constructors. */
  datatype RowId = Str(s: string) | Num(n: int)

  /** A row as the host supplies it. The controllers read only its `id`;
      `data` stands for the rest of the record, which is carried along. */
  datatype RowData = RowData(id: RowId, data: seq<string>)

  /** A column; `width` is the only attribute the resize controller changes. */
  datatype Column = Column(field: string, header: string, width: int)

  /** A decoded cell address. Both parts are strings: the row id is never
      turned back into a number. `field` is `None` when the key held no '-'. */
  datatype CellPosition = CellPosition(rowId: string, field: Option<string>)

  /** What every row-selection operation returns. */
  datatype SelectionChangeEvent =
    SelectionChangeEvent(selectedRows: set<RowId>, selectedRowData: seq<RowData>)

  /** What every cell-selection operation returns. The positions are the
      decodings of the selected keys; their order (Set iteration order) is
      not modelled, so they form a set. */
  datatype CellSelectionChangeEvent =
    CellSelectionChangeEvent(selectedCells: set<string>, positions: set<CellPosition>)
}
