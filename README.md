# Interaction state of a Vue data grid, in Dafny

This project models the three state controllers of the data grid in
`src/composables/`:

- **Row selection** (`useRowSelection`): a set of row ids governed by a mode
  (`'single' | 'multiple'`) fixed at construction. It offers toggle, select-all,
  clear, a membership test and "all selected". Every mutating call returns an
  event holding a copy of the set and the selected rows of a row list the caller
  may pass.
- **Cell selection** (`useCellSelection`): a set of string keys. A cell's key is
  `` `${rowId}-${field}` ``. It offers toggle, exclusive select and clear. Every
  event decodes the selected keys back into `{rowId, field}` with `split('-')`.
- **Column resize** (`useColumnResize`): an array of columns whose widths are
  overwritten in place. `resizeColumn` is a guarded update. The `startResize`
  drag protocol installs mouse-move and mouse-up handlers on the document:
  each move recomputes the width from the width captured when the drag began,
  and a mouse-up removes the handlers.

Files:

- `grid_types.dfy` (module `GridTypes`): the shared types. `SelectionMode` comes
  from `src/components/DataGrid/types.ts:274`. The other record types
  (`RowData`, `Column`, `CellPosition` and the two event types) are imported by
  the composables but not declared in `types.ts`, so they are defined from how
  the composables use them. Row ids are `Str(string) | Num(int)`, kept apart as
  a JavaScript `Set` keeps `"1"` and `1` apart.
- `js_text.dfy` (module `JsText`): the JavaScript string behaviour the cell keys
  rely on. `Split` is `String.prototype.split` with a one-character separator.
  `IntToDecimal` is the decimal text a template literal gives an integer.
- `row_selection.dfy`, `cell_selection.dfy`, `column_resize.dfy`: one module
  per composable.

Each module has pure functions that give the state every operation produces,
with their properties proved as contracts and lemmas. Each also has a class
that holds the state and whose methods update it. Those methods are proved to
produce exactly the state the functions describe. Short client methods
(`SingleModeScenario`, `CollisionScenario`, `DragScenario`, …) show what a host
can conclude from the method contracts alone.

The queries `isRowSelected`, `isAllSelected` and `isCellSelected` are the
functions `IsRowSelected`, `IsAllSelected` and `IsCellSelected` of the
controller classes. They only read the state: they are functions with a
`reads` clause, not methods.

Three behaviours of the code are kept as written:

- **Drag floor versus guard.** The drag clamps its candidate width to at least
  50. It then passes it to `resizeColumn`, which accepts only widths strictly
  above 50. So a move whose candidate is 50 or less leaves the width as it was.
  It does not set the width to 50. Take a 100-wide column dragged from x = 200:
  a move to 250 gives 150. One might expect a following move to 120 to give 50;
  the code keeps 150 (`DragExample`, `DragScenario`).
- **Decode keeps only the first two pieces.** Splitting only at the first `-`
  would keep the whole field. The code destructures `split('-')` into
  `[rowId, field]`, which keeps pieces 0 and 1 and drops the rest. A field
  containing `-` is therefore cut at its first `-` (`FieldTruncated`).
- **Overlapping drags.** Each `startResize` installs its own handler pair, so
  the controller holds a sequence of active drags, oldest first. A mouse-move
  runs every installed move handler, in the order they were installed. A
  mouse-up fires every installed up handler, each of which removes its own
  pair, so one mouse-up ends all drags. With a single drag this is exactly the
  `Idle | Dragging(index, startX, startWidth)` machine: `handlers == []` is
  `Idle`.

## Model

| member | source | states |
|---|---|---|
| `JsText.Split` | src/composables/useCellSelection.ts:40 | `split` always returns at least one piece; no piece holds the separator; joining the pieces gives the string back; there is exactly one piece iff the separator does not occur |
| `JsText.SplitNoSeparator` | src/composables/useCellSelection.ts:40 | a string without the separator splits into itself alone |
| `JsText.SplitAtFirst` | src/composables/useCellSelection.ts:40 | splitting `a + sep + b`, where `a` has no separator, gives `a` followed by the pieces of `b` |
| `JsText.SplitJoin` | src/composables/useCellSelection.ts:40 | `Split` undoes `Join` for at least one separator-free piece (the round trip in the other direction) |
| `JsText.Before` | src/composables/useCellSelection.ts:40 | the text before the first separator is a separator-free prefix, and the separator (if any) follows it |
| `JsText.SplitFirstPiece` | src/composables/useCellSelection.ts:40 | the first piece of a split is the text before the first separator |
| `JsText.Digit` | src/composables/useCellSelection.ts:7 | the digit character for 0..9 has that digit value |
| `JsText.NatToDecimal` | src/composables/useCellSelection.ts:7 | the decimal text of a natural is non-empty, all digits, and has no leading zero unless it is 0 |
| `JsText.IntToDecimal` | src/composables/useCellSelection.ts:7 | the text of an integer begins with `-` iff the integer is negative; a non-negative one holds no `-` |
| `JsText.DecimalRoundTrip` | src/composables/useCellSelection.ts:7 | reading the decimal digits back gives the number |
| `JsText.NatToDecimalInjective` | src/composables/useCellSelection.ts:7 | distinct naturals have distinct decimal texts |
| `JsText.IntToDecimalInjective` | src/composables/useCellSelection.ts:7 | distinct integers have distinct decimal texts, so numeric row ids collide only with string ones |
| `RowSelection.IdsOf` | src/composables/useRowSelection.ts:35 | the set built from `allRows.map(row => row.id)` holds every row's id and nothing else, and has at most one element per row |
| `RowSelection.Toggled` | src/composables/useRowSelection.ts:11-30 | `toggleRow` flips `id`'s membership; in single mode the result is at most `{id}`, so it is `{}` when `id` was selected and `{id}` otherwise, replacing any earlier member; in multiple mode every other id keeps its membership |
| `RowSelection.AfterSelectAll` | src/composables/useRowSelection.ts:32-38 | `selectAll` leaves the set unchanged in single mode; in multiple mode the set becomes exactly the ids of `allRows` |
| `RowSelection.EveryIdIn` | src/composables/useRowSelection.ts:47 | `rows.every(...)` holds iff every row's id is selected |
| `RowSelection.AllSelected` | src/composables/useRowSelection.ts:45-48 | `isAllSelected(rows)` holds iff the mode is multiple, `rows` is non-empty and every row's id is selected |
| `RowSelection.SelectedRowData` | src/composables/useRowSelection.ts:51 | the filtered rows are exactly the rows of `allRows` whose ids are selected, and there are no more of them than rows |
| `RowSelection.SelectedRowDataAppend` | src/composables/useRowSelection.ts:51 | filtering a concatenation concatenates the filtered parts, so the selected rows keep their order in `allRows` |
| `RowSelection.SelectedRowDataSingle` | src/composables/useRowSelection.ts:51 | one row is kept iff its id is selected |
| `RowSelection.SelectedRowDataPair` | src/composables/useRowSelection.ts:51 | the filter on a two-row list keeps exactly the selected ones, in order |
| `RowSelection.SelectedRowDataAll` | src/composables/useRowSelection.ts:51 | when every row's id is selected the filter keeps every row |
| `RowSelection.SelectionEvent` | src/composables/useRowSelection.ts:50-56 | the event carries a copy of the set; its rows are the in-order selected rows of `allRows`, all with selected ids, or `[]` when `allRows` is omitted |
| `RowSelection.ToggleTwiceMultiple` | src/composables/useRowSelection.ts:19-25 | in multiple mode toggling the same id twice restores the set |
| `RowSelection.ToggleTwiceSingle` | src/composables/useRowSelection.ts:14-18 | in single mode toggling an id twice ends with `{id}` if it was selected and `{}` otherwise |
| `RowSelection.SelectAllThenAllSelected` | src/composables/useRowSelection.ts:32-48 | right after a multiple-mode `selectAll(rows)` with non-empty `rows`, `isAllSelected(rows)` holds and the event carries all of `rows` |
| `RowSelection.SingleModeAtMostOne` | src/composables/useRowSelection.ts:11-43 | in single mode every sequence of toggles, select-alls and clears keeps at most one row selected |
| `RowSelection.RowSelectionController.IsRowSelected` | src/composables/useRowSelection.ts:7-9 | `isRowSelected(id)` holds iff `id` is in the current set; it reads the state and changes nothing |
| `RowSelection.RowSelectionController.IsAllSelected` | src/composables/useRowSelection.ts:45-48 | on the controller's own mode and set: false in single mode or for no rows, otherwise true iff every row's id is selected |
| `RowSelection.RowSelectionController.constructor` | src/composables/useRowSelection.ts:4-5 | the controller starts with nothing selected, in the given mode |
| `RowSelection.RowSelectionController.ToggleRow` | src/composables/useRowSelection.ts:11-30 | the new set is `Toggled` of the old one; the single-mode bound is kept; the event is built from the new set |
| `RowSelection.RowSelectionController.SelectAll` | src/composables/useRowSelection.ts:32-38 | the new set is `AfterSelectAll` of the old one; the event is built from it and `allRows` |
| `RowSelection.RowSelectionController.ClearSelection` | src/composables/useRowSelection.ts:40-43 | the set becomes empty in either mode, so `IsRowSelected` is false for every id; the event is built from the empty set |
| `CellSelection.RowIdText` | src/composables/useCellSelection.ts:7 | the text of a non-negative numeric row id holds no `-` |
| `CellSelection.CellId` | src/composables/useCellSelection.ts:7 | the key is the row id's text, then `-`, then the field, so it always contains `-` |
| `CellSelection.Decode` | src/composables/useCellSelection.ts:40-41 | the decoded row id is the key's text before its first `-`; the field is present iff the key holds a `-`, and never holds a `-` itself |
| `CellSelection.PositionsCardinality` | src/composables/useCellSelection.ts:39-42 | decoding a set of keys gives at most one position per key |
| `CellSelection.Positions` | src/composables/useCellSelection.ts:39-42 | the positions are the decodings of the selected keys and nothing else, at most one per key |
| `CellSelection.CellEvent` | src/composables/useCellSelection.ts:38-48 | the event carries a copy of the keys and their decodings; an empty set gives no positions |
| `CellSelection.Toggled` | src/composables/useCellSelection.ts:13-24 | `toggleCell` flips the membership of exactly one key and leaves all other keys as they were |
| `CellSelection.ToggleTwice` | src/composables/useCellSelection.ts:13-24 | toggling the same key twice restores the set |
| `CellSelection.DecodeCellId` | src/composables/useCellSelection.ts:38-42 | when the row id's text has no `-`, decoding its key gives that text and the field cut at its first `-` |
| `CellSelection.RoundTrip` | src/composables/useCellSelection.ts:38-42 | with no `-` in the row id's text or the field, decoding gives back `(text of rowId, field)`: a numeric id comes back as a string |
| `CellSelection.FieldTruncated` | src/composables/useCellSelection.ts:40 | a field `a-b…` decodes as `a` only |
| `CellSelection.NumericRowIdDecodesAsText` | src/composables/useCellSelection.ts:7 | a non-negative numeric id decodes as its decimal text, and shares its key with the string id of that text |
| `CellSelection.NegativeRowIdShifts` | src/composables/useCellSelection.ts:7 | a negative numeric id starts the key with `-`: the row id decodes as `""` and the field as the id's digits |
| `CellSelection.NotInjective` | src/composables/useCellSelection.ts:7 | `("a-b", "c")` and `("a", "b-c")` have the same key, though the row ids differ |
| `CellSelection.DecodeInjectiveOnSimpleKeys` | src/composables/useCellSelection.ts:40 | two keys with exactly one `-` each and the same decoding are equal |
| `CellSelection.ToggleOneCellPositions` | src/composables/useCellSelection.ts:13-24 | toggling `("r1", "name")` on an empty selection gives exactly the position `("r1", "name")` |
| `CellSelection.CellSelectionController.IsCellSelected` | src/composables/useCellSelection.ts:9-11 | `isCellSelected(r, f)` holds iff the string `str(r) + "-" + f` is a selected key; it reads the state and changes nothing |
| `CellSelection.CellSelectionController.constructor` | src/composables/useCellSelection.ts:4-5 | the controller starts with no cell selected |
| `CellSelection.CellSelectionController.ToggleCell` | src/composables/useCellSelection.ts:13-25 | the new set is `Toggled` of the old one at the cell's key; every stored key holds a `-`, so every decoded position has a field |
| `CellSelection.CellSelectionController.SelectCell` | src/composables/useCellSelection.ts:27-31 | the set becomes exactly the cell's key, dropping all earlier selections |
| `CellSelection.CellSelectionController.ClearCellSelection` | src/composables/useCellSelection.ts:33-36 | the set becomes empty and the event has no positions |
| `ColumnResize.Resized` | src/composables/useColumnResize.ts:7-14 | with a valid index and a width above 50 the column gets that width and keeps its other attributes; otherwise (including width exactly 50) nothing changes; no other column changes and the length stays the same |
| `ColumnResize.Candidate` | src/composables/useColumnResize.ts:20-21 | the candidate width is never below 50; it is `startWidth + (x - startX)` when that is at least 50, and 50 otherwise |
| `ColumnResize.HandleMove` | src/composables/useColumnResize.ts:19-23 | one move handler keeps the length and every other column; its column keeps its field and header, and its width becomes `startWidth + (x - startX)` when that exceeds 50 and stays as it was otherwise |
| `ColumnResize.MoveSetsOrKeeps` | src/composables/useColumnResize.ts:19-23 | a move sets the width to `startWidth + (x - startX)` when that exceeds 50, and otherwise leaves it as it was, because the clamp to 50 is refused by the strict guard |
| `ColumnResize.Moved` | src/composables/useColumnResize.ts:19-23 | one mouse-move runs every installed handler in order; the length stays the same and no column without a drag changes |
| `ColumnResize.MovedWritesWide` | src/composables/useColumnResize.ts:19-23 | every column a mouse-move changes ends with a width above 50 |
| `ColumnResize.MovedKeepsWide` | src/composables/useColumnResize.ts:8 | if all widths are above 50 before a mouse-move, they all are after it |
| `ColumnResize.MovedSingle` | src/composables/useColumnResize.ts:19-23 | with one drag installed, a mouse-move runs exactly that drag's move handler |
| `ColumnResize.DragTraceStep` | src/composables/useColumnResize.ts:19-23 | a sequence of moves under one drag is what successive controller mouse-moves give: each further move at `x` is one more `Moved([h], ·, x)` |
| `ColumnResize.DragTraceFrame` | src/composables/useColumnResize.ts:16-23 | a drag changes only the width of its own column |
| `ColumnResize.AbsoluteDrag` | src/composables/useColumnResize.ts:17-22 | moves are absolute: when the last move's candidate exceeds 50 the columns equal the starting ones with that column's width set to `startWidth + (lastX - startX)`, whatever the earlier moves were |
| `ColumnResize.DragExample` | src/composables/useColumnResize.ts:16-23 | width 100, drag from 200: a move to 250 gives 150, and a further move to 120 keeps 150 |
| `ColumnResize.ColumnResizeController.constructor` | src/composables/useColumnResize.ts:4-5 | the columns are a fresh copy of the initial ones and no drag is installed |
| `ColumnResize.ColumnResizeController.ResizeColumn` | src/composables/useColumnResize.ts:7-14 | the array's new contents are `Resized` of the old contents |
| `ColumnResize.ColumnResizeController.StartResize` | src/composables/useColumnResize.ts:16-36 | for a valid index, the drag with the column's current width is appended to the installed ones; the cursor becomes `col-resize` and user-select `none`; the columns do not change |
| `ColumnResize.ColumnResizeController.MouseMove` | src/composables/useColumnResize.ts:19-23 | the array's new contents are `Moved` of the old contents under the installed drags |
| `ColumnResize.ColumnResizeController.MouseUp` | src/composables/useColumnResize.ts:25-30 | every drag ends, so later moves change nothing; when a drag was installed both styles become `''`, not their values before the drag; the columns do not change |

## Left out

- Vue reactivity: `ref` is a plain field and `computed` a plain function. The
  composables' returned refs of the state are the class fields.
- `clearSelection` and `clearCellSelection` empty the existing `Set` object in
  place, while the other operations replace it with a new one. The model
  treats sets as values, so a host holding the old `Set` object (and seeing it
  emptied) is not modelled. The events hold copies in both cases.
- DOM plumbing: `addEventListener`/`removeEventListener` are the `handlers`
  sequence. `document.body.style.cursor` and `userSelect` are the fields
  `cursor` and `userSelect`. Their values before the controller existed are
  constructor parameters.
- `startResize` with an index out of range makes the source throw a
  `TypeError` before anything is installed. The model states this as a
  precondition instead of modelling the exception.
- Pixel values (`width`, `startX`, `clientX`) are integers rather than
  floating-point numbers, and `Math.max` is integer maximum.
- Number-to-string formatting is modelled for integers only (plain decimal
  digits). Fractional values, exponent notation for large magnitudes, `-0`,
  `NaN` and `Infinity` are not.
- CellSelection.CellEvent: positions are a set of decoded pairs. The order of
  `Array.from(set)` (the set's insertion order) is not modelled. Two keys that
  decode alike (such as `a-b-c` and `a-b-d`) give one element, not two.
- `src/components/DataGrid/types.ts` (declarations only, apart from
  `SelectionMode`) and `src/components/DataGrid/index.ts` (plugin and
  component registration) are not part of this model.
