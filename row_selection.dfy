/** Row selection (src/composables/useRowSelection.ts): a set of row ids under
    a selection mode fixed at construction. The pure functions below give the
    state each operation produces; the controller class holds the state and
    replaces it, as the composable does with its `selectedRows` ref. */
module RowSelection {
  import opened GridTypes

  /** `new Set(allRows.map(row => row.id))`: exactly the ids of the rows. */
  function IdsOf(rows: seq<RowData>): (ids: set<RowId>)
    ensures forall i :: 0 <= i < |rows| ==> rows[i].id in ids
    ensures forall id :: id in ids ==> exists i :: 0 <= i < |rows| && rows[i].id == id
    ensures |ids| <= |rows|
  {
    if |rows| == 0 then {}
    else
      var rest := IdsOf(rows[1..]);
      assert forall i :: 1 <= i < |rows| ==> rows[i] == rows[1..][i - 1];
      {rows[0].id} + rest
  }

  /** The selection after `toggleRow(id)`. In single mode the copy is cleared
      and `id` is added back only if it was not selected before; in multiple
      mode only `id`'s membership flips. */
  function Toggled(mode: SelectionMode, s: set<RowId>, id: RowId): (r: set<RowId>)
    ensures (id in r) <==> (id !in s)
    ensures mode == Single ==> r <= {id}
    ensures mode == Multiple ==> forall x :: x != id ==> (x in r <==> x in s)
  {
    match mode
    case Single => if id in s then {} else {id}
    case Multiple => if id in s then s - {id} else s + {id}
  }

  /** The selection after `selectAll(rows)`: unchanged in single mode, the ids
      of `rows` and nothing else in multiple mode. */
  function AfterSelectAll(mode: SelectionMode, s: set<RowId>, rows: seq<RowData>): (r: set<RowId>)
    ensures mode == Single ==> r == s
    ensures mode == Multiple ==> forall i :: 0 <= i < |rows| ==> rows[i].id in r
    ensures mode == Multiple ==> forall id :: id in r ==> exists i :: 0 <= i < |rows| && rows[i].id == id
  {
    if mode == Single then s else IdsOf(rows)
  }

  /** `rows.every(row => s.has(row.id))`. */
  function EveryIdIn(rows: seq<RowData>, s: set<RowId>): (b: bool)
    ensures b <==> forall i :: 0 <= i < |rows| ==> rows[i].id in s
  {
    if |rows| == 0 then true
    else
      assert forall i :: 1 <= i < |rows| ==> rows[i] == rows[1..][i - 1];
      rows[0].id in s && EveryIdIn(rows[1..], s)
  }

  /** `isAllSelected(rows)`: never in single mode, never for an empty row
      list, otherwise exactly when every row's id is selected. */
  function AllSelected(mode: SelectionMode, s: set<RowId>, rows: seq<RowData>): (b: bool)
    ensures b <==> mode == Multiple && |rows| > 0 && forall i :: 0 <= i < |rows| ==> rows[i].id in s
  {
    if mode == Single || |rows| == 0 then false
    else
      assert mode == Multiple;
      EveryIdIn(rows, s)
  }

  /** `rows.filter(row => s.has(row.id))`: the selected rows, in order. */
  function SelectedRowData(rows: seq<RowData>, s: set<RowId>): (r: seq<RowData>)
    ensures forall x :: x in r <==> x in rows && x.id in s
    ensures |r| <= |rows|
  {
    if |rows| == 0 then []
    else
      var rest := SelectedRowData(rows[1..], s);
      assert forall x :: x in rows <==> x == rows[0] || x in rows[1..];
      if rows[0].id in s then [rows[0]] + rest else rest
  }

  /** The filter works row by row: filtering a concatenation concatenates the
      filtered parts, so the selected rows keep the order of `rows`. */
  lemma {:induction false} SelectedRowDataAppend(a: seq<RowData>, b: seq<RowData>, s: set<RowId>)
    ensures SelectedRowData(a + b, s) == SelectedRowData(a, s) + SelectedRowData(b, s)
    decreases |a|
  {
    if |a| > 0 {
      assert (a + b)[1..] == a[1..] + b;
      SelectedRowDataAppend(a[1..], b, s);
    } else {
      assert a + b == b;
    }
  }

  /** A single row is kept exactly when its id is selected. */
  lemma SelectedRowDataSingle(x: RowData, s: set<RowId>)
    ensures SelectedRowData([x], s) == if x.id in s then [x] else []
  {
  }

  /** The filter on a two-row list, by the two lemmas above. */
  lemma SelectedRowDataPair(a: RowData, b: RowData, s: set<RowId>)
    ensures SelectedRowData([a, b], s) ==
      (if a.id in s then [a] else []) + (if b.id in s then [b] else [])
  {
  }

  /** When every row's id is selected the filter keeps every row. */
  lemma {:induction false} SelectedRowDataAll(rows: seq<RowData>, s: set<RowId>)
    requires forall i :: 0 <= i < |rows| ==> rows[i].id in s
    ensures SelectedRowData(rows, s) == rows
    decreases |rows|
  {
    if |rows| > 0 {
      assert forall i :: 1 <= i < |rows| ==> rows[1..][i - 1] == rows[i];
      SelectedRowDataAll(rows[1..], s);
      assert [rows[0]] + rows[1..] == rows;
    }
  }

  /** `createSelectionEvent(allRows)`: a copy of the selection and the selected
      rows of `allRows` in their order, or no rows when `allRows` is omitted. */
  function SelectionEvent(s: set<RowId>, allRows: Option<seq<RowData>>): (e: SelectionChangeEvent)
    ensures e.selectedRows == s
    ensures forall i :: 0 <= i < |e.selectedRowData| ==> e.selectedRowData[i].id in s
    ensures allRows.None? ==> e.selectedRowData == []
    ensures allRows.Some? ==> e.selectedRowData == SelectedRowData(allRows.value, s)
  {
    match allRows
    case None => SelectionChangeEvent(s, [])
    case Some(rows) => SelectionChangeEvent(s, SelectedRowData(rows, s))
  }

  /** Toggling the same id twice in multiple mode restores the selection. */
  lemma ToggleTwiceMultiple(s: set<RowId>, id: RowId)
    ensures Toggled(Multiple, Toggled(Multiple, s, id), id) == s
  {
  }

  /** In single mode a second toggle of the same id ends with nothing selected
      when the id was not selected before, and with only that id otherwise. */
  lemma ToggleTwiceSingle(s: set<RowId>, id: RowId)
    ensures Toggled(Single, Toggled(Single, s, id), id) == if id in s then {id} else {}
  {
  }

  /** Right after a multiple-mode `selectAll(rows)` with some rows, every row
      is selected, and the event carries all of `rows`. */
  lemma SelectAllThenAllSelected(s: set<RowId>, rows: seq<RowData>)
    requires |rows| > 0
    ensures AllSelected(Multiple, AfterSelectAll(Multiple, s, rows), rows)
    ensures SelectionEvent(AfterSelectAll(Multiple, s, rows), Some(rows)).selectedRowData == rows
  {
    SelectedRowDataAll(rows, AfterSelectAll(Multiple, s, rows));
  }

  /** One call on the controller, for reasoning about call sequences. */
  datatype RowOp = Toggle(id: RowId) | SelectAll(rows: seq<RowData>) | Clear

  /** The selection after one call. */
  function Step(mode: SelectionMode, s: set<RowId>, op: RowOp): set<RowId>
  {
    match op
    case Toggle(id) => Toggled(mode, s, id)
    case SelectAll(rows) => AfterSelectAll(mode, s, rows)
    case Clear => {}
  }

  /** The selection after a sequence of calls, first call first. */
  function Run(mode: SelectionMode, s: set<RowId>, ops: seq<RowOp>): set<RowId>
    decreases |ops|
  {
    if |ops| == 0 then s else Run(mode, Step(mode, s, ops[0]), ops[1..])
  }

  /** In single mode no sequence of toggles, select-alls and clears ever
      selects more than one row. */
  lemma {:induction false} SingleModeAtMostOne(s: set<RowId>, ops: seq<RowOp>)
    requires |s| <= 1
    ensures |Run(Single, s, ops)| <= 1
    decreases |ops|
  {
    if |ops| > 0 {
      var t := Step(Single, s, ops[0]);
      match ops[0] {
        case Toggle(id) =>
          assert t <= {id};
          assert |t| <= |{id}|;
        case SelectAll(rows) =>
        case Clear =>
      }
      SingleModeAtMostOne(t, ops[1..]);
    }
  }

  /** The controller returned by `useRowSelection(mode)`. */
  class RowSelectionController {
    const mode: SelectionMode
    var selectedRows: set<RowId>

    /** In single mode at most one row is selected. */
    ghost predicate Valid()
      reads this
    {
      mode == Single ==> |selectedRows| <= 1
    }

    /** `useRowSelection(mode)`: the selection starts empty. The composable's
        default mode is Single. */
    constructor (mode: SelectionMode)
      ensures Valid()
      ensures this.mode == mode && selectedRows == {}
    {
      this.mode := mode;
      selectedRows := {};
    }

    /** `isRowSelected(id)`: a membership test that reads the state only. */
    function IsRowSelected(id: RowId): (b: bool)
      reads this
      ensures b <==> id in selectedRows
    {
      id in selectedRows
    }

    /** `isAllSelected(rows)`: false in single mode and for no rows,
        otherwise whether every row's id is selected. */
    function IsAllSelected(rows: seq<RowData>): (b: bool)
      reads this
      ensures b <==> (mode == Multiple && |rows| > 0 &&
                      forall i :: 0 <= i < |rows| ==> rows[i].id in selectedRows)
    {
      AllSelected(mode, selectedRows, rows)
    }

    /** `toggleRow(id, allRows?)`. */
    method ToggleRow(id: RowId, allRows: Option<seq<RowData>>) returns (e: SelectionChangeEvent)
      modifies this
      ensures Valid()
      ensures selectedRows == Toggled(mode, old(selectedRows), id)
      ensures e == SelectionEvent(selectedRows, allRows)
    {
      var next := selectedRows;
      if mode == Single {
        next := {};
        if id !in selectedRows {
          next := next + {id};
        }
      } else {
        if id in next {
          next := next - {id};
        } else {
          next := next + {id};
        }
      }
      assert mode == Single ==> next <= {id} && |next| <= |{id}|;
      selectedRows := next;
      e := SelectionEvent(selectedRows, allRows);
    }

    /** `selectAll(allRows)`. */
    method SelectAll(allRows: seq<RowData>) returns (e: SelectionChangeEvent)
      requires Valid()
      modifies this
      ensures Valid()
      ensures selectedRows == AfterSelectAll(mode, old(selectedRows), allRows)
      ensures e == SelectionEvent(selectedRows, Some(allRows))
    {
      if mode == Single {
        e := SelectionEvent(selectedRows, Some(allRows));
        return;
      }
      selectedRows := IdsOf(allRows);
      e := SelectionEvent(selectedRows, Some(allRows));
    }

    /** `clearSelection(allRows?)`: empties the selection in either mode, so
        no row is selected afterwards. */
    method ClearSelection(allRows: Option<seq<RowData>>) returns (e: SelectionChangeEvent)
      modifies this
      ensures Valid()
      ensures selectedRows == {}
      ensures forall id :: !IsRowSelected(id)
      ensures e == SelectionEvent({}, allRows)
    {
      selectedRows := {};
      e := SelectionEvent(selectedRows, allRows);
    }
  }

  /** A host driving a single-mode controller: what callers can conclude
      from the method contracts alone. */
  method SingleModeScenario(a: RowData, b: RowData)
    requires a.id != b.id
  {
    var c := new RowSelectionController(Single);
    var e := c.ToggleRow(a.id, Some([a, b]));
    SelectedRowDataPair(a, b, {a.id});
    assert e.selectedRows == {a.id} && e.selectedRowData == [a];
    e := c.ToggleRow(b.id, None);
    assert c.selectedRows == {b.id} && e.selectedRowData == [];
    e := c.SelectAll([a, b]);
    assert c.selectedRows == {b.id} && !c.IsAllSelected([a, b]);
  }

  /** The same for a multiple-mode controller: toggles flip one id each. */
  method MultipleModeScenario(a: RowData, b: RowData)
    requires a.id != b.id
  {
    var c := new RowSelectionController(Multiple);
    var e := c.ToggleRow(a.id, None);
    e := c.ToggleRow(b.id, None);
    assert c.selectedRows == {a.id, b.id};
    assert c.IsAllSelected([a, b]);
    e := c.ToggleRow(a.id, Some([a, b]));
    assert c.selectedRows == {b.id};
    SelectedRowDataPair(a, b, {b.id});
    assert e.selectedRowData == [b];
    e := c.ClearSelection(Some([a, b]));
    SelectedRowDataPair(a, b, {});
    assert !c.IsRowSelected(b.id) && e.selectedRowData == [];
  }

  /** After a multiple-mode select-all every given row is selected. */
  method SelectAllScenario(rows: seq<RowData>)
    requires |rows| > 0
  {
    var c := new RowSelectionController(Multiple);
    var e := c.SelectAll(rows);
    assert c.IsAllSelected(rows);
  }
}
