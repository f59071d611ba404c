/** Column resizing (src/composables/useColumnResize.ts): an array of columns
    whose widths are overwritten in place, a guarded `resizeColumn`, and the
    drag protocol of `startResize`, whose mouse-move and mouse-up handlers stay
    installed on the document until the next mouse-up. */
module ColumnResize {
  import opened GridTypes

  /** `resizeColumn` accepts only widths strictly above this value; the drag
      clamps its candidate width to be at least this value. */
  const MinWidth: int := 50

  /** The listener pair one `startResize(index, startX)` installs, with the
      width the column had when the drag began. */
  datatype DragHandler = DragHandler(index: int, startX: int, startWidth: int)

  function Max(a: int, b: int): int
  {
    if a >= b then a else b
  }

  /** The columns after `resizeColumn(index, newWidth)`: the column at a valid
      index gets the new width, keeping its other attributes, when the width
      is above 50; otherwise nothing changes. No other column changes and the
      length stays the same. */
  function Resized(cols: seq<Column>, index: int, newWidth: int): (r: seq<Column>)
    ensures |r| == |cols|
    ensures forall j :: 0 <= j < |cols| && j != index ==> r[j] == cols[j]
    ensures 0 <= index < |cols| && newWidth > MinWidth ==>
      r[index].width == newWidth && r[index].field == cols[index].field && r[index].header == cols[index].header
    ensures !(0 <= index < |cols| && newWidth > MinWidth) ==> r == cols
  {
    if 0 <= index < |cols| && newWidth > MinWidth then cols[index := cols[index].(width := newWidth)] else cols
  }

  /** The width the move handler of `h` asks for when the pointer is at `x`:
      the start width plus the pointer's travel, but at least 50. */
  function Candidate(h: DragHandler, x: int): (w: int)
    ensures w >= MinWidth
    ensures h.startWidth + (x - h.startX) >= MinWidth ==> w == h.startWidth + (x - h.startX)
    ensures h.startWidth + (x - h.startX) < MinWidth ==> w == MinWidth
  {
    Max(MinWidth, h.startWidth + (x - h.startX))
  }

  /** What the move handler of `h` does: `resizeColumn(h.index, candidate)`. */
  function HandleMove(h: DragHandler, cols: seq<Column>, x: int): (r: seq<Column>)
    ensures |r| == |cols|
    ensures forall j :: 0 <= j < |cols| && j != h.index ==> r[j] == cols[j]
    ensures 0 <= h.index < |cols| ==>
      r[h.index].field == cols[h.index].field && r[h.index].header == cols[h.index].header
    ensures 0 <= h.index < |cols| ==>
      r[h.index].width == if h.startWidth + (x - h.startX) > MinWidth
                          then h.startWidth + (x - h.startX) else cols[h.index].width
  {
    Resized(cols, h.index, Candidate(h, x))
  }

  /** The floor and the guard together: a move sets the width to the start
      width plus the pointer's travel when that exceeds 50, and otherwise
      leaves the width as it was (the clamped value 50 is refused by the
      strict guard). */
  lemma MoveSetsOrKeeps(h: DragHandler, cols: seq<Column>, x: int)
    requires 0 <= h.index < |cols|
    ensures var w := h.startWidth + (x - h.startX);
      HandleMove(h, cols, x)[h.index].width == if w > MinWidth then w else cols[h.index].width
  {
  }

  /** Whether some installed handler drags column `j`. */
  predicate Dragged(hs: seq<DragHandler>, j: int)
  {
    exists k :: 0 <= k < |hs| && hs[k].index == j
  }

  /** The columns after one mouse-move at `x`, which the document delivers to
      every installed move handler in the order they were installed. */
  function Moved(hs: seq<DragHandler>, cols: seq<Column>, x: int): (r: seq<Column>)
    ensures |r| == |cols|
    ensures forall j :: 0 <= j < |cols| && !Dragged(hs, j) ==> r[j] == cols[j]
    decreases |hs|
  {
    if |hs| == 0 then cols
    else
      var prefix := hs[..|hs| - 1];
      assert forall j :: Dragged(prefix, j) ==> Dragged(hs, j);
      HandleMove(hs[|hs| - 1], Moved(prefix, cols, x), x)
  }

  /** All widths are above 50. */
  ghost predicate AllWide(cols: seq<Column>)
  {
    forall j :: 0 <= j < |cols| ==> cols[j].width > MinWidth
  }

  /** Every column a mouse-move changes ends with a width above 50. */
  lemma {:induction false} MovedWritesWide(hs: seq<DragHandler>, cols: seq<Column>, x: int)
    ensures forall j :: 0 <= j < |cols| && Moved(hs, cols, x)[j] != cols[j] ==>
      Moved(hs, cols, x)[j].width > MinWidth
    decreases |hs|
  {
    if |hs| > 0 {
      MovedWritesWide(hs[..|hs| - 1], cols, x);
    }
  }

  /** Hence widths that start above 50 stay above 50. */
  lemma MovedKeepsWide(hs: seq<DragHandler>, cols: seq<Column>, x: int)
    requires AllWide(cols)
    ensures AllWide(Moved(hs, cols, x))
  {
  }

  /** With one drag installed, a mouse-move runs just that drag's handler. */
  lemma MovedSingle(h: DragHandler, cols: seq<Column>, x: int)
    ensures Moved([h], cols, x) == HandleMove(h, cols, x)
  {
    assert [h][..0] == [];
  }

  /** The columns after the pointer moves through `xs`, with the single drag
      `h` installed. */
  function DragTrace(h: DragHandler, cols: seq<Column>, xs: seq<int>): seq<Column>
    decreases |xs|
  {
    if |xs| == 0 then cols else HandleMove(h, DragTrace(h, cols, xs[..|xs| - 1]), xs[|xs| - 1])
  }

  /** DragTrace is what successive mouse-moves give while only `h` is
      installed: one more move at `x` is one more `Moved([h], ·, x)`. */
  lemma DragTraceStep(h: DragHandler, cols: seq<Column>, xs: seq<int>, x: int)
    ensures DragTrace(h, cols, xs + [x]) == Moved([h], DragTrace(h, cols, xs), x)
  {
    assert (xs + [x])[..|xs|] == xs;
    MovedSingle(h, cols, x);
    MovedSingle(h, DragTrace(h, cols, xs), x);
  }

  /** A drag touches only the width of its own column. */
  lemma {:induction false} DragTraceFrame(h: DragHandler, cols: seq<Column>, xs: seq<int>)
    requires 0 <= h.index < |cols|
    ensures var r := DragTrace(h, cols, xs);
      |r| == |cols| && r == cols[h.index := cols[h.index].(width := r[h.index].width)]
    decreases |xs|
  {
    if |xs| > 0 {
      DragTraceFrame(h, cols, xs[..|xs| - 1]);
    }
  }

  /** Moves are absolute, not incremental: when the last move's candidate is
      above 50, the width is the start width plus the travel from the start
      point to that last position, whatever the earlier moves were, and only
      that width differs from the columns at drag start. */
  lemma AbsoluteDrag(h: DragHandler, cols: seq<Column>, xs: seq<int>)
    requires 0 <= h.index < |cols| && |xs| > 0
    requires h.startWidth + (xs[|xs| - 1] - h.startX) > MinWidth
    ensures DragTrace(h, cols, xs) ==
      cols[h.index := cols[h.index].(width := h.startWidth + (xs[|xs| - 1] - h.startX))]
  {
    DragTraceFrame(h, cols, xs[..|xs| - 1]);
  }

  /** Width 100, drag from x = 200: a move to 250 gives 150, and a further
      move to 120 (candidate 20, clamped to 50) keeps 150. */
  lemma DragExample()
    ensures DragTrace(DragHandler(0, 200, 100), [Column("a", "A", 100)], [250])[0].width == 150
    ensures DragTrace(DragHandler(0, 200, 100), [Column("a", "A", 100)], [250, 120])[0].width == 150
  {
  }

  /** The controller returned by `useColumnResize(initialColumns)`, with the
      document's cursor and user-select styles, which the drag sets and
      clears. */
  class ColumnResizeController {
    var columns: array<Column>
    /** The drags whose handlers are installed, oldest first. */
    var handlers: seq<DragHandler>
    var cursor: string
    var userSelect: string

    /** Every installed drag is on an existing column. */
    ghost predicate Valid()
      reads this
    {
      forall k :: 0 <= k < |handlers| ==> 0 <= handlers[k].index < columns.Length
    }

    /** `useColumnResize(initialColumns)`: the columns are a copy of the given
        ones; `cursor` and `userSelect` are the document's styles beforehand. */
    constructor (initialColumns: seq<Column>, cursor: string, userSelect: string)
      ensures Valid() && fresh(columns)
      ensures columns[..] == initialColumns && handlers == []
      ensures this.cursor == cursor && this.userSelect == userSelect
    {
      columns := new Column[|initialColumns|](i requires 0 <= i < |initialColumns| => initialColumns[i]);
      handlers := [];
      this.cursor := cursor;
      this.userSelect := userSelect;
    }

    /** `resizeColumn(index, newWidth)`. */
    method ResizeColumn(index: int, newWidth: int)
      modifies columns
      ensures columns[..] == Resized(old(columns[..]), index, newWidth)
    {
      if 0 <= index < columns.Length && newWidth > MinWidth {
        columns[index] := columns[index].(width := newWidth);
      }
    }

    /** `startResize(index, startX)`: reads the column's width (the source
        has no guard, so the index must be valid), installs a handler pair
        and sets the resize cursor and the no-select style. */
    method StartResize(index: int, startX: int)
      requires Valid()
      requires 0 <= index < columns.Length
      modifies this
      ensures Valid()
      ensures columns == old(columns) && unchanged(columns)
      ensures handlers == old(handlers) + [DragHandler(index, startX, columns[index].width)]
      ensures cursor == "col-resize" && userSelect == "none"
    {
      var startWidth := columns[index].width;
      handlers := handlers + [DragHandler(index, startX, startWidth)];
      cursor := "col-resize";
      userSelect := "none";
    }

    /** A mouse-move at `x`, delivered to each installed move handler. */
    method MouseMove(x: int)
      modifies columns
      ensures columns[..] == Moved(handlers, old(columns[..]), x)
    {
      for k := 0 to |handlers|
        invariant columns[..] == Moved(handlers[..k], old(columns[..]), x)
      {
        assert handlers[..k + 1][..k] == handlers[..k];
        var h := handlers[k];
        ResizeColumn(h.index, Candidate(h, x));
      }
      assert handlers[..|handlers|] == handlers;
    }

    /** A mouse-up. Each installed up handler removes its own pair and sets
        both styles to '' (not back to what they were before the drag); with
        no drag installed nothing listens and nothing changes. */
    method MouseUp()
      modifies this
      ensures Valid()
      ensures columns == old(columns) && unchanged(columns)
      ensures handlers == []
      ensures old(handlers) != [] ==> cursor == "" && userSelect == ""
      ensures old(handlers) == [] ==> cursor == old(cursor) && userSelect == old(userSelect)
    {
      if handlers != [] {
        handlers := [];
        cursor := "";
        userSelect := "";
      }
    }
  }

  /** The same drag through the controller: after the mouse-up further
      moves have no effect and the styles are ''. */
  method DragScenario()
  {
    var c := new ColumnResizeController([Column("a", "A", 100)], "auto", "text");
    c.StartResize(0, 200);
    assert c.handlers == [DragHandler(0, 200, 100)];
    c.MouseMove(250);
    assert c.columns[0].width == 150;
    c.MouseMove(120);
    assert c.columns[0].width == 150;
    c.MouseUp();
    c.MouseMove(400);
    assert c.columns[0].width == 150;
    assert c.cursor == "" && c.userSelect == "";
  }
}
