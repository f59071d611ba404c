/** Cell selection (src/composables/useCellSelection.ts): a set of string keys,
    one per selected cell, each the row id's text, a '-', and the field. Events
    decode every key back into a position by splitting it at '-'. */
module CellSelection {
  import opened GridTypes
  import JsText

  /** The character between the row id and the field in a cell key. */
  const Separator: char := '-'

  /** The text a template literal gives a row id: a string as it is, a number
      in decimal (with a leading '-' when negative). */
  function RowIdText(id: RowId): (t: string)
    ensures id.Num? && id.n >= 0 ==> Separator !in t
  {
    match id
    case Str(s) => s
    case Num(n) => JsText.IntToDecimal(n)
  }

  /** `getCellId(rowId, field)`, the key `${rowId}-${field}`. */
  function CellId(rowId: RowId, field: string): (key: string)
    ensures Separator in key
    ensures |key| == |RowIdText(rowId)| + 1 + |field|
    ensures key[..|RowIdText(rowId)|] == RowIdText(rowId)
    ensures key[|RowIdText(rowId)|] == Separator && key[|RowIdText(rowId)| + 1..] == field
  {
    RowIdText(rowId) + [Separator] + field
  }

  /** `const [rowId, field] = key.split('-')`: the first piece is the row id,
      the second (if any) the field, and every further piece is dropped. */
  function Decode(key: string): (p: CellPosition)
    ensures p.rowId == JsText.Before(key, Separator)
    ensures p.field.Some? <==> Separator in key
    ensures p.field.Some? ==> Separator !in p.field.value
  {
    var pieces := JsText.Split(key, Separator);
    JsText.SplitFirstPiece(key, Separator);
    CellPosition(pieces[0], if |pieces| >= 2 then Some(pieces[1]) else None)
  }

  /** The positions of an event: the decoding of every selected key, and
      nothing else. Distinct keys may decode alike, so there are at most as
      many positions as keys. */
  function Positions(keys: set<string>): (ps: set<CellPosition>)
    ensures forall k :: k in keys ==> Decode(k) in ps
    ensures forall p :: p in ps ==> exists k :: k in keys && Decode(k) == p
    ensures |ps| <= |keys|
  {
    PositionsCardinality(keys);
    set k | k in keys :: Decode(k)
  }

  /** Decoding a set of keys gives at most one position per key. */
  lemma {:induction false} PositionsCardinality(keys: set<string>)
    ensures |set k | k in keys :: Decode(k)| <= |keys|
    decreases |keys|
  {
    if keys != {} {
      var x :| x in keys;
      var rest := keys - {x};
      PositionsCardinality(rest);
      assert (set k | k in keys :: Decode(k)) == (set k | k in rest :: Decode(k)) + {Decode(x)};
    }
  }

  /** `createCellSelectionEvent()`: a copy of the keys and their decodings. */
  function CellEvent(keys: set<string>): (e: CellSelectionChangeEvent)
    ensures e.selectedCells == keys
    ensures forall k :: k in keys ==> Decode(k) in e.positions
    ensures forall p :: p in e.positions ==> exists k :: k in keys && Decode(k) == p
    ensures keys == {} ==> e.positions == {}
  {
    CellSelectionChangeEvent(keys, Positions(keys))
  }

  /** The keys after toggling `key`: its membership flips, no other changes. */
  function Toggled(keys: set<string>, key: string): (r: set<string>)
    ensures key in r <==> key !in keys
    ensures forall k :: k != key ==> (k in r <==> k in keys)
  {
    if key in keys then keys - {key} else keys + {key}
  }

  /** Toggling the same key twice restores the selection. */
  lemma ToggleTwice(keys: set<string>, key: string)
    ensures Toggled(Toggled(keys, key), key) == keys
  {
  }

  /** Decoding a cell key whose row id text has no '-': the row id comes back
      as text and the field is cut at its own first '-'. */
  lemma DecodeCellId(rowId: RowId, field: string)
    requires Separator !in RowIdText(rowId)
    ensures Decode(CellId(rowId, field)) ==
      CellPosition(RowIdText(rowId), Some(JsText.Before(field, Separator)))
  {
    JsText.SplitAtFirst(RowIdText(rowId), Separator, field);
    JsText.SplitFirstPiece(field, Separator);
  }

  /** The round trip: with no '-' in the row id text or the field, decoding
      the key gives back the row id's text and the field. */
  lemma RoundTrip(rowId: RowId, field: string)
    requires Separator !in RowIdText(rowId) && Separator !in field
    ensures Decode(CellId(rowId, field)) == CellPosition(RowIdText(rowId), Some(field))
  {
    DecodeCellId(rowId, field);
    JsText.SplitNoSeparator(field, Separator);
    JsText.SplitFirstPiece(field, Separator);
  }

  /** A field containing '-' is truncated at its first '-'. */
  lemma FieldTruncated(rowId: RowId, a: string, b: string)
    requires Separator !in RowIdText(rowId) && Separator !in a
    ensures Decode(CellId(rowId, a + [Separator] + b)).field == Some(a)
  {
    DecodeCellId(rowId, a + [Separator] + b);
    JsText.SplitAtFirst(a, Separator, b);
    JsText.SplitFirstPiece(a + [Separator] + b, Separator);
  }

  /** A non-negative numeric row id decodes as its decimal text, and shares
      its key with the string row id of that text. */
  lemma NumericRowIdDecodesAsText(n: nat, field: string)
    requires Separator !in field
    ensures Decode(CellId(Num(n), field)) == CellPosition(JsText.NatToDecimal(n), Some(field))
    ensures CellId(Num(n), field) == CellId(Str(JsText.NatToDecimal(n)), field)
  {
    RoundTrip(Num(n), field);
  }

  /** A negative numeric row id begins the key with '-': the row id decodes as
      the empty string and the field as the id's digits. */
  lemma NegativeRowIdShifts(n: int, field: string)
    requires n < 0
    ensures Decode(CellId(Num(n), field)) == CellPosition("", Some(JsText.NatToDecimal(-n)))
  {
    var digits := JsText.NatToDecimal(-n);
    assert Separator !in digits;
    assert CellId(Num(n), field) == [] + [Separator] + (digits + [Separator] + field);
    JsText.SplitAtFirst([], Separator, digits + [Separator] + field);
    JsText.SplitAtFirst(digits, Separator, field);
  }

  /** The encoding is not injective: moving a '-' between the row id and the
      field gives the same key. */
  lemma NotInjective(a: string, b: string, c: string)
    ensures CellId(Str(a + [Separator] + b), c) == CellId(Str(a), b + [Separator] + c)
    ensures a + [Separator] + b != a
  {
  }

  /** Keys with exactly one '-' are told apart by their decodings. */
  lemma DecodeInjectiveOnSimpleKeys(k1: string, k2: string)
    requires |JsText.Split(k1, Separator)| == 2 && |JsText.Split(k2, Separator)| == 2
    requires Decode(k1) == Decode(k2)
    ensures k1 == k2
  {
    var p1 := JsText.Split(k1, Separator);
    var p2 := JsText.Split(k2, Separator);
    assert p1 == [p1[0], p1[1]] && p2 == [p2[0], p2[1]];
    assert p1 == p2;
  }

  /** Toggling ("r1", "name") on an empty selection gives exactly one
      position, ("r1", "name"). */
  lemma ToggleOneCellPositions()
    ensures CellEvent(Toggled({}, CellId(Str("r1"), "name"))).positions ==
      {CellPosition("r1", Some("name"))}
  {
    RoundTrip(Str("r1"), "name");
    var keys := Toggled({}, CellId(Str("r1"), "name"));
    assert keys == {CellId(Str("r1"), "name")};
  }

  /** The controller returned by `useCellSelection()`. */
  class CellSelectionController {
    var selectedCells: set<string>

    /** Every stored key was made by CellId, so it holds a '-'. */
    ghost predicate Valid()
      reads this
    {
      forall k :: k in selectedCells ==> Separator in k
    }

    /** `useCellSelection()`: nothing is selected at first. */
    constructor ()
      ensures Valid() && selectedCells == {}
    {
      selectedCells := {};
    }

    /** `isCellSelected(rowId, field)`: a membership test of the key. */
    function IsCellSelected(rowId: RowId, field: string): (b: bool)
      reads this
      ensures b <==> RowIdText(rowId) + [Separator] + field in selectedCells
    {
      CellId(rowId, field) in selectedCells
    }

    /** `toggleCell(rowId, field)`. */
    method ToggleCell(rowId: RowId, field: string) returns (e: CellSelectionChangeEvent)
      requires Valid()
      modifies this
      ensures Valid()
      ensures selectedCells == Toggled(old(selectedCells), CellId(rowId, field))
      ensures e == CellEvent(selectedCells)
      ensures forall p :: p in e.positions ==> p.field.Some?
    {
      var cellId := CellId(rowId, field);
      var next := selectedCells;
      if cellId in next {
        next := next - {cellId};
      } else {
        next := next + {cellId};
      }
      selectedCells := next;
      e := CellEvent(selectedCells);
    }

    /** `selectCell(rowId, field)`: exactly this cell, earlier ones dropped. */
    method SelectCell(rowId: RowId, field: string) returns (e: CellSelectionChangeEvent)
      modifies this
      ensures Valid()
      ensures selectedCells == {CellId(rowId, field)}
      ensures e == CellEvent(selectedCells)
    {
      var cellId := CellId(rowId, field);
      selectedCells := {cellId};
      e := CellEvent(selectedCells);
    }

    /** `clearCellSelection()`: nothing stays selected and the event has no
        positions. */
    method ClearCellSelection() returns (e: CellSelectionChangeEvent)
      modifies this
      ensures Valid()
      ensures selectedCells == {}
      ensures e == CellEvent({}) && e.positions == {}
    {
      selectedCells := {};
      e := CellEvent(selectedCells);
    }
  }

  /** A host driving the controller: two different cells share one key, so
      toggling one selects and deselects the other. */
  method CollisionScenario()
  {
    var c := new CellSelectionController();
    assert "a" + [Separator] + "b" == "a-b" && "b" + [Separator] + "c" == "b-c";
    NotInjective("a", "b", "c");
    var e := c.ToggleCell(Str("a-b"), "c");
    assert c.IsCellSelected(Str("a"), "b-c");
    e := c.ToggleCell(Str("a"), "b-c");
    assert !c.IsCellSelected(Str("a-b"), "c");
  }

  /** SelectCell drops every earlier selection. */
  method ExclusiveScenario(r: RowId, f: string, g: string)
    requires f != g
  {
    var c := new CellSelectionController();
    var e := c.ToggleCell(r, f);
    e := c.ToggleCell(r, g);
    e := c.SelectCell(r, g);
    assert !c.IsCellSelected(r, f) && c.IsCellSelected(r, g);
    e := c.ClearCellSelection();
    assert !c.IsCellSelected(r, g) && e.positions == {};
  }
}
