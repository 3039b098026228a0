/** A terminal cell (`TerminalCellLike` as implemented by a plain cell) and a
    uniform view of its five content fields. */
module Cells {
  import opened JavaLang

  /** `CellWalls`: the edges of a cell on which a border is drawn. */
  datatype Wall = Top | Bottom | Left | Right

  /** `TerminalStyle`: a style flag, identified by its enum ordinal. */
  datatype Style = Style(ordinal: nat)

  /** A populated cell: every content field is defined. */
  datatype Cell = Cell(
    sequence: JString,
    foreground: Int32,
    background: Int32,
    walls: set<Wall>,
    style: set<Style>,
    dirty: bool)

  /** The five content fields that a template may leave unset. */
  datatype Field = BackgroundField | ForegroundField | SequenceField | WallsField | StyleField

  const AllFields: set<Field> :=
    {BackgroundField, ForegroundField, SequenceField, WallsField, StyleField}

  /** The value held by one content field. */
  datatype Value =
    | IndexValue(index: Int32)
    | TextValue(text: JString)
    | WallsValue(walls: set<Wall>)
    | StyleValue(style: set<Style>)

  function CellField(c: Cell, f: Field): Value {
    match f
    case BackgroundField => IndexValue(c.background)
    case ForegroundField => IndexValue(c.foreground)
    case SequenceField => TextValue(c.sequence)
    case WallsField => WallsValue(c.walls)
    case StyleField => StyleValue(c.style)
  }

  /** Two cells agree on every content field exactly when they are equal
      apart from the dirty flag. */
  lemma SameContent(c: Cell, d: Cell)
    ensures (forall f :: CellField(c, f) == CellField(d, f)) <==> c.(dirty := d.dirty) == d
  {
    if forall f :: CellField(c, f) == CellField(d, f) {
      assert CellField(c, BackgroundField) == CellField(d, BackgroundField);
      assert CellField(c, ForegroundField) == CellField(d, ForegroundField);
      assert CellField(c, SequenceField) == CellField(d, SequenceField);
      assert CellField(c, WallsField) == CellField(d, WallsField);
      assert CellField(c, StyleField) == CellField(d, StyleField);
    }
  }
}
