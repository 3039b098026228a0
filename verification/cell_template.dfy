/** `TerminalCellTemplate`: a sparse overlay for a terminal cell. Every field
    starts out unset (`None`, Java's `null`); applying the template to a cell
    overwrites only the fields the template sets and leaves the rest alone. */
module CellTemplates {
  import opened Wrappers
  import opened JavaLang
  import opened Cells

  /** An opaque `TerminalCellTransformer`; what it does is supplied by the
      caller of `ApplyOn` as a `Transform`. */
  datatype Hook = Hook(id: nat)

  /** The `Regionlike` bounds handed through to the transformer. */
  datatype Region = Region(y: int, x: int, height: int, width: int)

  /** What running a hook on (cell, bounds, y, x) does: whether it reports a
      change, and the cell it leaves behind. */
  type Transform = (Hook, Cell, Region, int, int) -> (bool, Cell)

  datatype Template = Template(
    transformer: Option<Hook>,
    walls: Option<set<Wall>>,
    style: Option<set<Style>>,
    sequence: Option<JString>,
    foreground: Option<Int32>,
    background: Option<Int32>)

  /** The exceptions the template's methods throw: reading or extending an
      unset field (`NullPointerException`), a null enum handed to `EnumSet`
      (`NullPointerException`), or an invalid code point handed to
      `Character.toChars` (`IllegalArgumentException`). */
  datatype TemplateError = UnsetField(field: Field) | NullElement | BadCodePoint(cause: CodePointError)

  /** What Java's string concatenation appends for a null operand. */
  const NullText: JString := [0x6E, 0x75, 0x6C, 0x6C]

  /** The outcome of `set`: the template as it stands when `set` returns or
      throws, and the exception, if any. */
  datatype Copy = Copy(template: Template, error: Option<TemplateError>)

  function TemplateField(t: Template, f: Field): Option<Value> {
    match f
    case BackgroundField => if t.background.Some? then Some(IndexValue(t.background.value)) else None
    case ForegroundField => if t.foreground.Some? then Some(IndexValue(t.foreground.value)) else None
    case SequenceField => if t.sequence.Some? then Some(TextValue(t.sequence.value)) else None
    case WallsField => if t.walls.Some? then Some(WallsValue(t.walls.value)) else None
    case StyleField => if t.style.Some? then Some(StyleValue(t.style.value)) else None
  }

  /** The fields the template sets. */
  function Present(t: Template): (fs: set<Field>)
    ensures forall f :: f in fs <==> TemplateField(t, f).Some?
  {
    (if t.background.Some? then {BackgroundField} else {})
    + (if t.foreground.Some? then {ForegroundField} else {})
    + (if t.sequence.Some? then {SequenceField} else {})
    + (if t.walls.Some? then {WallsField} else {})
    + (if t.style.Some? then {StyleField} else {})
  }

  /** Every field is set, so the template can stand in for a plain cell. */
  predicate Complete(t: Template) {
    Present(t) == AllFields
  }

  /** `r` differs from `t` at most in field `f`; the hook is kept. */
  predicate OnlyChanged(t: Template, r: Template, f: Field) {
    && r.transformer == t.transformer
    && forall g :: g != f ==> TemplateField(r, g) == TemplateField(t, g)
  }

  // ---------------------------------------------------------------- construction

  /** `new TerminalCellTemplate()`. */
  function Empty(): (r: Template)
    ensures Present(r) == {} && r.transformer.None?
  {
    Template(None, None, None, None, None, None)
  }

  /** `internalSetAll`: each non-null argument replaces the corresponding
      field; a null argument leaves the field as it was. */
  function InternalSetAll(t: Template, transformer: Option<Hook>, sequence: Option<JString>,
                          fore: Option<Int32>, back: Option<Int32>,
                          style: Option<set<Style>>, walls: Option<set<Wall>>): (r: Template)
    ensures var args := Template(transformer, walls, style, sequence, fore, back);
      && r.transformer == (if transformer.Some? then transformer else t.transformer)
      && (forall f :: f in Present(args) ==> TemplateField(r, f) == TemplateField(args, f))
      && (forall f :: f !in Present(args) ==> TemplateField(r, f) == TemplateField(t, f))
  {
    Template(
      if transformer.Some? then transformer else t.transformer,
      if walls.Some? then walls else t.walls,
      if style.Some? then style else t.style,
      if sequence.Some? then sequence else t.sequence,
      if fore.Some? then fore else t.foreground,
      if back.Some? then back else t.background)
  }

  /** The constructors, which all delegate to `internalSetAll` on a fresh
      template (an omitted argument is passed as null): exactly the non-null
      arguments become set fields. */
  function New(transformer: Option<Hook>, sequence: Option<JString>,
               fore: Option<Int32>, back: Option<Int32>,
               style: Option<set<Style>>, walls: Option<set<Wall>>): (r: Template)
    ensures r == Template(transformer, walls, style, sequence, fore, back)
  {
    InternalSetAll(Empty(), transformer, sequence, fore, back, style, walls)
  }

  // ---------------------------------------------------------------- getters

  function GetBackground(t: Template): (r: Result<Int32, TemplateError>)
    ensures r.Success? <==> BackgroundField in Present(t)
    ensures r.Success? ==> TemplateField(t, BackgroundField) == Some(IndexValue(r.value))
    ensures r.Failure? ==> r.error == UnsetField(BackgroundField)
  {
    match t.background
    case Some(v) => Success(v)
    case None => Failure(UnsetField(BackgroundField))
  }

  function GetForeground(t: Template): (r: Result<Int32, TemplateError>)
    ensures r.Success? <==> ForegroundField in Present(t)
    ensures r.Success? ==> TemplateField(t, ForegroundField) == Some(IndexValue(r.value))
    ensures r.Failure? ==> r.error == UnsetField(ForegroundField)
  {
    match t.foreground
    case Some(v) => Success(v)
    case None => Failure(UnsetField(ForegroundField))
  }

  function GetSequence(t: Template): (r: Result<JString, TemplateError>)
    ensures r.Success? <==> SequenceField in Present(t)
    ensures r.Success? ==> TemplateField(t, SequenceField) == Some(TextValue(r.value))
    ensures r.Failure? ==> r.error == UnsetField(SequenceField)
  {
    match t.sequence
    case Some(s) => Success(s)
    case None => Failure(UnsetField(SequenceField))
  }

  function GetCellWalls(t: Template): (r: Result<set<Wall>, TemplateError>)
    ensures r.Success? <==> WallsField in Present(t)
    ensures r.Success? ==> TemplateField(t, WallsField) == Some(WallsValue(r.value))
    ensures r.Failure? ==> r.error == UnsetField(WallsField)
  {
    match t.walls
    case Some(w) => Success(w)
    case None => Failure(UnsetField(WallsField))
  }

  function GetStyle(t: Template): (r: Result<set<Style>, TemplateError>)
    ensures r.Success? <==> StyleField in Present(t)
    ensures r.Success? ==> TemplateField(t, StyleField) == Some(StyleValue(r.value))
    ensures r.Failure? ==> r.error == UnsetField(StyleField)
  {
    match t.style
    case Some(s) => Success(s)
    case None => Failure(UnsetField(StyleField))
  }

  /** `isDirty`: a template always reports itself dirty. */
  function IsDirty(t: Template): (r: bool)
    ensures r
  {
    true
  }

  // ---------------------------------------------------------------- setters

  function SetBackground(t: Template, v: Int32): (r: Template)
    ensures OnlyChanged(t, r, BackgroundField)
    ensures TemplateField(r, BackgroundField) == Some(IndexValue(v))
  {
    t.(background := Some(v))
  }

  function SetForeground(t: Template, v: Int32): (r: Template)
    ensures OnlyChanged(t, r, ForegroundField)
    ensures TemplateField(r, ForegroundField) == Some(IndexValue(v))
  {
    t.(foreground := Some(v))
  }

  /** `setSequence(String)`: a null string unsets the field again. */
  function SetSequence(t: Template, s: Option<JString>): (r: Template)
    ensures OnlyChanged(t, r, SequenceField)
    ensures SequenceField in Present(r) <==> s.Some?
    ensures s.Some? ==> TemplateField(r, SequenceField) == Some(TextValue(s.value))
  {
    t.(sequence := s)
  }

  /** `setSequence(int)`: the field becomes the code point's characters. */
  function SetSequenceCodePoint(t: Template, cp: int): (r: Result<Template, TemplateError>)
    ensures r.Success? <==> ValidCodePoint(cp)
    ensures r.Failure? ==> r.error == BadCodePoint(InvalidCodePoint(cp))
    ensures r.Success? ==> OnlyChanged(t, r.value, SequenceField)
                           && r.value.sequence == ToChars(cp)
                           && |r.value.sequence.value| > 0
                           && CodePointAt(r.value.sequence.value) == cp
  {
    match ToChars(cp)
    case None => Failure(BadCodePoint(InvalidCodePoint(cp)))
    case Some(s) =>
      ToCharsRoundTrip(cp);
      Success(t.(sequence := Some(s)))
  }

  /** `setCellWalls(Set)`: a null or empty set makes the field set but
      empty, never unset. */
  function SetCellWalls(t: Template, walls: Option<set<Wall>>): (r: Template)
    ensures OnlyChanged(t, r, WallsField)
    ensures TemplateField(r, WallsField) == Some(WallsValue(walls.GetOr({})))
  {
    if walls.None? || walls.value == {} then t.(walls := Some({}))
    else t.(walls := Some(walls.value))
  }

  /** `setCellWalls(CellWalls)`: exactly the one wall; a null wall makes
      `EnumSet.of` throw. */
  function SetCellWall(t: Template, wall: Option<Wall>): (r: Result<Template, TemplateError>)
    ensures r.Success? <==> wall.Some?
    ensures r.Failure? ==> r.error == NullElement
    ensures r.Success? ==> OnlyChanged(t, r.value, WallsField)
                           && r.value.walls.Some?
                           && forall w :: w in r.value.walls.value <==> w == wall.value
  {
    match wall
    case None => Failure(NullElement)
    case Some(w) => Success(t.(walls := Some({w})))
  }

  /** `setStyle(Set)`: a null or empty set makes the field set but empty,
      never unset. */
  function SetStyle(t: Template, style: Option<set<Style>>): (r: Template)
    ensures OnlyChanged(t, r, StyleField)
    ensures TemplateField(r, StyleField) == Some(StyleValue(style.GetOr({})))
  {
    if style.None? || style.value == {} then t.(style := Some({}))
    else t.(style := Some(style.value))
  }

  /** `setStyle(TerminalStyle)`: exactly the one flag; a null flag makes
      `EnumSet.of` throw. */
  function SetStyleFlag(t: Template, flag: Option<Style>): (r: Result<Template, TemplateError>)
    ensures r.Success? <==> flag.Some?
    ensures r.Failure? ==> r.error == NullElement
    ensures r.Success? ==> OnlyChanged(t, r.value, StyleField)
                           && r.value.style.Some?
                           && forall s :: s in r.value.style.value <==> s == flag.value
  {
    match flag
    case None => Failure(NullElement)
    case Some(f) => Success(t.(style := Some({f})))
  }

  function ClearCellWalls(t: Template): (r: Template)
    ensures OnlyChanged(t, r, WallsField)
    ensures WallsField in Present(r) && r.walls.value == {}
  {
    t.(walls := Some({}))
  }

  function ClearStyle(t: Template): (r: Template)
    ensures OnlyChanged(t, r, StyleField)
    ensures StyleField in Present(r) && r.style.value == {}
  {
    t.(style := Some({}))
  }

  /** `setDirty`: ignored, a template is always dirty. */
  function SetDirty(t: Template, dirty: bool): (r: Template)
    ensures r == t
  {
    t
  }

  // ---------------------------------------------------------------- add*

  /** `addCellWalls`: adds one wall to a set field. An unset field fails
      first; a null wall then makes `EnumSet.add` throw. */
  function AddCellWalls(t: Template, wall: Option<Wall>): (r: Result<Template, TemplateError>)
    ensures r.Success? <==> WallsField in Present(t) && wall.Some?
    ensures t.walls.None? ==> r == Failure(UnsetField(WallsField))
    ensures t.walls.Some? && wall.None? ==> r == Failure(NullElement)
    ensures r.Success? ==> OnlyChanged(t, r.value, WallsField)
                           && r.value.walls.Some?
                           && forall w :: w in r.value.walls.value <==> w in t.walls.value || w == wall.value
  {
    match t.walls
    case None => Failure(UnsetField(WallsField))
    case Some(ws) =>
      match wall
      case None => Failure(NullElement)
      case Some(w) => Success(t.(walls := Some(ws + {w})))
  }

  /** `addSequence(String)`: appends to a set field; fails on an unset one.
      A null glyph is appended as the text "null", as Java's `+=` does. */
  function AddSequence(t: Template, glyph: Option<JString>): (r: Result<Template, TemplateError>)
    ensures r.Success? <==> SequenceField in Present(t)
    ensures r.Failure? ==> r.error == UnsetField(SequenceField)
    ensures r.Success? ==> var appended := glyph.GetOr(NullText);
                           && OnlyChanged(t, r.value, SequenceField)
                           && r.value.sequence.Some?
                           && |r.value.sequence.value| == |t.sequence.value| + |appended|
                           && r.value.sequence.value[..|t.sequence.value|] == t.sequence.value
                           && r.value.sequence.value[|t.sequence.value|..] == appended
  {
    match t.sequence
    case None => Failure(UnsetField(SequenceField))
    case Some(s) =>
      match glyph
      case Some(g) => Success(t.(sequence := Some(s + g)))
      case None => Success(t.(sequence := Some(s + NullText)))
  }

  /** `addSequence(int)`: the unset check comes first, then the code point is
      encoded (which may throw), then appended. */
  function AddSequenceCodePoint(t: Template, cp: int): (r: Result<Template, TemplateError>)
    ensures r.Success? <==> SequenceField in Present(t) && ValidCodePoint(cp)
    ensures t.sequence.None? ==> r == Failure(UnsetField(SequenceField))
    ensures t.sequence.Some? && !ValidCodePoint(cp) ==> r == Failure(BadCodePoint(InvalidCodePoint(cp)))
    ensures r.Success? ==> OnlyChanged(t, r.value, SequenceField)
                           && r.value.sequence.Some?
                           && |r.value.sequence.value| > |t.sequence.value|
                           && r.value.sequence.value[..|t.sequence.value|] == t.sequence.value
                           && r.value.sequence.value[|t.sequence.value|..] == ToChars(cp).value
                           && CodePointAt(r.value.sequence.value[|t.sequence.value|..]) == cp
  {
    match t.sequence
    case None => Failure(UnsetField(SequenceField))
    case Some(s) =>
      match ToChars(cp)
      case None => Failure(BadCodePoint(InvalidCodePoint(cp)))
      case Some(g) =>
        ToCharsRoundTrip(cp);
        assert (s + g)[|s|..] == g && (s + g)[..|s|] == s;
        Success(t.(sequence := Some(s + g)))
  }

  // ---------------------------------------------------------------- set / clone

  /** The order in which `set` copies the fields. */
  const CopyOrder: seq<Field> := [BackgroundField, ForegroundField, WallsField, SequenceField, StyleField]

  /** The position in `CopyOrder` of the first unset field of `src`
      (`|CopyOrder|` when there is none). */
  function FirstUnset(src: Template): (k: nat)
    ensures k <= |CopyOrder|
    ensures forall i :: 0 <= i < k ==> CopyOrder[i] in Present(src)
    ensures k < |CopyOrder| ==> CopyOrder[k] !in Present(src)
    ensures k == |CopyOrder| <==> Complete(src)
  {
    if src.background.None? then 0
    else if src.foreground.None? then 1
    else if src.walls.None? then 2
    else if src.sequence.None? then 3
    else if src.style.None? then 4
    else 5
  }

  /** `set(tcell)` with another template as the source: fields are copied
      one getter at a time, so an unset source field throws after the fields
      before it have already been copied. The hook is never copied. */
  function Set(t: Template, src: Template): (r: Copy)
    ensures var k := FirstUnset(src);
      && r.template.transformer == t.transformer
      && r.error == (if k == |CopyOrder| then None else Some(UnsetField(CopyOrder[k])))
      && (forall i :: 0 <= i < k ==> TemplateField(r.template, CopyOrder[i]) == TemplateField(src, CopyOrder[i]))
      && (forall i :: k <= i < |CopyOrder| ==> TemplateField(r.template, CopyOrder[i]) == TemplateField(t, CopyOrder[i]))
  {
    match GetBackground(src)
    case Failure(e) => Copy(t, Some(e))
    case Success(bg) =>
      var t1 := SetBackground(t, bg);
      match GetForeground(src)
      case Failure(e) => Copy(t1, Some(e))
      case Success(fg) =>
        var t2 := SetForeground(t1, fg);
        match GetCellWalls(src)
        case Failure(e) => Copy(t2, Some(e))
        case Success(ws) =>
          var t3 := SetCellWalls(t2, Some(ws));
          match GetSequence(src)
          case Failure(e) => Copy(t3, Some(e))
          case Success(s) =>
            var t4 := SetSequence(t3, Some(s));
            match GetStyle(src)
            case Failure(e) => Copy(t4, Some(e))
            case Success(st) => Copy(SetStyle(t4, Some(st)), None)
  }

  /** `set(tcell)` with a populated cell as the source: every field becomes
      set to the cell's value. */
  function SetFromCell(t: Template, c: Cell): (r: Template)
    ensures r.transformer == t.transformer && Complete(r)
    ensures forall f :: TemplateField(r, f) == Some(CellField(c, f))
  {
    t.(background := Some(c.background), foreground := Some(c.foreground),
       walls := Some(c.walls), sequence := Some(c.sequence), style := Some(c.style))
  }

  /** `clone`: a fresh template `set` from this one. It throws unless every
      field is set, and it does not carry the hook over. */
  function Clone(t: Template): (r: Result<Template, TemplateError>)
    ensures r.Success? <==> Complete(t)
    ensures r.Success? ==> r.value == t.(transformer := None)
    ensures r.Failure? ==> r.error == UnsetField(CopyOrder[FirstUnset(t)])
  {
    var c := Set(Empty(), t);
    if c.error.Some? then Failure(c.error.value)
    else
      Success(c.template)
  }

  // ---------------------------------------------------------------- applyOn

  /** Step 1 of `applyOn`: run the hook, if there is one. */
  function RunHook(t: Template, target: Cell, bounds: Region, y: int, x: int, transform: Transform): (bool, Cell) {
    match t.transformer
    case None => (false, target)
    case Some(h) => transform(h, target, bounds, y, x)
  }

  /** `applyOn`: run the hook, then overwrite exactly the fields the template
      sets, then mark the cell dirty if anything was reported changed. A
      field the template sets ends with the template's value whatever the
      hook did; every other field keeps the value the hook left; the dirty
      flag is forced on exactly when the hook reported a change or some field
      is set, and is otherwise left as the hook left it. */
  function ApplyOn(t: Template, target: Cell, bounds: Region, y: int, x: int, transform: Transform): (r: Cell)
    ensures var (hooked, pre) := RunHook(t, target, bounds, y, x, transform);
      && (forall f :: f in Present(t) ==> CellField(r, f) == TemplateField(t, f).value)
      && (forall f :: f !in Present(t) ==> CellField(r, f) == CellField(pre, f))
      && r.dirty == (hooked || Present(t) != {} || pre.dirty)
  {
    var (hooked, c) := RunHook(t, target, bounds, y, x, transform);
    var c := if t.background.Some? then c.(background := t.background.value) else c;
    var c := if t.foreground.Some? then c.(foreground := t.foreground.value) else c;
    var c := if t.sequence.Some? then c.(sequence := t.sequence.value) else c;
    var c := if t.walls.Some? then c.(walls := t.walls.value) else c;
    var c := if t.style.Some? then c.(style := t.style.value) else c;
    var changed := hooked || t.background.Some? || t.foreground.Some? || t.sequence.Some?
                   || t.walls.Some? || t.style.Some?;
    if changed then c.(dirty := true) else c
  }

  // ---------------------------------------------------------------- lemmas

  /** A template with no field and no hook is a no-op, dirty flag included. */
  lemma ApplyEmptyIsIdentity(t: Template, target: Cell, bounds: Region, y: int, x: int, transform: Transform)
    requires Present(t) == {} && t.transformer.None?
    ensures ApplyOn(t, target, bounds, y, x, transform) == target
  {
  }

  /** Without a hook, applying a template twice is the same as applying it once. */
  lemma ApplyIdempotent(t: Template, target: Cell, bounds: Region, y: int, x: int, transform: Transform)
    requires t.transformer.None?
    ensures var once := ApplyOn(t, target, bounds, y, x, transform);
            ApplyOn(t, once, bounds, y, x, transform) == once
  {
  }

  /** Applying `first` and then a hookless `second` is the same as applying
      the single template obtained by `internalSetAll`-ing `second`'s fields
      onto `first`: later set fields win, earlier ones show through. */
  lemma ApplyCompose(first: Template, second: Template, target: Cell, bounds: Region, y: int, x: int, transform: Transform)
    requires second.transformer.None?
    ensures var merged := InternalSetAll(first, None, second.sequence, second.foreground, second.background,
                                         second.style, second.walls);
            ApplyOn(second, ApplyOn(first, target, bounds, y, x, transform), bounds, y, x, transform)
            == ApplyOn(merged, target, bounds, y, x, transform)
  {
    var merged := InternalSetAll(first, None, second.sequence, second.foreground, second.background,
                                 second.style, second.walls);
    var mid := ApplyOn(first, target, bounds, y, x, transform);
    var a := ApplyOn(second, mid, bounds, y, x, transform);
    var b := ApplyOn(merged, target, bounds, y, x, transform);
    var pre := RunHook(first, target, bounds, y, x, transform).1;
    assert RunHook(second, mid, bounds, y, x, transform) == (false, mid);
    assert RunHook(merged, target, bounds, y, x, transform) == RunHook(first, target, bounds, y, x, transform);
    forall f
      ensures CellField(a, f) == CellField(b, f)
    {
      if f in Present(second) {
        assert CellField(a, f) == TemplateField(second, f).value;
      } else if f in Present(first) {
        assert CellField(a, f) == CellField(mid, f) == TemplateField(first, f).value;
      } else {
        assert CellField(a, f) == CellField(mid, f) == CellField(pre, f);
      }
    }
    SameContent(a, b);
  }

  /** A populated, hookless template (such as a clone) applies as a full copy
      of its fields and always marks the target dirty. */
  lemma ApplyCompleteCopies(t: Template, target: Cell, bounds: Region, y: int, x: int, transform: Transform)
    requires Complete(t) && t.transformer.None?
    ensures var r := ApplyOn(t, target, bounds, y, x, transform);
            r.dirty && forall f :: Some(CellField(r, f)) == TemplateField(t, f)
  {
  }

  /** A clone applies exactly like a hookless original. */
  lemma CloneAppliesLikeOriginal(t: Template, target: Cell, bounds: Region, y: int, x: int, transform: Transform)
    requires Complete(t) && t.transformer.None?
    ensures Clone(t).Success?
    ensures ApplyOn(Clone(t).value, target, bounds, y, x, transform) == ApplyOn(t, target, bounds, y, x, transform)
  {
  }

  /** Reading a field back after setting it returns the value set. */
  lemma GetAfterSet(t: Template, v: Int32, s: JString, walls: set<Wall>, style: set<Style>)
    ensures GetBackground(SetBackground(t, v)) == Success(v)
    ensures GetForeground(SetForeground(t, v)) == Success(v)
    ensures GetSequence(SetSequence(t, Some(s))) == Success(s)
    ensures GetCellWalls(SetCellWalls(t, Some(walls))) == Success(walls)
    ensures GetStyle(SetStyle(t, Some(style))) == Success(style)
  {
  }

  /** A null set, an empty set and `clear*` all leave the field set to the
      empty set. */
  lemma EmptySetsAreSetNotUnset(t: Template)
    ensures SetCellWalls(t, None) == SetCellWalls(t, Some({})) == ClearCellWalls(t)
    ensures SetStyle(t, None) == SetStyle(t, Some({})) == ClearStyle(t)
    ensures GetCellWalls(ClearCellWalls(t)) == Success({})
    ensures GetStyle(ClearStyle(t)) == Success({})
  {
  }

  /** `addSequence` after `setSequence` concatenates; `addCellWalls` after
      `setCellWalls` unites. */
  lemma AddAfterSet(t: Template, s: JString, glyph: JString, walls: set<Wall>, wall: Wall)
    ensures AddSequence(SetSequence(t, Some(s)), Some(glyph)) == Success(SetSequence(t, Some(s + glyph)))
    ensures AddCellWalls(SetCellWalls(t, Some(walls)), Some(wall)) == Success(SetCellWalls(t, Some(walls + {wall})))
  {
  }
}
