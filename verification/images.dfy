/** `Images`: blits of a grid of (possibly null) integers onto one channel of
    a terminal's cells: the background, the foreground or the glyph sequence.
    The source is placed at offset (yo, xo), clipped against the terminal's
    height and width, and null source values are skipped. */
module Images {
  import opened Wrappers
  import opened JavaLang
  import opened Cells
  import opened Grids

  /** Which channel a blit writes, with its per-mode option: the index
      subtracted from every value (`indexStart`), or the value-to-string
      translation table. */
  datatype Mode =
    | ToBackground(indexStart: Option<Int32>)
    | ToForeground(indexStart: Option<Int32>)
    | ToSequence(translate: Option<map<Int32, JString>>)

  /** What one non-null source value does to its destination cell. */
  datatype Stroke = Skip | Write(cell: Cell) | Abort(error: CodePointError)

  /** The source value reaches `term.get`: it is non-null and, with a
      translation table, has an entry in it. */
  predicate Touches(mode: Mode, v: Option<Int32>) {
    v.Some? && !(mode.ToSequence? && mode.translate.Some? && v.value !in mode.translate.value)
  }

  /** The source value makes the blit throw: glyph mode without a table,
      and the value is not a code point `Character.toChars` accepts. */
  predicate Throws(mode: Mode, v: Option<Int32>) {
    v.Some? && mode.ToSequence? && mode.translate.None? && !ValidCodePoint(v.value)
  }

  /** The loop reaches image cell (y, x): only the upper bounds are clipped. */
  predicate Scanned(term: Grid<Cell>, yo: int, xo: int, image: Grid<Option<Int32>>, y: int, x: int) {
    && 0 <= y < image.Height() && 0 <= x < image.width
    && y + yo < term.Height() && x + xo < term.width
  }

  /** Some image cell the loop reaches before (y, x), in its row-by-row
      order, throws, so the loop never gets to (y, x). */
  ghost predicate ThrownBefore(term: Grid<Cell>, yo: int, xo: int, image: Grid<Option<Int32>>, mode: Mode,
                               y: int, x: int)
    requires image.Valid()
  {
    exists y', x' :: && Scanned(term, yo, xo, image, y', x')
                     && (y' < y || (y' == y && x' < x))
                     && Throws(mode, image.rows[y'][x'])
  }

  /** Well-formed grids, placed so that no cell the loop actually gets to
      lands off the terminal: only the upper bounds are clipped, so every
      reached source value that reaches `term.get` must have non-negative
      coordinates. Cells after the first throwing one are never reached. */
  ghost predicate Placeable(term: Grid<Cell>, yo: int, xo: int, image: Grid<Option<Int32>>, mode: Mode) {
    && term.Valid() && image.Valid()
    && forall y, x :: && Scanned(term, yo, xo, image, y, x)
                      && Touches(mode, image.rows[y][x])
                      && !ThrownBefore(term, yo, xo, image, mode, y, x)
                      ==> 0 <= y + yo && 0 <= x + xo
  }

  /** `v -= indexStart` on a Java `int`, when `indexStart` is non-null. */
  function Shift(v: Int32, indexStart: Option<Int32>): (r: Int32)
    ensures indexStart.None? ==> r == v
    ensures indexStart.Some? && InInt32(v - indexStart.value) ==> r == v - indexStart.value
  {
    match indexStart
    case None => v
    case Some(k) => Sub32(v, k)
  }

  /** The effect of one non-null source value `v` on cell `c`. Each mode
      touches only its own channel; a translation miss is skipped; without a
      table, an invalid code point aborts the blit. */
  function Paint(mode: Mode, c: Cell, v: Int32): (s: Stroke)
    ensures s.Write? && mode.ToBackground? ==> s.cell == c.(background := Shift(v, mode.indexStart))
    ensures s.Write? && mode.ToForeground? ==> s.cell == c.(foreground := Shift(v, mode.indexStart))
    ensures s.Write? && mode.ToSequence? ==> s.cell == c.(sequence := s.cell.sequence)
    ensures s.Write? && mode.ToSequence? ==> Glyph(mode.translate, v) == Some(s.cell.sequence)
    ensures s.Skip? <==> mode.ToSequence? && mode.translate.Some? && v !in mode.translate.value
    ensures s.Abort? <==> mode.ToSequence? && mode.translate.None? && !ValidCodePoint(v)
  {
    match mode
    case ToBackground(k) => Write(c.(background := Shift(v, k)))
    case ToForeground(k) => Write(c.(foreground := Shift(v, k)))
    case ToSequence(translate) =>
      match translate
      case Some(m) =>
        if v in m then Write(c.(sequence := m[v])) else Skip
      case None =>
        match ToChars(v)
        case Some(s) => Write(c.(sequence := s))
        case None => Abort(InvalidCodePoint(v))
  }

  /** The source value that lands on destination cell (i, j): the image
      value at (i - yo, j - xo) when that is inside the image, else none. */
  function Source(image: Grid<Option<Int32>>, yo: int, xo: int, i: int, j: int): Option<Int32>
    requires image.Valid()
  {
    if yo <= i < yo + image.Height() && xo <= j < xo + image.width then image.rows[i - yo][j - xo]
    else None
  }

  /** The reference semantics, stated per destination cell with a plain
      bounds check: what cell (i, j) holds after the blit. */
  function Expected(term: Grid<Cell>, yo: int, xo: int, image: Grid<Option<Int32>>, mode: Mode,
                    i: int, j: int): Cell
    requires term.Valid() && image.Valid() && term.InBounds(i, j)
  {
    match Source(image, yo, xo, i, j)
    case None => term.rows[i][j]
    case Some(v) =>
      match Paint(mode, term.rows[i][j], v)
      case Write(c) => c
      case Skip => term.rows[i][j]
      case Abort(_) => term.rows[i][j]
  }

  /** The blit throws at destination cell (i, j). */
  ghost predicate AbortsAt(term: Grid<Cell>, yo: int, xo: int, image: Grid<Option<Int32>>, mode: Mode,
                           i: int, j: int)
    requires term.Valid() && image.Valid() && term.InBounds(i, j)
  {
    Source(image, yo, xo, i, j).Some? && Paint(mode, term.rows[i][j], Source(image, yo, xo, i, j).value).Abort?
  }

  ghost predicate Aborts(term: Grid<Cell>, yo: int, xo: int, image: Grid<Option<Int32>>, mode: Mode)
    requires term.Valid() && image.Valid()
  {
    exists i, j :: term.InBounds(i, j) && AbortsAt(term, yo, xo, image, mode, i, j)
  }

  /** Destination cell (i, j) is the first one, row by row, at which the
      blit throws. */
  ghost predicate FirstAbortAt(term: Grid<Cell>, yo: int, xo: int, image: Grid<Option<Int32>>, mode: Mode,
                               i: int, j: int)
    requires term.Valid() && image.Valid()
  {
    && term.InBounds(i, j) && AbortsAt(term, yo, xo, image, mode, i, j)
    && forall i', j' :: term.InBounds(i', j') && (i' < i || (i' == i && j' < j)) ==>
                          !AbortsAt(term, yo, xo, image, mode, i', j')
  }

  /** The common loop of the three blits: rows in increasing order, stopping
      the whole blit at the first row past the terminal's height, and each row
      stopping at the first column past its width. It writes exactly the
      cells `Expected` describes, or fails iff some visible value aborts. */
  method Blit(term: Grid<Cell>, yo: Int32, xo: Int32, image: Grid<Option<Int32>>, mode: Mode)
    returns (r: Result<Grid<Cell>, CodePointError>)
    requires Placeable(term, yo, xo, image, mode)
    ensures r.Success? <==> !Aborts(term, yo, xo, image, mode)
    ensures r.Failure? ==> !ValidCodePoint(r.error.codePoint)
    ensures r.Failure? ==> exists i, j :: && FirstAbortAt(term, yo, xo, image, mode, i, j)
                                          && Source(image, yo, xo, i, j) == Some(r.error.codePoint)
    ensures r.Success? ==> && r.value.Valid()
                           && r.value.Height() == term.Height()
                           && r.value.width == term.width
    ensures r.Success? ==> forall i, j :: term.InBounds(i, j) ==>
                             r.value.rows[i][j] == Expected(term, yo, xo, image, mode, i, j)
  {
    var out := term;
    var y := 0;
    while y < image.Height()
      invariant 0 <= y <= image.Height()
      invariant out.Valid() && out.Height() == term.Height() && out.width == term.width
      invariant forall i, j :: term.InBounds(i, j) ==>
                  out.rows[i][j] == if i < y + yo then Expected(term, yo, xo, image, mode, i, j) else term.rows[i][j]
      invariant forall i, j :: term.InBounds(i, j) && i < y + yo ==> !AbortsAt(term, yo, xo, image, mode, i, j)
      invariant !ThrownBefore(term, yo, xo, image, mode, y, 0)
    {
      if y + yo >= term.Height() {
        break;
      }
      var x := 0;
      while x < image.width
        invariant 0 <= x <= image.width
        invariant out.Valid() && out.Height() == term.Height() && out.width == term.width
        invariant forall i, j :: term.InBounds(i, j) ==>
                    out.rows[i][j] == if i < y + yo || (i == y + yo && j < x + xo)
                                      then Expected(term, yo, xo, image, mode, i, j) else term.rows[i][j]
        invariant forall i, j :: term.InBounds(i, j) && (i < y + yo || (i == y + yo && j < x + xo)) ==>
                    !AbortsAt(term, yo, xo, image, mode, i, j)
        invariant !ThrownBefore(term, yo, xo, image, mode, y, x)
      {
        if x + xo >= term.width {
          break;
        }
        var i, j := y + yo, x + xo;
        assert Source(image, yo, xo, i, j) == image.rows[y][x];
        var v := image.rows[y][x];
        if Touches(mode, v) {
          assert term.InBounds(i, j);
          match Paint(mode, out.rows[i][j], v.value)
          case Skip =>
          case Write(c) =>
            out := out.Set(i, j, c);
          case Abort(e) =>
            assert AbortsAt(term, yo, xo, image, mode, i, j);
            assert e == InvalidCodePoint(v.value);
            return Failure(e);
        }
        x := x + 1;
      }
      y := y + 1;
    }
    r := Success(out);
  }

  /** `imageToBackground`: exactly the destination cells whose source value
      is visible and non-null get background `v - indexStart` (Java `int`
      arithmetic) or `v`; no other channel changes, and a cell with no
      visible non-null value is left entirely alone. */
  method ImageToBackground(term: Grid<Cell>, yo: Int32, xo: Int32, image: Grid<Option<Int32>>, indexStart: Option<Int32>)
    returns (r: Grid<Cell>)
    requires Placeable(term, yo, xo, image, ToBackground(indexStart))
    ensures r.Valid() && r.Height() == term.Height() && r.width == term.width
    ensures forall i, j, f :: term.InBounds(i, j) && f != BackgroundField ==>
              CellField(r.rows[i][j], f) == CellField(term.rows[i][j], f)
    ensures forall i, j :: term.InBounds(i, j) && Source(image, yo, xo, i, j).None? ==>
              r.rows[i][j] == term.rows[i][j]
    ensures forall i, j :: term.InBounds(i, j) ==>
              r.rows[i][j].background == match Source(image, yo, xo, i, j)
                                         case Some(v) => Shift(v, indexStart)
                                         case None => term.rows[i][j].background
  {
    var res := Blit(term, yo, xo, image, ToBackground(indexStart));
    r := res.value;
  }

  /** `imageToForeground`: as `ImageToBackground`, on the foreground channel. */
  method ImageToForeground(term: Grid<Cell>, yo: Int32, xo: Int32, image: Grid<Option<Int32>>, indexStart: Option<Int32>)
    returns (r: Grid<Cell>)
    requires Placeable(term, yo, xo, image, ToForeground(indexStart))
    ensures r.Valid() && r.Height() == term.Height() && r.width == term.width
    ensures forall i, j, f :: term.InBounds(i, j) && f != ForegroundField ==>
              CellField(r.rows[i][j], f) == CellField(term.rows[i][j], f)
    ensures forall i, j :: term.InBounds(i, j) && Source(image, yo, xo, i, j).None? ==>
              r.rows[i][j] == term.rows[i][j]
    ensures forall i, j :: term.InBounds(i, j) ==>
              r.rows[i][j].foreground == match Source(image, yo, xo, i, j)
                                         case Some(v) => Shift(v, indexStart)
                                         case None => term.rows[i][j].foreground
  {
    var res := Blit(term, yo, xo, image, ToForeground(indexStart));
    r := res.value;
  }

  /** The glyph a visible source value selects for `imageToSequence`: the
      table entry, none on a table miss, or the code point's characters when
      there is no table. */
  function Glyph(translate: Option<map<Int32, JString>>, v: Int32): Option<JString> {
    match translate
    case Some(m) => if v in m then Some(m[v]) else None
    case None => ToChars(v)
  }

  /** Destination cell (i, j) has no visible non-null value, or its value
      misses the table. */
  predicate SelectsNoGlyph(term: Grid<Cell>, yo: int, xo: int, image: Grid<Option<Int32>>,
                           translate: Option<map<Int32, JString>>, i: int, j: int)
    requires image.Valid()
  {
    term.InBounds(i, j) &&
    (Source(image, yo, xo, i, j).None? || Glyph(translate, Source(image, yo, xo, i, j).value).None?)
  }

  /** `imageToSequence`: without a table it throws exactly when a visible
      non-null value is not a valid code point; otherwise exactly the cells
      whose visible value selects a glyph get that glyph, and only the
      sequence channel ever changes; a cell that selects no glyph is left
      entirely alone. */
  method ImageToSequence(term: Grid<Cell>, yo: Int32, xo: Int32, image: Grid<Option<Int32>>,
                         translate: Option<map<Int32, JString>>)
    returns (r: Result<Grid<Cell>, CodePointError>)
    requires Placeable(term, yo, xo, image, ToSequence(translate))
    ensures r.Failure? <==> translate.None? && (exists i, j :: && term.InBounds(i, j)
                                                               && Source(image, yo, xo, i, j).Some?
                                                               && !ValidCodePoint(Source(image, yo, xo, i, j).value))
    ensures r.Failure? ==> !ValidCodePoint(r.error.codePoint)
    ensures r.Failure? ==> exists i, j :: && FirstAbortAt(term, yo, xo, image, ToSequence(translate), i, j)
                                          && Source(image, yo, xo, i, j) == Some(r.error.codePoint)
    ensures r.Success? ==> r.value.Valid() && r.value.Height() == term.Height() && r.value.width == term.width
    ensures r.Success? ==> forall i, j, f :: term.InBounds(i, j) && f != SequenceField ==>
              CellField(r.value.rows[i][j], f) == CellField(term.rows[i][j], f)
    ensures r.Success? ==> forall i, j :: SelectsNoGlyph(term, yo, xo, image, translate, i, j) ==>
              r.value.rows[i][j] == term.rows[i][j]
    ensures r.Success? ==> forall i, j :: term.InBounds(i, j) ==>
              r.value.rows[i][j].sequence == match Source(image, yo, xo, i, j)
                                             case Some(v) => Glyph(translate, v).GetOr(term.rows[i][j].sequence)
                                             case None => term.rows[i][j].sequence
  {
    r := Blit(term, yo, xo, image, ToSequence(translate));
  }

  /** A worked example: a 2x2 image with one null, placed at (1, 1) on a 3x3
      terminal whose backgrounds are all 0, with index start 2. */
  lemma BackgroundExample(term: Grid<Cell>)
    requires term.Valid() && term.Height() == 3 && term.width == 3
    requires forall i, j :: term.InBounds(i, j) ==> term.rows[i][j].background == 0
    ensures var image := Grid([[Some(5), None], [Some(7), Some(9)]], 2);
            var want := [[0, 0, 0], [0, 3, 0], [0, 5, 7]];
            forall i, j :: term.InBounds(i, j) ==>
              Expected(term, 1, 1, image, ToBackground(Some(2)), i, j).background == want[i][j]
  {
  }

  /** For a non-negative value and index start the subtraction cannot wrap,
      so the written index is the plain difference. */
  lemma ShiftNoWrap(v: Int32, k: Int32)
    requires 0 <= v && 0 <= k
    ensures Shift(v, Some(k)) == v - k
  {
    assert InInt32(v) && InInt32(k);
    assert InInt32(v - k);
  }

  /** The subtraction is Java's: one below the smallest `int` wraps round
      to the largest. */
  lemma ShiftWraps()
    ensures Shift(INT_MIN, Some(1)) == INT_MAX
  {
  }

  /** A negative offset is fine when the rows it pushes off the terminal hold
      only nulls: `[[null], [5]]` at (-1, 0) on a 1x1 terminal writes 5 into
      its only cell. */
  lemma NegativeOffsetExample(term: Grid<Cell>)
    requires term.Valid() && term.Height() == 1 && term.width == 1
    ensures var image := Grid([[None], [Some(5)]], 1);
            && Placeable(term, -1, 0, image, ToBackground(None))
            && Expected(term, -1, 0, image, ToBackground(None), 0, 0).background == 5
  {
  }

  /** Without a table the loop stops at the first invalid code point, so a
      later value may sit at a negative column: `[[null, -1], [5, null]]` at
      (0, -1) on a 2x2 terminal throws on -1 at cell (0, 0) before the 5,
      which would land at column -1, is reached. */
  lemma ThrowBeforeNegativeExample(term: Grid<Cell>)
    requires term.Valid() && term.Height() == 2 && term.width == 2
    ensures var image := Grid([[None, Some(-1)], [Some(5), None]], 2);
            && Placeable(term, 0, -1, image, ToSequence(None))
            && FirstAbortAt(term, 0, -1, image, ToSequence(None), 0, 0)
            && Source(image, 0, -1, 0, 0) == Some(-1)
  {
    var image := Grid([[None, Some(-1)], [Some(5), None]], 2);
    assert Throws(ToSequence(None), image.rows[0][1]);
    assert ThrownBefore(term, 0, -1, image, ToSequence(None), 1, 0);
  }
}
