# Blacken terminal cell compositing, in Dafny

This project models two pieces of the blacken roguelike terminal library.

**`TerminalCellTemplate`** is a sparse overlay for a terminal cell. It holds five fields: background, foreground, glyph sequence, cell walls and style. Any of them may be `null`, meaning "leave this alone". It can also carry a transformer hook. `applyOn` first runs the hook. It then overwrites exactly the target fields that the template sets, and marks the target dirty only if something changed. The getters and `add*` methods throw on an unset field.

**`Images`** holds three blits from a `Grid<Integer>` onto one channel of a terminal's cells: the background, the foreground or the glyph sequence. Each blit:
- places the source at an offset `(yo, xo)`;
- clips against the terminal's height (the `break` ends the whole blit) and width (the `break` ends the row);
- skips null values;
- subtracts an optional `indexStart`;
- in glyph mode, translates through an optional table, where a missing entry leaves the cell untouched.

Modules:
- `Wrappers` (`wrappers.dfy`): `Option` stands for a nullable reference and `Result` for a call that may throw.
- `JavaLang` (`java_lang.dfy`): Java's 32-bit `int` subtraction, and `String` as UTF-16 code units with `Character.toChars`.
- `Cells` (`cells.dfy`): the populated cell, plus a uniform view of its five content fields (`Field`, `CellField`).
- `CellTemplates` (`cell_template.dfy`): the template as a record of `Option` fields, with its operations as pure functions.
- `Grids` (`grids.dfy`): a rectangular 2-D grid. Source images and the terminal are both grids.
- `Images` (`images.dfy`): one nested-loop method `Blit` with the source's two `break`s, and the three public blits built on it. `Blit` is proved against `Expected`, a reference definition that checks each destination cell's bounds separately.

Choices made in the model:
- **Hook.** The transformer is an opaque `Hook`. Its behaviour is a `Transform` function that the caller passes to `ApplyOn`: it returns whether the hook reported a change, and the cell it left behind.
- **Integer overflow.** `v -= indexStart` is Java `int` subtraction, so it is modelled with 32-bit wrap-around (`Sub32`). The offset sums `y + yo` and `x + xo` need no wrap-around. A row is entered only when `y + yo` is below the terminal height, so the next sum `y + 1 + yo` is at most that height. At `y = 0` the sum is `yo` itself, which is an `int` (the offsets are typed `Int32`). A negative `yo` only makes the sums smaller than `y`, which is itself below the image height. So every sum the loop compares fits in an `int`, and the same holds for the columns.
- **Failure paths.** Reading an unset template field yields `Failure(UnsetField(f))`; the Java code throws `NullPointerException` there. An invalid code point yields `InvalidCodePoint`; Java's `Character.toChars` throws `IllegalArgumentException` there.
- **Partial copy.** `set(tcell)` reads the source's fields one getter at a time. If a getter throws, the fields before it have already been copied. `Set` returns that partial template together with the error.
- **Negative offsets.** Only the upper bounds are clipped, so a negative offset can send a negative row or column to `term.get`. That call belongs to `TerminalViewInterface`, which is not part of this model. The loop calls `term.get` only for a non-null value, and in table mode only for a value the table maps. Without a table the loop also stops at the first invalid code point, so cells after it are never reached. So the blits' precondition `Placeable` excludes exactly the placements where a value the loop actually reaches, and that reaches `term.get`, would land at a negative row or column; any other negative offset is allowed.

## Model

| member | source | states |
|---|---|---|
| `JavaLang.Sub32` | core/src/main/java/com/googlecode/blacken/terminal/editing/Images.java:41-43 | `v -= indexStart` is Java `int` subtraction: the result differs from the mathematical difference by a multiple of 2^32 (0 or ±2^32), and is exactly the difference when that fits in an `int` |
| `JavaLang.ToChars` | trunk/core/src/main/java/com/googlecode/blacken/terminal/TerminalCellTemplate.java:248-251 | `Character.toChars` succeeds exactly for code points 0..0x10FFFF; the result is one code unit below 0x10000 and a surrogate pair above |
| `JavaLang.ToCharsRoundTrip` | trunk/core/src/main/java/com/googlecode/blacken/terminal/TerminalCellTemplate.java:248-251 | decoding the characters `toChars` produces gives back the original code point |
| `CellTemplates.Empty` | trunk/core/src/main/java/com/googlecode/blacken/terminal/TerminalCellTemplate.java:43-52 | a new template has no field set and no hook |
| `CellTemplates.InternalSetAll` | trunk/core/src/main/java/com/googlecode/blacken/terminal/TerminalCellTemplate.java:73-94 | every non-null argument replaces its field, and every null argument leaves the field (and the hook) as it was |
| `CellTemplates.New` | trunk/core/src/main/java/com/googlecode/blacken/terminal/TerminalCellTemplate.java:53-71 | a constructor sets exactly its non-null arguments; every other field stays unset |
| `CellTemplates.GetBackground` | trunk/core/src/main/java/com/googlecode/blacken/terminal/TerminalCellTemplate.java:137-141 | fails with an unset-field error exactly when background is unset, otherwise returns the stored value |
| `CellTemplates.GetForeground` | trunk/core/src/main/java/com/googlecode/blacken/terminal/TerminalCellTemplate.java:151-155 | fails (null unboxing) exactly when foreground is unset, otherwise returns the stored value |
| `CellTemplates.GetSequence` | trunk/core/src/main/java/com/googlecode/blacken/terminal/TerminalCellTemplate.java:157-163 | fails exactly when the sequence is unset, otherwise returns it |
| `CellTemplates.GetCellWalls` | trunk/core/src/main/java/com/googlecode/blacken/terminal/TerminalCellTemplate.java:143-149 | fails exactly when the walls are unset, otherwise returns them |
| `CellTemplates.GetStyle` | trunk/core/src/main/java/com/googlecode/blacken/terminal/TerminalCellTemplate.java:165-171 | fails exactly when the style is unset, otherwise returns it |
| `CellTemplates.SetBackground` | trunk/core/src/main/java/com/googlecode/blacken/terminal/TerminalCellTemplate.java:219-222 | background becomes set to the value; no other field and not the hook changes |
| `CellTemplates.SetForeground` | trunk/core/src/main/java/com/googlecode/blacken/terminal/TerminalCellTemplate.java:243-246 | foreground becomes set to the value; nothing else changes |
| `CellTemplates.SetSequence` | trunk/core/src/main/java/com/googlecode/blacken/terminal/TerminalCellTemplate.java:253-256 | the sequence becomes the given string, and a null string makes the field unset again; nothing else changes |
| `CellTemplates.SetSequenceCodePoint` | trunk/core/src/main/java/com/googlecode/blacken/terminal/TerminalCellTemplate.java:248-251 | fails exactly on an invalid code point; otherwise the sequence is exactly `toChars` of the code point (which decodes back to it) and nothing else changes |
| `CellTemplates.SetCellWalls` | trunk/core/src/main/java/com/googlecode/blacken/terminal/TerminalCellTemplate.java:229-236 | a null or empty set makes the walls set-but-empty (never unset), any other set of non-null elements is copied; nothing else changes |
| `CellTemplates.SetCellWall` | trunk/core/src/main/java/com/googlecode/blacken/terminal/TerminalCellTemplate.java:224-227 | a null wall fails (`EnumSet.of` throws); otherwise the walls become exactly the one wall and nothing else changes |
| `CellTemplates.SetStyle` | trunk/core/src/main/java/com/googlecode/blacken/terminal/TerminalCellTemplate.java:258-265 | a null or empty set makes the style set-but-empty (never unset), any other set of non-null elements is copied; nothing else changes |
| `CellTemplates.SetStyleFlag` | trunk/core/src/main/java/com/googlecode/blacken/terminal/TerminalCellTemplate.java:267-270 | a null flag fails (`EnumSet.of` throws); otherwise the style becomes exactly the one flag and nothing else changes |
| `CellTemplates.ClearCellWalls` | trunk/core/src/main/java/com/googlecode/blacken/terminal/TerminalCellTemplate.java:120-123 | the walls become present and empty; nothing else changes |
| `CellTemplates.ClearStyle` | trunk/core/src/main/java/com/googlecode/blacken/terminal/TerminalCellTemplate.java:125-128 | the style becomes present and empty; nothing else changes |
| `CellTemplates.IsDirty` | trunk/core/src/main/java/com/googlecode/blacken/terminal/TerminalCellTemplate.java:173-176 | a template always reports itself dirty |
| `CellTemplates.SetDirty` | trunk/core/src/main/java/com/googlecode/blacken/terminal/TerminalCellTemplate.java:238-241 | `setDirty` is ignored: the template, hook included, is left exactly as it was |
| `CellTemplates.AddCellWalls` | trunk/core/src/main/java/com/googlecode/blacken/terminal/TerminalCellTemplate.java:96-102 | unset walls fail first, then a null wall fails (`EnumSet.add` throws); otherwise the walls become the old set plus the new wall, and nothing else changes |
| `CellTemplates.AddSequence` | trunk/core/src/main/java/com/googlecode/blacken/terminal/TerminalCellTemplate.java:112-118 | fails exactly on an unset sequence; otherwise the sequence becomes the old one followed by the glyph, or by the text "null" for a null glyph as Java's `+=` does; nothing else changes |
| `CellTemplates.AddSequenceCodePoint` | trunk/core/src/main/java/com/googlecode/blacken/terminal/TerminalCellTemplate.java:104-110 | an unset sequence fails first, then an invalid code point fails; otherwise the old sequence is kept as a prefix and exactly `toChars` of the code point is appended |
| `CellTemplates.Set` | trunk/core/src/main/java/com/googlecode/blacken/terminal/TerminalCellTemplate.java:210-217 | copies the fields in the order background, foreground, walls, sequence, style, up to the first unset source field. That field is reported as the error; the fields before it are copied and the fields from it onward are untouched. The hook is never copied |
| `CellTemplates.SetFromCell` | trunk/core/src/main/java/com/googlecode/blacken/terminal/TerminalCellTemplate.java:210-217 | from a populated cell, `set` makes every field present with the cell's value and keeps the hook |
| `CellTemplates.Clone` | trunk/core/src/main/java/com/googlecode/blacken/terminal/TerminalCellTemplate.java:130-135 | succeeds exactly when every field is set, and then equals the original without its hook; otherwise reports the first unset field in `set`'s order |
| `CellTemplates.ApplyOn` | trunk/core/src/main/java/com/googlecode/blacken/terminal/TerminalCellTemplate.java:178-208 | after the hook runs, every field the template sets ends with the template's value, whatever the hook wrote; every other field keeps the value the hook left; the cell is marked dirty exactly when the hook reported a change or some field is set, and is otherwise left as the hook left it |
| `CellTemplates.ApplyEmptyIsIdentity` | trunk/core/src/main/java/com/googlecode/blacken/terminal/TerminalCellTemplate.java:178-208 | a template with no field and no hook leaves the target cell identical, including its dirty flag |
| `CellTemplates.ApplyIdempotent` | trunk/core/src/main/java/com/googlecode/blacken/terminal/TerminalCellTemplate.java:185-204 | without a hook, applying a template twice equals applying it once |
| `CellTemplates.ApplyCompose` | trunk/core/src/main/java/com/googlecode/blacken/terminal/TerminalCellTemplate.java:185-207 | applying one template and then a hookless second equals applying the `internalSetAll` merge of the second onto the first |
| `CellTemplates.ApplyCompleteCopies` | trunk/core/src/main/java/com/googlecode/blacken/terminal/TerminalCellTemplate.java:185-207 | a fully set, hookless template overwrites every field with its own value and marks the cell dirty |
| `CellTemplates.CloneAppliesLikeOriginal` | trunk/core/src/main/java/com/googlecode/blacken/terminal/TerminalCellTemplate.java:130-135 | a clone of a fully set, hookless template exists and applies exactly like the original |
| `CellTemplates.GetAfterSet` | trunk/core/src/main/java/com/googlecode/blacken/terminal/TerminalCellTemplate.java:137-171 | reading a field right after setting it returns the value set |
| `CellTemplates.EmptySetsAreSetNotUnset` | trunk/core/src/main/java/com/googlecode/blacken/terminal/TerminalCellTemplate.java:120-128 | setting walls or style to null or to the empty set is the same as `clear*`, and the field then reads back as the empty set rather than failing |
| `CellTemplates.AddAfterSet` | trunk/core/src/main/java/com/googlecode/blacken/terminal/TerminalCellTemplate.java:96-118 | `addSequence` on a set sequence equals setting the concatenation; `addCellWalls` on set walls equals setting the union |
| `Images.Shift` | core/src/main/java/com/googlecode/blacken/terminal/editing/Images.java:41-43 | without `indexStart` the value passes through; with it, the value minus `indexStart` when that does not overflow |
| `Images.Paint` | core/src/main/java/com/googlecode/blacken/terminal/editing/Images.java:84-92 | each mode writes only its own channel. Glyph mode writes the table entry, or `toChars` of the value when there is no table. It skips exactly the values missing from a given table, and fails exactly on invalid code points when there is no table |
| `Images.Blit` | core/src/main/java/com/googlecode/blacken/terminal/editing/Images.java:29-46 | the scan that stops the whole blit at the first row past the height, and each row at the first column past the width, produces exactly the per-cell bounds-checked result `Expected`; it fails exactly when some visible value fails, and the error carries the value of the first failing cell in row-by-row order |
| `Images.ImageToBackground` | core/src/main/java/com/googlecode/blacken/terminal/editing/Images.java:28-47 | exactly the cells (y+yo, x+xo) with 0≤y<H, 0≤x<W, y+yo below the terminal height, x+xo below its width and a non-null source value get background `Shift(v, indexStart)`; no other channel changes anywhere; every other cell is left entirely alone |
| `Images.ImageToForeground` | core/src/main/java/com/googlecode/blacken/terminal/editing/Images.java:49-68 | the same as the background blit, on the foreground channel |
| `Images.ImageToSequence` | core/src/main/java/com/googlecode/blacken/terminal/editing/Images.java:70-95 | without a table it fails exactly when a visible non-null value is not a code point, and the error names the first such value in row-by-row scan order, the one `Character.toChars` throws on. Otherwise each visible non-null value with a glyph (the table entry, or the code point's characters) sets that cell's sequence. A table miss or null leaves the cell entirely alone, and no other channel changes |
| `Images.BackgroundExample` | core/src/main/java/com/googlecode/blacken/terminal/editing/Images.java:28-47 | the image `[[5, null], [7, 9]]` at offset (1, 1) on a 3×3 all-zero background with `indexStart` 2 gives backgrounds `[[0,0,0],[0,3,0],[0,5,7]]` |
| `Images.ShiftNoWrap` | core/src/main/java/com/googlecode/blacken/terminal/editing/Images.java:41-43 | for non-negative value and index start, the written index is the plain difference |
| `Images.NegativeOffsetExample` | core/src/main/java/com/googlecode/blacken/terminal/editing/Images.java:29-45 | a negative offset whose off-terminal rows hold only nulls is admitted: `[[null], [5]]` at (-1, 0) on a 1×1 terminal writes 5 into its only cell |
| `Images.ThrowBeforeNegativeExample` | core/src/main/java/com/googlecode/blacken/terminal/editing/Images.java:70-95 | a value past the first invalid code point may sit at a negative column: `[[null, -1], [5, null]]` at (0, -1) on a 2×2 terminal is admitted and first fails at cell (0, 0) on -1 |
| `Images.ShiftWraps` | core/src/main/java/com/googlecode/blacken/terminal/editing/Images.java:62-64 | the subtraction wraps like Java `int`: the smallest `int` minus 1 gives the largest |

## Left out

- The transformer hook's internals (`TerminalCellTransformer`) and the `Regionlike` bounds: the hook is an opaque value whose effect is a caller-supplied function, and the bounds are passed through untouched.
- `TerminalCell`, `TerminalViewInterface` and `Grid` are not part of this model. The destination cell's `setBackground(int)`, `setForeground(int)` and `setSequence(String)` are modelled as plain field updates.
- Images.ImageToSequence: the destination cell's `setSequence(int)` is assumed to behave like the template's own (TerminalCellTemplate.java:248-251). It stores `Character.toChars` of the value, which throws on an invalid code point. The failure clause of the contract rests on that assumption.
- Images.ImageToBackground: says nothing about the dirty flag of a written cell. The concrete cell's setter decides that flag, and that class is not part of this model. Skipped cells are stated to be left entirely alone.
- Images.ImageToForeground: says nothing about the dirty flag of a written cell, for the same reason.
- Images.ImageToSequence: says nothing about the dirty flag of a written cell, for the same reason.
- Images.ImageToSequence: on failure, only the error is returned. Java throws after the cells before the failing one have already been written, and the model does not describe that partially written terminal.
- Images.Blit: requires that no non-null value which the loop reaches before the first invalid code point, and which reaches `term.get` (for a table, one the table maps), lands at a negative row or column. The source would pass a negative index to `term.get` there, and what that does depends on `TerminalViewInterface`, which is not modelled. The same precondition holds for `ImageToBackground`, `ImageToForeground` and `ImageToSequence`.
- CellTemplates.ApplyOn: the target is a populated cell whose setters, `setCellWalls(Set)`, `setStyle(Set)` and `setDirty(true)` included, are plain field updates. A target of another `TerminalCellLike` class is not modelled. For example, a template as the target ignores `setDirty` and may hold unset fields.
- A translation table is a map with no null values. A Java `Map` entry that maps to `null` behaves like a missing entry, so the model covers it.
- CellTemplates.SetCellWalls: a non-empty Java `Set` holding `null` (a `HashSet`, say) makes `EnumSet.copyOf` throw `NullPointerException`; `set<Wall>` cannot hold `null`, so that failure is not modelled. `Set` and `ApplyOn` are unaffected, because a template's own walls are an `EnumSet`, which cannot hold `null`.
- CellTemplates.SetStyle: a non-empty Java `Set` holding `null` makes `EnumSet.copyOf` throw `NullPointerException`; `set<Style>` cannot hold `null`, so that failure is not modelled. `Set` and `ApplyOn` are unaffected for the same reason.
- `EnumSet` cloning and aliasing: sets are values. The getters' return of the internal mutable set, and the copies taken by the constructors and setters, are not modelled.
- `TerminalStyle` and `CellWalls` are not part of this model. A style is an opaque ordinal, and a wall is one of the four cell edges.
- `Set` with a full `TerminalCell` as the source is `SetFromCell`. A `TerminalCellLike` source of any other class is not modelled.
- Colour indices are opaque integers: palettes and colour resolution are not modelled.
- The example applications (`Colors`, `Tutorial`, `Boarder`), `NotComplexCharacterException` and `UnboundTerminal` are not modelled. They are UI event loops, exception constructors and thin overrides of classes that are not part of this model.
