# termgol in Dafny

A model of the core of termgol, a Game of Life that runs in a terminal,
with proofs about it. termgol draws a toroidal grid of cells as coloured
text cells and advances it one generation per tick under configurable
birth and survival rules.

termgol's source tree carries several overlapping revisions of the same
parts of the program. Each file is modelled as written, in a module of
its own:

| module | file | source |
|---|---|---|
| `StateWorld` | world.dfy | src/state/world.rs: the automaton engine — a toroidal grid of `u32` cells, the hard-coded seed written by `resize`, one generation under birth/survival lists with the Moore neighbourhood |
| `CommonPoint` | point.dfy | src/common/point.rs: the grid coordinate, its eight unit steps, `+`/`-` and the derived ordering |
| `Common` | common.dfy | src/common.rs: the screen coordinate `Point2`, `RectAbsolute` and `intersect`, `TILE_SIZE` and `FRAMES_PER_SECOND` |
| `State` | state.dfy | src/state.rs: the cursor, the cycling debug page, the tick counter and the screen size |
| `StateRules` | rules.dfy | src/state/rules.rs: `Rules::parse` |
| `CommonRuleParser` | rule_parser.dfy | src/common/rule_parser.rs: `parse_rules` |
| `RulePattern` | rule_pattern.dfy | the pattern `^B([0-8]{0,9})/S([0-8]{0,9})$` both parsers match, as a hand-written recogniser, and their error value |
| `StateCellImage` | cell_image.dfy | src/state/cell_image.rs: decoding a seed pattern from text into living points and a size |
| `StateCellSetup` | cell_setup.dfy | src/state/cell_setup.rs: the preset pattern texts |
| `Color` | color.dfy | src/color.rs: colours with optional palette channels and their SGR escape sequence |
| `CommonColor` | common_color.dfy | src/common/color.rs: colours with both channels always set |
| `Screen` | screen.dfy | src/screen.rs: the pixel buffer and the text `display` writes |
| `Ints`, `Decimal`, `Wrappers` | ints.dfy, decimal.dfy, wrappers.dfy | Rust integer ranges, `format!("{n}")` for numbers, `Option` |

The escape sequences are SGR (select graphic rendition, section 8.3.117 of
ECMA-48) with the 256-colour selectors `38;5;n` (foreground) and `48;5;n`
(background), and CUP (cursor position, section 8.3.21 of ECMA-48).

How the model takes each file's form:

- `World`, `State` and `Screen` are classes whose methods update their
  fields in place. Each method's postcondition states the complete new
  state.
- `World.Update` rebuilds the grid in nested loops into a fresh array, as
  the source does. It is proved equal to `Step`, a specification function
  of the old cells.
- The decoder of `CellImage::from(&str)`, both rule parsers,
  `count_neighbor_cells`, `draw_text` and `display` are loops. Each is
  proved against a specification function.
- Points, colours, rectangles, the toroidal wrap and the presets are
  values and functions.

Integer widths are explicit. `i32`, `u8`, `u16`, `u32` and `u64` are
subset types. An arithmetic overflow that panics in a debug build becomes
a precondition. Rust's truncating `%` is written out (`RustRem`), since
Dafny's `%` is Euclidean.

Behaviour of this revision:

- The cells are plain `u32` values: 0 is dead and any other value is
  alive. A generation writes only 0 and 1.
- `resize` writes five fixed seed cells at `w*5+3`, `w*5+4`, `w*6+4`,
  `w*6+5` and `w*7+4`, and panics when one of them is outside the grid.
- In a pattern text only a space is dead; `.` is alive like `#`.
- The rules are lists: duplicates and order are kept.

## Model

| member | source | states |
|---|---|---|
| `StateWorld.RustRem` | src/state/world.rs:106 | Rust's `%`: the remainder is smaller in magnitude than the divisor and takes the dividend's sign |
| `StateWorld.RustDivMod` | src/state/world.rs:106 | the truncating quotient and remainder recompose the dividend |
| `StateWorld.ToroidalMod` | src/state/world.rs:105-112 | for `m > 0` the wrap lies in `[0, m)` |
| `StateWorld.ToroidalModIsEuclidean` | src/state/world.rs:105-112 | the wrap equals the Euclidean `n % m`, so it is congruent to `n`, and it returns `n` unchanged when `0 <= n < m` |
| `StateWorld.TransformToroidalPoint` | src/state/world.rs:99-103 | both coordinates of the wrapped point lie inside the grid |
| `StateWorld.TransformedIndexIsWrapped` | src/state/world.rs:95-103 | the row-major index of a wrapped point is the reference torus index |
| `StateWorld.GetNeighbourIndices` | src/state/world.rs:83-97 | the eight indices, in the source's order, are exactly the reference Moore neighbourhood on the torus: eight of them, each in `[0, width*height)` |
| `StateWorld.TorusNeighbours` | src/state/world.rs:83-97 | the reference neighbourhood has eight indices, all inside the grid |
| `StateWorld.RowColumnOfCell` | src/state/world.rs:37 | cell `(x, y)` has index `width*y + x`, and that index gives back column `x` and row `y` |
| `StateWorld.RowColumnOfIndex` | src/state/world.rs:35-37 | every index of a `w` by `h` grid is `w*row + column` with the row below `h` |
| `StateWorld.ColumnRowAreDivMod` | src/state/world.rs:37 | column and row are the remainder and quotient of dividing the index by the width |
| `StateWorld.RowMajorInRange` | src/state/world.rs:37 | `width*y + x` lies in `[0, width*height)` for a cell inside the grid |
| `StateWorld.LiveAmong` | src/state/world.rs:74-78 | the live count among the first k neighbours is at most k |
| `StateWorld.LiveNeighbours` | src/state/world.rs:70-81 | the live-neighbour count is at most 8 |
| `StateWorld.World.CountNeighbourCells` | src/state/world.rs:70-81 | the loop counts the non-zero cells among the eight neighbour indices: the result is the reference count, between 0 and 8 |
| `StateWorld.NextCellRule` | src/state/world.rs:41-63 | the new cell `NextCell` computes is 0 or 1, and it is 1 exactly when a dead cell's count is in the birth list or a live (non-zero) cell's count is in the survival list |
| `StateWorld.Step` | src/state/world.rs:32-68 | one generation keeps the number of cells |
| `StateWorld.StepIndex` | src/state/world.rs:37-63 | each cell of a generation is the rule applied to that old cell and its old neighbour count |
| `StateWorld.StepAt` | src/state/world.rs:35-63 | after a generation, the cell at `(x, y)` is 1 exactly for a birth or a survival under its old live-neighbour count, and 0 otherwise |
| `StateWorld.StepIsBinary` | src/state/world.rs:48-61 | every cell of a generation is 0 or 1 |
| `StateWorld.ConwayCases` | src/state/world.rs:15-16 | under B3/S23 a dead cell with 3 neighbours is born, one with 2 or 4 is not; a live cell with 2 or 3 survives; a lone live cell dies |
| `StateWorld.EmptyGridStep` | src/state/world.rs:33-36 | a grid without cells stays empty |
| `StateWorld.Run` | src/state/world.rs:32-68 | any number of generations keeps the number of cells |
| `StateWorld.StepWithoutBirth` | src/state/world.rs:41-51 | with an empty birth list, a generation never makes a dead cell alive |
| `StateWorld.NoBirthWithoutBirthRule` | src/state/world.rs:41-51 | with an empty birth list, after any number of generations every live cell was alive at the start |
| `StateWorld.StepAppliesRule` | src/state/world.rs:35-63 | a generation applies the rule at every `(x, y)` of the grid |
| `StateWorld.RuleAppliedIsStep` | src/state/world.rs:33-67 | a grid that applies the rule at every cell to the old cells is the generation: the result is unique |
| `StateWorld.World.constructor` | src/state/world.rs:11-18 | `new` gives a 0 by 0 grid with no cells, birth `[3]` and survival `[2, 3]` |
| `StateWorld.World.Resize` | src/state/world.rs:20-30 | the new size, `width*height` cells, all 0 except the five seed indices (`SeedIndices`), which are 1; the rules are unchanged; every seed index must lie inside the grid |
| `StateWorld.World.Update` | src/state/world.rs:32-68 | the new cells are one generation of the old cells; they are computed from the old cells only, into a separate buffer; size and rules are unchanged, and the grid stays valid |
| `StateWorld.UpdateOnNewWorld` | src/state/world.rs:11-18 | `update` on a new world leaves the 0 by 0 grid empty |
| `CommonPoint.SizeAccessors` | src/common/point.rs:11-21 | `width()` (`Width`) is `x` and `height()` (`Height`) is `y` of a point made by `new` (`New`) |
| `CommonPoint.StepsAreUnitOffsets` | src/common/point.rs:23-53 | each of the eight steps `Left`, `Right`, `Up`, `Down`, `UpLeft`, `UpRight`, `DownLeft` and `DownRight` is `Add` of its unit vector |
| `CommonPoint.DiagonalsCompose` | src/common/point.rs:23-53 | each diagonal step is an orthogonal step in each axis, in either order |
| `CommonPoint.OppositesCancel` | src/common/point.rs:23-53 | opposite steps cancel, diagonals included |
| `CommonPoint.AddCommutes` | src/common/point.rs:62-76 | `+` (`Add`) is commutative |
| `CommonPoint.AddSubCancel` | src/common/point.rs:62-92 | `-` (`Sub`) undoes `+`: `(p + q) - q == p` |
| `CommonPoint.SubAddCancel` | src/common/point.rs:62-92 | `(p - q) + q == p` |
| `CommonPoint.CmpIsLexicographic` | src/common/point.rs:4-8 | the derived order (`Cmp`) compares x first, then y; it says Equal exactly for equal points and is antisymmetric |
| `CommonPoint.LtTransitive` | src/common/point.rs:4-8 | the derived strict order is transitive |
| `Common.SizeAccessors` | src/common.rs:7-32 | `width()` (`Width`) and `height()` (`Height`) of a `Point2` made by `new` (`New`); `TILE_SIZE` is 3 by 1 |
| `Common.StepsMoveOneAxis` | src/common.rs:34-48 | each `Point2` step (`Left`, `Right`, `Up`, `Down`) is `Add` of a unit vector along its own axis; opposite steps cancel |
| `Common.AddSubCancel` | src/common.rs:57-87 | `Point2` `+` (`Add`) is commutative and `-` (`Sub`) undoes it: `(p + q) - q == p` |
| `Common.Intersect` | src/common.rs:89-104 | for two `RectAbsolute` rectangles, each corner coordinate of the result is the larger top-left or smaller bottom-right coordinate of the two inputs, so the result lies within both |
| `Common.IntersectContains` | src/common.rs:97-104 | the intersection contains exactly the cells both rectangles contain |
| `Common.IntersectCommutative` | src/common.rs:97-104 | `intersect` is commutative |
| `Common.IntersectAssociative` | src/common.rs:97-104 | `intersect` is associative |
| `Common.IntersectIdempotent` | src/common.rs:97-104 | `intersect(r, r) == r` |
| `State.NextPage` | src/state.rs:35-41 | the next page is 0 or one more, and never above `DEBUG_INFO_PAGE_TOTAL` |
| `State.PageCycle` | src/state.rs:35-41 | pages cycle 0, 1, 2, 0, so page 2 is reached from the start page 1 |
| `State.PageStaysInRange` | src/renderer/draw_debug_info.rs:6 | a page in `[0, DEBUG_INFO_PAGE_TOTAL]` stays there, with a total of 2 |
| `State.StepBack` | src/state.rs:43-49 | moving left or up gives `max(c - 1, 0)` |
| `State.StepForward` | src/state.rs:51-57 | moving right or down gives `min(c + 1, extent - 1)`, which is -1 on an extent of 0 |
| `State.StepsStayInside` | src/state.rs:43-73 | on an extent of at least 1, a coordinate inside stays inside whichever way it moves |
| `State.State.constructor` | src/state.rs:16-25 | page 1, cursor (0, 0), elapsed time 0, screen size (0, 0) |
| `State.State.Resize` | src/state.rs:27-29 | only the screen size changes; the cursor is not clamped |
| `State.State.ElapseTime` | src/state.rs:31-33 | the tick counter goes up by exactly one and nothing else changes |
| `State.State.DebugInfoNextPage` | src/state.rs:35-41 | the page advances by `NextPage` and stays in range; nothing else changes |
| `State.State.MoveCursorLeft` | src/state.rs:43-49 | x becomes `max(x - 1, 0)`, y is unchanged, a cursor on the screen stays on it |
| `State.State.MoveCursorRight` | src/state.rs:51-57 | x becomes `min(x + 1, width - 1)`, y is unchanged, a cursor on the screen stays on it |
| `State.State.MoveCursorUp` | src/state.rs:59-65 | y becomes `max(y - 1, 0)`, x is unchanged, a cursor on the screen stays on it |
| `State.State.MoveCursorDown` | src/state.rs:67-73 | y becomes `min(y + 1, height - 1)`, x is unchanged, a cursor on the screen stays on it |
| `RulePattern.DigitRun` | src/state/rules.rs:18 | the run of digits 0 to 8 at an index: every character in it is such a digit and the next one is not |
| `RulePattern.Captures` | src/state/rules.rs:18-23 | when the recogniser matches, both groups hold at most nine digits 0 to 8 and the string is `B` group `/S` group |
| `RulePattern.CapturesRuleText` | src/state/rules.rs:18 | every string of the pattern's form is matched with its own groups |
| `RulePattern.CapturesIffMatches` | src/common/rule_parser.rs:9-13 | the recogniser accepts exactly the whole-string matches of `B[0-8]{0,9}/S[0-8]{0,9}` |
| `RulePattern.DigitValue` | src/state/rules.rs:26 | `d as u32 - 48` of a digit 0 to 8 is its value, at most 8 |
| `RulePattern.DigitValues` | src/state/rules.rs:25-30 | one value per digit, each at most 8 |
| `RulePattern.DigitValuesAt` | src/state/rules.rs:25-30 | the i-th value is the value of the i-th digit: order and duplicates are kept |
| `RulePattern.DigitValuesExtend` | src/common/rule_parser.rs:15-20 | pushing the next digit's value appends it |
| `RulePattern.RuleDigitsOfValues` | src/state/rules.rs:25-30 | writing a group's values back as digits gives the group |
| `RulePattern.ValuesOfRuleDigits` | src/state/rules.rs:25-30 | reading the digits written for a list of counts gives the list |
| `RulePattern.ParseFormatted` | src/state/rules.rs:18-30 | the rule string of two rule lists is matched, and its groups read back as the same lists |
| `RulePattern.FormatParsed` | src/state/rules.rs:18-30 | the lists read from a matching string are rule lists that write that same string |
| `StateRules.Parse` | src/state/rules.rs:14-33 | on a match, the digit values of each group in order; otherwise `InvalidValue` with the message "invalid rules pattern" |
| `StateRules.ParseAccepts` | src/state/rules.rs:14-33 | parsing succeeds exactly on whole-string matches; the lists hold at most nine counts of 0 to 8 and write the input back; an error is `InvalidValue` |
| `StateRules.ParseFormattedRules` | src/state/rules.rs:14-33 | any two rule lists survive being written as a rule string and parsed |
| `StateRules.ParseDefaultLifeRule` | src/state/rules.rs:41-45 | "B3/S23" gives birth `[3]` and survival `[2, 3]` |
| `StateRules.AllCountsGroup` | src/state/rules.rs:48-52 | the group "012345678" is valid and reads as 0 to 8 |
| `StateRules.ParseMaximalRule` | src/state/rules.rs:48-52 | "B012345678/S012345678" gives 0 to 8 in both lists |
| `StateRules.ParseEmptyRule` | src/state/rules.rs:18 | "B/S" gives two empty lists |
| `StateRules.ParseNonsense` | src/state/rules.rs:55-59 | "nonsense" fails with `InvalidValue` |
| `CommonRuleParser.ParseRules` | src/common/rule_parser.rs:4-23 | on a match, the digit values of each group in order; otherwise `InvalidValue` with the message "Some failure case" |
| `CommonRuleParser.ParseRulesAccepts` | src/common/rule_parser.rs:4-23 | acceptance is exactly a whole-string match; the lists hold at most nine counts of 0 to 8 and write the input back; an error is `InvalidValue` |
| `CommonRuleParser.AgreesWithRulesParse` | src/common/rule_parser.rs:4-23 | `parse_rules` and `Rules::parse` accept the same strings and return the same lists; both errors are `InvalidValue` |
| `CommonRuleParser.ParseDefaultLifeRule` | src/common/rule_parser.rs:30-34 | "B3/S23" gives `([3], [2, 3])` |
| `CommonRuleParser.ParseMaximalRule` | src/common/rule_parser.rs:37-41 | "B012345678/S012345678" gives 0 to 8 in both lists |
| `CommonRuleParser.ParseNonsense` | src/common/rule_parser.rs:44-48 | "nonsense" fails with `InvalidValue` |
| `StateCellImage.Utf8Len` | src/state/cell_image.rs:18-19 | `str::len` counts UTF-8 bytes: between one and four per character |
| `StateCellImage.Utf8LenOfDrawn` | src/state/cell_image.rs:18-19 | a text of `#`, spaces and line breaks is one byte per character |
| `StateCellImage.Lines` | src/state/cell_image.rs:17 | `split("\n")` always yields at least one line |
| `StateCellImage.JoinLines` | src/state/cell_image.rs:17 | joining the lines with line breaks gives the text back |
| `StateCellImage.LinesJoin` | src/state/cell_image.rs:17 | splitting the join of break-free lines gives those lines |
| `StateCellImage.LinesOfLineAndRest` | src/state/cell_image.rs:17 | a line, a break and more text split into that line and the lines of the rest |
| `StateCellImage.LinesShape` | src/state/cell_image.rs:17-20 | no line holds a break, there is one line more than there are breaks, and no line is longer than the text |
| `StateCellImage.LinePoints` | src/state/cell_image.rs:22-28 | every point of a line lies in its row at a column inside the line |
| `StateCellImage.TextPoints` | src/state/cell_image.rs:17-30 | every point of the text lies in one of its rows |
| `StateCellImage.LinePointsSorted` | src/state/cell_image.rs:22-28 | a line's points come left to right, each once |
| `StateCellImage.TextPointsSorted` | src/state/cell_image.rs:17-30 | the text's points come in strictly increasing row-major order |
| `StateCellImage.MaxLineLenBound` | src/state/cell_image.rs:18-20 | the width is the length of one of the lines and no line is longer; 0 without lines |
| `StateCellImage.CellImageOfLines` | src/state/cell_image.rs:29-35 | the height is the number of lines |
| `StateCellImage.FromStr` | src/state/cell_image.rs:11-37 | the nested loops build the image the text decodes to |
| `StateCellImage.PushLinePoints` | src/state/cell_image.rs:22-28 | the inner loop appends the line's points to those already pushed |
| `StateCellImage.FromSetup` | src/state/cell_image.rs:39-44 | `From<CellSetup>` is `From<&str>` applied to the preset's text |
| `StateCellImage.InLinePoints` | src/state/cell_image.rs:22-28 | a point is among a line's points exactly when its character is not a space |
| `StateCellImage.InTextPoints` | src/state/cell_image.rs:17-30 | a point is among the text's points exactly when its row exists and its character is not a space |
| `StateCellImage.LivingPointsAreNonSpaces` | src/state/cell_image.rs:23-28 | in `Image(s)`, the image the text decodes to, `(x, y)` is living exactly when character x of line y is not a space; `#` and `.` alike are alive |
| `StateCellImage.ImageSize` | src/state/cell_image.rs:16-34 | the height is the number of line breaks plus one, so "" has height 1; the width is the longest line's length in bytes |
| `StateCellImage.LivingPointsInside` | src/state/cell_image.rs:17-34 | every living point lies in `[0, width) x [0, height)` |
| `StateCellImage.LivingPointsSorted` | src/state/cell_image.rs:17-29 | the living points are in strictly increasing row-major order, with no duplicates |
| `StateCellImage.BlankImage` | src/state/cell_setup.rs:7 | `BLANK` has no living points and size (0, 1) |
| `StateCellImage.RPentonimoImage` | src/state/cell_setup.rs:9-13 | `R_PENTONIMO` gives exactly (0,1), (1,1), (1,2), (2,2), (1,3) and size (3, 5): the leading break shifts it down a row |
| `StateCellImage.AcornImage` | src/state/cell_setup.rs:1-5 | `ACORN` gives exactly seven points, (1,1), (3,2), (0,3), (1,3), (4,3), (5,3), (6,3), and size (7, 5) |
| `StateCellSetup.SetupTextInjective` | src/state/cell_setup.rs:31-40 | `SetupText`, the `From<CellSetup> for &str` table, maps each variant to its own text |
| `StateCellSetup.DrawnWithHashesFrom` | src/state/cell_setup.rs:1-21 | the check holds exactly when every character from an index on is `#`, a space or a line break |
| `StateCellSetup.TermgolDrawn` | src/state/cell_setup.rs:15-21 | `TERMGOL` consists of `#`, spaces and line breaks only |
| `StateCellSetup.PresetsDrawnWithHashes` | src/state/cell_setup.rs:1-21 | every preset consists of `#`, spaces and line breaks only |
| `StateCellImage.PresetLivingPointsAreHashes` | src/state/cell_image.rs:23-28 | in the image of a preset, `(x, y)` is living exactly when character x of line y is `#` |
| `Color.ToString` | src/color.rs:48-62 | the output is empty exactly when neither channel is set |
| `Color.ConstructorChannels` | src/color.rs:19-45 | `new(bg, fg)` (`New`) sets both channels, `none()` (`None`) neither; `null()` (`Null`) is (0, 0) and `text()` (`Text`) is background 0, foreground 7 |
| `Color.TextString` | src/color.rs:50-53 | the text colour is written `ESC[38;5;7;48;5;0m`, foreground first |
| `Color.ToStringIsSgr` | src/color.rs:50-57 | a non-empty output is one SGR sequence: ESC `[`, digits and `;` only, then `m` |
| `Color.SelectorDigit` | src/color.rs:50-57 | a foreground selector comes first whenever the foreground is set |
| `Color.FgForm` | src/color.rs:50-57 | with a foreground, the output is the foreground selector and number followed by the background part |
| `Color.FgTailInjective` | src/color.rs:52-53 | the background part after the foreground number identifies the background |
| `Color.ToStringInjective` | src/color.rs:48-62 | different colours give different sequences |
| `CommonColor.ToString` | src/common/color.rs:35-41 | the output is one control sequence, starting with ESC `[` and ending with `m` |
| `CommonColor.ConstructorChannels` | src/common/color.rs:19-32 | `new(bg_color, fg_color)` (`New`) stores them as `bg` and `fg`; `null()` (`Null`) is (0, 0), `text()` (`Text`) is background 0, foreground 7 |
| `CommonColor.AgreesWithOptionalColor` | src/common/color.rs:35-41 | the output equals that of src/color.rs for the same colour with both channels set |
| `CommonColor.ToStringInjective` | src/common/color.rs:35-41 | distinct colours produce distinct strings |
| `CommonColor.TextAgrees` | src/common/color.rs:30-41 | both text colours are written `ESC[38;5;7;48;5;0m` |
| `Decimal.Show` | src/color.rs:52 | a number is written as at least one decimal digit, with a leading 0 only for 0 itself |
| `Decimal.ReadShow` | src/color.rs:52 | reading the digits written for n gives n |
| `Decimal.ShowInjective` | src/color.rs:52 | different numbers are written differently |
| `Decimal.ShowByteWidth` | src/color.rs:52 | a `u8` takes at most three digits |
| `Decimal.DigitsThenNonDigit` | src/color.rs:52 | two digit runs each followed by a non-digit split a string the same way |
| `Screen.PixelFrom` | src/screen.rs:19-26 | `Pixel::from(ch)` carries the character in the text colour, white on black |
| `Screen.Blank` | src/screen.rs:51 | a buffer of n blank text-coloured pixels |
| `Screen.Overwrite` | src/screen.rs:62-68 | character k of the text is at `index + k`; every other pixel is unchanged |
| `Screen.ChangeColor` | src/screen.rs:87-95 | `change_color` holds the set channels that differ from the last emitted ones |
| `Screen.TrackColor` | src/screen.rs:99-105 | `last_color` takes every channel just emitted |
| `Screen.ChangeSuffices` | src/screen.rs:87-105 | with `change_color` as `Change` and the terminal's update as `Overlay`, emitting only the change leaves the terminal in the colour that emitting the whole colour would |
| `Screen.NothingEmittedIff` | src/screen.rs:87-97 | no colour is emitted exactly when the pixel's colour is already in effect |
| `Screen.EmitNext` | src/screen.rs:83-105 | one pass of the inner loop extends the row's text and the colour in effect by one pixel |
| `Screen.RenderLine` | src/screen.rs:79-106 | the row's text equals `RowText`: starting with no colour in effect (`InEffect` of no pixels), each pixel emits its changed channels and then its character |
| `Screen.CharsAt` | src/screen.rs:83-97 | character x of a row's characters is the character of the row's pixel x |
| `Screen.CharsConcat` | src/screen.rs:83-97 | the characters of two rows side by side are the first row's, then the second's |
| `Screen.RowTextSnoc` | src/screen.rs:82-106 | one more pixel extends the row text by its colour change and character |
| `Screen.EmitPixel` | src/screen.rs:97-105 | the emitted change and character extend the row text |
| `Screen.InEffectOneColour` | src/screen.rs:79-105 | in a row of one fully set colour, that colour is in effect after the first pixel |
| `Screen.RowTextOneColour` | src/screen.rs:79-106 | a row of one fully set colour selects it once, then holds only its characters |
| `Screen.Cup` | src/screen.rs:76-77 | `ESC[{row};1H` is a control sequence ending in `H` |
| `Screen.RowOf` | src/screen.rs:82-84 | pixel x of row y is buffer index `width*y + x` |
| `Screen.RowFits` | src/screen.rs:75-83 | every row of the buffer lies inside it |
| `Screen.FrameRowsStep` | src/screen.rs:75-106 | each row adds its CUP to the 1-based row and then its pixels |
| `Screen.FrameRowsPrefix` | src/screen.rs:75-106 | the first rows of the output depend only on the pixels they show |
| `Screen.AfterFinalSkips` | src/screen.rs:77 | reading a control sequence passes over its parameter characters up to and including the final byte, and no further |
| `Screen.ControlPrintsNothing` | src/screen.rs:77 | ESC `[`, parameter characters and a final byte print nothing on the terminal, whatever follows |
| `Screen.SgrPrintsNothing` | src/screen.rs:97 | the colour change emitted before a pixel prints nothing, whether it is empty or an SGR sequence |
| `Screen.CupPrintsNothing` | src/screen.rs:77 | the cursor move at the start of each row prints nothing |
| `Screen.PrintsChar` | src/screen.rs:97 | a pixel character other than ESC is printed as itself |
| `Screen.RowPrinted` | src/screen.rs:82-106 | what the terminal prints of a row's text is the row's characters, each exactly once and in order, whatever follows |
| `Screen.FrameRowsPrinted` | src/screen.rs:75-106 | what the terminal prints of the first n rows is the characters of the buffer's first `width * n` pixels, in row-major order |
| `Screen.FramePrinted` | src/screen.rs:70-107 | with an empty prelude, what the terminal prints of the frame is every pixel's character exactly once, in row-major order |
| `Screen.ClearedFrame` | src/screen.rs:48-55 | a cleared buffer is displayed as one CUP, one text-colour selection and `width` spaces per row |
| `Screen.Screen.constructor` | src/screen.rs:114-139 | a blank screen of `cols` by `rows` text-coloured pixels with an empty prelude |
| `Screen.Screen.Clear` | src/screen.rs:48-55 | `width*height` blank text-coloured pixels and an empty prelude; the size is kept |
| `Screen.Screen.DrawPixel` | src/screen.rs:57-60 | a blank pixel in the colour at `width*y + x`, nothing else changed; an index outside the buffer panics |
| `Screen.Screen.DrawText` | src/screen.rs:62-68 | character i at `width*y + x + i`, running on into the next row; nothing else changed; empty text changes nothing wherever it is placed; non-empty text that reaches outside the buffer panics |
| `Screen.Screen.Render` | src/screen.rs:70-107 | the written string equals `Frame`: the prelude, then `FrameRows`, which is for each row its CUP and its pixels' text |
| `Screen.StartupBufferSizeAsWritten` | src/screen.rs:127-128 | the `u16` product `cols * rows` as written: a result exactly when the product fits in `u16`, and then the true product |
| `Screen.StartupOverflows` | src/screen.rs:127-128 | a 256 by 256 terminal overflows the `u16` product |

## Left out

- Terminal input and output are not modelled. This covers `write_all` and `flush` in `display`, the escape sequences written by `From<W>` and `Drop`, raw mode, `terminal_size` and `Screen::resize`. The terminal's size becomes the constructor's parameters.
- src/controller.rs is not part of this model: its threads, channels, signal handlers and key loop are concurrency and I/O.
- src/common/rainbow.rs is not part of this model: it is floating-point colour arithmetic.
- The renderer (src/renderer.rs and src/renderer/) is not part of this model: it is drawing glue over `Screen` and a canvas module outside this model. Only its constant `DEBUG_INFO_PAGE_TOTAL` is used. Its panic for page 2 is why the page is not assumed to stay in {0, 1}.
- src/main.rs, src/common/args.rs and src/state/cell.rs are not part of this model. They are argument parsing, wiring and a plain record.
- The `regex` and `clap` crates are replaced. The regex is a hand-written recogniser (`RulePattern.Captures`), proved equal to the pattern it stands for. The clap error is a value holding the kind `InvalidValue` and the message.
- `MapPoint` (used by src/state.rs) and `crate::common::Point` (used by src/screen.rs) are not part of this model. `Common.Point2`, the same pair of `i32`, stands in for both.
- `Display` for both colour types writes exactly `String::from`, so `ToString` models both.
- `Debug` formatting of points is left out, and so is `Color::RESET` beyond its constant.
- `Add` and `Sub` for owned points and for references have the same body, so one function models both.
- Overflow: wherever Rust would panic on `i32`/`u64` overflow in a debug build, the model has a precondition instead. A release build would wrap; the model does not follow that.
- `StateCellImage.FromStr`: requires the text to be shorter than `i32::MAX` bytes. Longer texts make the source's `as i32` casts truncate, which the model does not follow.
- `Screen.RenderLine`, `Screen.EmitNext`, `Screen.ChangeColor` and `Screen.TrackColor` are the inner loop of `display` taken out as methods. The loop reads row y as the slice of the buffer from `width*y`, which is the same pixels as indexing `width*y + x`.
- `Screen.Printed` models what a terminal shows of the written text, not the terminal itself. It drops each control sequence, ESC `[` through its final byte (section 5.4 of ECMA-48), and keeps every other character. It ignores cursor placement, so it says nothing about where on the screen each character lands.
- `Screen.FramePrinted`: requires that no pixel character is ESC, since such a pixel would start a control sequence of its own. It also requires an empty prelude. That is always the case: the constructor and `clear` set the prelude to empty and nothing appends to it.
- `StateWorld.World.Update`: the source finds a count in a rule list with `iter().find`; the model uses `in` on the sequence, which is the same test.
- The decoder tracks `width` as the byte length `line.len()`, but x counts characters, as the source does. The model keeps that difference (see `StateCellImage.Utf8Len`).

## Findings

| source | as written | input that shows it | evidently intended | confidence | as-written member | corrected member |
|---|---|---|---|---|---|---|
| src/screen.rs:127-128 | the start-up buffer size is `cols * rows` computed in `u16` and only then cast to `usize` | a 256 by 256 terminal: 65536 does not fit in `u16`, so a debug build panics and a release build wraps to a 0-pixel buffer | the product computed in `usize`, giving one pixel per terminal cell | high for the overflow; not executed | `Screen.StartupOverflows` | `Screen.Screen.constructor` |
