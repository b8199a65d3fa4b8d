# ipysheet "current sheet" layer in Dafny

This project models `ipysheet/easy.py`, the convenience layer of ipysheet that
keeps a current sheet (like pylab keeps a current figure) and builds cells and
ranges on it:

- **Sheet registry and current sheet** (`sheet`, `current`). The module
  globals `_last_sheet`, `_sheets`, `_hold_cells` and `_cells` are the fields
  `current`, `registry`, `holding` and `pending` of one `Easy.Env` object.
- **Cell construction and placement** (`cell`). The display type is inferred
  from the value. The new cell goes to the end of the current sheet's `cells`,
  or to the end of the pending buffer while cells are held. A truthy
  `label_left` places a second, bold cell one column to the left.
- **Batching** (`hold_cells`). Entry and exit are separate methods. The exit
  method is what the `finally` clause runs on every exit path.
- **Range construction** (`row`, `column`, `cell_range`, `_transpose`). The
  shape and bounds checks are pure functions (`Checks`). Python's
  zip-based transposition is modelled with its truncation to the shortest row
  (`Matrix.Transpose`). A successful construction seeds one cell per element
  and returns a range that is in step with those cells.
- **The two synchronisation handlers**. Cell -> Range copies the range's value
  and overwrites the element at the cell's offset (`Sync.Splice`,
  `Sync.SpliceBlock`). Range -> Cells writes every element into its cell. The
  handlers are methods of `Easy.LineRange` (for `row`/`column`) and
  `Easy.BlockRange` (for `cell_range`). The proved properties include: exactly
  one element changes; fan-out puts every element into its cell; once the
  range and its cells are in step, the Cell -> Range handler changes nothing.
- **`calculation`**. The `calculate` closure and the initial run it performs.

Values are the `Scalars.Scalar` datatype (boolean, number, text). Exceptions are
the `Outcomes.Error` values `ValueError` (with the source's message),
`AssertionError`, `AttributeError` and `IndexError`. `AttributeError` is what
using the current sheet raises before any sheet exists. `current()` is the
function `Easy.Env.Current`.

Three behaviours of the code that a reader might not expect, which the
model keeps:

- Entering the outermost `hold_cells` does not clear the pending buffer
  (ipysheet/easy.py:324-328).
- `row` and `column` accept a zero-length value and check only the axis they
  span (ipysheet/easy.py:137-144 and 182-189).
- A failing `label_left` assertion leaves the main cell already placed
  (ipysheet/easy.py:108-114).

## Model

| member | source | states |
|---|---|---|
| `Scalars.Truthy` | ipysheet/easy.py:112 | Python truthiness of `label_left`: false exactly for `False`, zero and the empty string. |
| `Scalars.ResolveType` | ipysheet/easy.py:87-95 | An explicit type is kept. Otherwise a choice list gives `dropdown`. Otherwise: checkbox exactly for booleans, numeric exactly for numbers, text exactly for text. |
| `Matrix.Transpose` | ipysheet/easy.py:207-208 | `[list(k) for k in zip(*m)]`. An empty input gives `[]`. Otherwise there are as many rows as the shortest input row is long, and no more than any input row. Every result row has one element per input row, and element `[j][i]` is input `[i][j]`. |
| `Matrix.Oriented` | ipysheet/easy.py:233 | `T`: the identity without `transpose`. With it, working element `[j][i]` is the caller's `[i][j]` and every working row has one element per caller row. |
| `Matrix.MinLen` | ipysheet/easy.py:207-208 | The number of tuples `zip(*m)` yields is at most every row's length and equals some row's length. |
| `Matrix.TransposeOfMatrix` | ipysheet/easy.py:207-208 | `_transpose` of an r x c matrix with r > 0 is c x r, with `out[j][i] == in[i][j]`. Nothing is cut off. |
| `Matrix.TransposeInvolutive` | ipysheet/easy.py:233-235 | Transposing a non-empty regular matrix twice gives it back. |
| `Matrix.TransposeDropsEmptyRows` | ipysheet/easy.py:207-208 | With zero columns the transposition loses every row, so the round trip gives `[]`. |
| `Matrix.OrientedShape` | ipysheet/easy.py:233-235 | `T` of a block stored in the caller's orientation has the working shape. Its `[i][j]` is the stored `[j][i]` when transposed. Applying `T` again restores the stored value. |
| `Checks.CheckLine` | ipysheet/easy.py:137-144 | `row`'s checks, and `column`'s at lines 182-189. They pass iff the span matches the value's length, there is a current sheet, and the line fits along its own axis. Each failure is the source's exception, in the source's order. |
| `Checks.EmptyLineAccepted` | ipysheet/easy.py:141-144 | A zero-length line passes the checks whenever its start is within the sheet. |
| `Checks.CheckBlockAsWritten` | ipysheet/easy.py:233-255 | `cell_range`'s checks on `T(value)`, as written. They pass iff rows match and are non-empty, the column span is non-zero, every row has that length, a sheet exists, and the block fits. Each failure is the source's exception, in the source's order: a `ValueError` with the source's message, or `AttributeError` when there is no current sheet. On success the result is the working value. |
| `Checks.CheckBlock` | ipysheet/easy.py:249-251 | The checks as intended (see Findings): a ragged value is refused even when it is to be transposed. Otherwise the result equals the as-written checks. |
| `Checks.AcceptedBlockRoundTrip` | ipysheet/easy.py:235-256 | When the checks pass, the working value is a non-empty rectangle inside the sheet. `T` of it, the value the range stores, equals the caller's input. |
| `Checks.RaggedTransposedBlockAccepted` | ipysheet/easy.py:233-256 | As written, `[[1, 2], [3]]` with `transpose=True` passes every check. The range would then store `[[1], [3]]`. |
| `Checks.RaggedTransposedBlockRefused` | ipysheet/easy.py:249-251 | The corrected checks refuse that value as not regular. |
| `Sync.Splice` | ipysheet/easy.py:149-153 | The Cell -> Range update of `row`/`column` keeps the length. It puts the cell's value at the offset and leaves every other element unchanged. |
| `Sync.SpliceFixedPoint` | ipysheet/easy.py:194-198 | Splicing leaves the value unchanged iff the element at the offset already equals the cell's value. |
| `Sync.SpliceBlock` | ipysheet/easy.py:264-270 | The Cell -> Range update of `cell_range` keeps the block's shape. In the caller's orientation exactly one element, `[i][j]` (`[j][i]` when transposed), becomes the cell's value. |
| `Sync.SpliceBlockWorking` | ipysheet/easy.py:264-270 | Seen in the cells' grid orientation, the Cell -> Range update changes exactly the element at the cell's own offset `(i, j)` to the cell's value. The result keeps the grid's shape. |
| `Sync.SpliceBlockFixedPoint` | ipysheet/easy.py:264-270 | Splicing in the element the working value already holds leaves the block unchanged. |
| `Sync.Positions` | ipysheet/easy.py:257-258 | `range(row_start, row_end)` x `range(column_start, column_end)` as nested loops visit it. There are exactly height x width offsets. |
| `Sync.PositionsRowMajor` | ipysheet/easy.py:275-276 | The nested loops go row by row: offset number `k` is row `k / width`, column `k % width` of the rectangle. |
| `Sync.PositionsCover` | ipysheet/easy.py:275-276 | The two nested loops visit exactly the offsets of the rectangle. |
| `Sync.WriteAt` | ipysheet/easy.py:275-277 | The loop over the visited offsets. The cell grid keeps its shape. The loop completes iff every offset is inside both the value and the cell grid; otherwise it raises `IndexError` and only `IndexError`. Either way, every cell either keeps its old value or holds the value's element at an offset the loop visited. |
| `Sync.WriteAtKeepsPrefix` | ipysheet/easy.py:275-277 | Writes made before an `IndexError` stay: when the first k + 1 offsets are inside both grids, the cell at offset number k ends up holding the value's element there, whether or not a later offset raises. |
| `Sync.WriteAtInRange` | ipysheet/easy.py:275-277 | Over in-range positions the fan-out loop completes without error. Each visited cell gets its element and every other cell keeps its value. |
| `Sync.FanOutBlock` | ipysheet/easy.py:272-277 | The Range -> Cells loop as intended, over the offsets relative to the block (see Findings). Over a grid of the working value's shape it completes and leaves every cell equal to its element of `T(value)`. |
| `Sync.FanOutBlockAsWritten` | ipysheet/easy.py:275-277 | The loop as written, over absolute sheet indices. For a non-empty block it completes iff `row_start = column_start = 0`, and then it copies every element. Anywhere else it raises `IndexError`. |
| `Sync.FanOutAsWrittenMissesOffsetBlock` | ipysheet/easy.py:275-277 | As written, a 1 x 1 block at row 1 raises `IndexError` and its cell is not updated. The intended loop updates it. |
| `Easy.LineRange.CellChanged` | ipysheet/easy.py:149-153 | The range's value becomes `Splice(old value, k, cell k's value)`. If all other cells were in step, the range is in step. If everything was in step already, the value is unchanged. |
| `Easy.LineRange.ValueChanged` | ipysheet/easy.py:155-158 | Afterwards cell k holds `value[k]` for every k. Only the range's cells are written. |
| `Easy.BlockRange.Working` | ipysheet/easy.py:273 | `T(cellrange.value)` has the shape of the cell grid. When transposed its `[i][j]` is the stored `[j][i]`; otherwise it is the stored value. |
| `Easy.BlockRange.CellChanged` | ipysheet/easy.py:264-270 | The range's value becomes `SpliceBlock(old value, transpose, i, j, cell value)`. The range ends in step when the other cells were, and is unchanged when everything was in step. |
| `Easy.BlockRange.ValueChanged` | ipysheet/easy.py:272-277 | As intended (see Findings): the loop runs over the block's relative offsets. Afterwards cell (i, j) holds `T(value)[i][j]` for every offset, and the new cell values are exactly what `Sync.FanOutBlock` computes from the old ones. Only the range's cells are written: the frame `Repr` is exactly the set of the grid's cells (`Valid`). |
| `Easy.Env.Current` | ipysheet/easy.py:60-62 | `current()` returns the sheet last made current. `UseSheet` ensures `Current()` is the sheet it returns. Cell and range placement keep it unchanged (`PlacedAll`). |
| `Easy.Env.UseSheet` | ipysheet/easy.py:47-58 | A given sheet becomes current. A known key returns its sheet and ignores the sizes. A new key registers a new empty sheet. No key builds a new, unregistered one. The result is current in every case. |
| `Easy.Env.Place` | ipysheet/easy.py:108-111 | While holding, the cell is appended to the pending buffer and the sheet is unchanged. Otherwise the sheet's cells become the old cells plus the cell, and the buffer is unchanged. Without a sheet and not holding, `AttributeError`. |
| `Easy.Env.MakeCell` | ipysheet/easy.py:86-115 | Builds a cell with the resolved type and places it. With a truthy label and `column >= 1` it also places a bold label cell at `column - 1`. With `column < 1` it raises `AssertionError` after placing the main cell. |
| `Easy.Env.PlaceLine` | ipysheet/easy.py:147 | Creates one fresh, distinct cell per value at consecutive positions, with inferred types, appended in order. |
| `Easy.Env.Line` | ipysheet/easy.py:137-158 | The body `row` and `column` share, along either axis. It fails exactly as `CheckLine` says and then places nothing. Otherwise it places one fresh cell per element at consecutive positions, seeded with that element, and returns a range holding the input, in step with those cells. |
| `Easy.Env.Row` | ipysheet/easy.py:137-160 | Fails exactly as `CheckLine` says and then places nothing. Otherwise it places one cell per element along the row and returns a range whose value is the input, in step with those cells. |
| `Easy.Env.Column` | ipysheet/easy.py:182-205 | The same, down a column, checking the sheet's rows. |
| `Easy.Env.CellRange` | ipysheet/easy.py:232-282 | Fails exactly as `CheckBlock` says and then places nothing. Otherwise it places the cells row by row at `(row_start + i, column_start + j)` seeded with `T(value)[i][j]`. It returns a range whose stored value is the caller's input, in step with its cells. |
| `Easy.Env.PlaceGrid` | ipysheet/easy.py:257-259 | Creates one fresh cell per element of the working value, row by row. The cell at offset `(i, j)` sits at `(row_start + i, column_start + j)` and is seeded with `value[i][j]`. All cells are distinct and are appended in row-major order. |
| `Easy.Env.HoldEnter` | ipysheet/easy.py:322-328 | A nested entry changes nothing and reports that it is inner. The outermost entry starts holding. |
| `Easy.Env.HoldExit` | ipysheet/easy.py:330-334 | An inner exit changes nothing. The outermost exit stops holding, then in one assignment appends the whole buffer to the sheet current at exit, and empties the buffer. Without a sheet it raises and keeps the buffer. |
| `Easy.Values` | ipysheet/easy.py:296 | The inputs' values in declared order. |
| `Easy.Calculate` | ipysheet/easy.py:295-298 | The output cell's value becomes `f` of the inputs' values as they were before the assignment. |
| `Easy.Calculation` | ipysheet/easy.py:293-303 | With the initial calculation requested, the output holds `f(values)` immediately. Otherwise nothing changes. |

## Findings

| source | as written | input that shows it | evidently intended | confidence | as-written member | corrected member |
|---|---|---|---|---|---|---|
| ipysheet/easy.py:275-277 | The Range -> Cells handler of `cell_range` loops over the absolute sheet indices `range(row_start, row_end)` and `range(column_start, column_end)`. It subscripts the cell grid and the value, which are indexed from 0. | `cell_range([[1]], row_start=1)` on a sheet with at least 2 rows, then assigning a new value to the range: the subscript `[1]` at line 277 raises `IndexError` and the one cell keeps its old value | loop over the offsets `0 .. rows-1` and `0 .. cols-1` | high (not executed) | `Sync.FanOutBlockAsWritten`, `Sync.FanOutAsWrittenMissesOffsetBlock` | `Sync.FanOutBlock` (which `Easy.BlockRange.ValueChanged` is proved to compute) |
| ipysheet/easy.py:233-251 | With `transpose=True` the value is transposed by `zip` before the regularity check. `zip` cuts every row to the shortest, so a ragged value passes. | `cell_range([[1, 2], [3]], transpose=True)` is accepted, and the range stores `[[1], [3]]` | refuse a ragged value with "not a regular matrix", as without `transpose` | medium (not executed) | `Checks.CheckBlockAsWritten`, `Checks.RaggedTransposedBlockAccepted` | `Checks.CheckBlock`, `Checks.AcceptedBlockRoundTrip` (used by `Easy.Env.CellRange`) |

## Left out

- The observer machinery (`observe` and traitlets notification) is not modelled. Each handler is a method that is called explicitly. The cascade a write starts is not modelled. Traitlets' suppression of equal-value notifications is also left out: it belongs to the widget library. The fixed-point properties above are what make that suppression end the cascade.
- The `Sheet`, `Cell` and `Range` widget classes of `ipysheet/sheet.py` are not part of this model. Here they are plain classes holding only the fields this layer uses.
- Presentation metadata is left out: style merging (`color`, `backgroundColor`, `fontStyle`, `fontWeight`), `format`, `renderer`, `read_only`, `column_width`, the header flags and `**kwargs`. The one exception is that a label cell is bold.
- Default arguments (`rows=5`, `columns=5`, `value=0.`) are not modelled. The caller passes every value.
- Registry keys are strings. Python accepts any hashable key.
- Range starts are natural numbers. Python's negative indices, and the negative list indexing they would cause, are not modelled.
- Easy.LineRange.CellChanged, Easy.LineRange.ValueChanged, Easy.BlockRange.CellChanged, Easy.BlockRange.ValueChanged: the `IndexError` paths that follow a resize are not modelled. Each handler requires the range's value to keep the shape it had at construction.
- `return_cells` of `cell_range` has no separate return. The cell grid is the `cells` field of the returned range.
- `calculation`: only the `calculate` closure and its initial run are modelled. Re-running on input changes is observer machinery. The output must be a cell widget: the `(object, attribute)` form of `_assign` and its `isinstance` dispatch are not modelled. An `f` with the wrong arity, which raises `TypeError`, is not modelled.
- Easy.Calculate, Easy.Calculation: the inputs are cells holding scalars. A `Range` input, whose `.value` is a list, is not modelled. `f` is a total function from the list of input values to a scalar; an exception raised inside `f` is not modelled.
- Python numbers (int, float, complex) are all `Num` over the reals. There is no floating point, NaN or `None` value. `bool` is a separate kind rather than a subclass of numbers, so the "boolean before numeric" order is built into the datatype.
- `@contextmanager` generator mechanics are replaced by `HoldEnter` and `HoldExit`. The body between them, and the exception it may raise, is the caller's.
- `print` debugging output is not modelled.
