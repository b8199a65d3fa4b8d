/** The "current sheet" layer: a registry of sheets with a current one, cell
    construction and placement, batched placement (`hold_cells`), ranges
    over a row, a column or a block of cells with their two synchronisation
    handlers, and the initial run of a calculation. The module globals of
    the source (`_last_sheet`, `_sheets`, `_hold_cells`, `_cells`) are the
    fields of one `Env` object. */
module Easy {
  import opened Outcomes
  import opened Scalars
  import opened Matrix
  import opened Checks
  import opened Sync

  const LabelMessage := "cannot put label to the left"

  /** A cell: a value at a fixed position of a sheet, with its display type. */
  class Cell {
    const row: int
    const column: int
    var value: Scalar
    const kind: CellType
    const choice: Option<seq<Scalar>>
    const bold: bool

    constructor (row: int, column: int, value: Scalar, kind: CellType, choice: Option<seq<Scalar>>, bold: bool)
      ensures this.row == row && this.column == column && this.value == value
      ensures this.kind == kind && this.choice == choice && this.bold == bold
    {
      this.row, this.column, this.value := row, column, value;
      this.kind, this.choice, this.bold := kind, choice, bold;
    }
  }

  /** A sheet: its declared size and the tuple of its cells, which the layer
      replaces by a longer one rather than mutating it. */
  class Sheet {
    const rows: int
    const columns: int
    var cells: seq<Cell>

    constructor (rows: int, columns: int)
      ensures this.rows == rows && this.columns == columns && cells == []
    {
      this.rows, this.columns := rows, columns;
      cells := [];
    }
  }

  /** The size of the current sheet, if there is one. */
  function ExtentOf(s: Sheet?): (e: Option<Extent>)
  {
    if s == null then None else Some(Extent(s.rows, s.columns))
  }

  /** No cell occurs twice in `cells`. */
  ghost predicate Distinct(cells: seq<Cell>)
  {
    forall i, j :: 0 <= i < |cells| && 0 <= j < |cells| && i != j ==> cells[i] != cells[j]
  }

  /** No cell occurs twice in the grid `cells`. */
  ghost predicate GridDistinct(cells: seq<seq<Cell>>)
  {
    forall i, j, a, b ::
      0 <= i < |cells| && 0 <= j < |cells[i]| && 0 <= a < |cells| && 0 <= b < |cells[a]| && (i != a || j != b) ==>
        cells[i][j] != cells[a][b]
  }

  /** Cells at pairwise different positions are different cells. */
  lemma DistinctByPosition(grid: seq<seq<Cell>>, rowStart: int, columnStart: int, cols: nat)
    requires IsMatrix(grid, |grid|, cols)
    requires forall a, b :: 0 <= a < |grid| && 0 <= b < cols ==>
               grid[a][b].row == rowStart + a && grid[a][b].column == columnStart + b
    ensures GridDistinct(grid)
  {
  }

  /** The sheet position of element `offset` of a line laid out along `axis`
      at row (or column) `index`. */
  function LinePosition(axis: Axis, index: int, offset: int): (p: (int, int))
  {
    if axis == AlongRow then (index, offset) else (offset, index)
  }

  /** A cell as `cell` builds it for a range element: at `position`, holding
      `value`, with the type inferred from it, no choice list, not bold. */
  ghost predicate Seeded(c: Cell, position: (int, int), value: Scalar)
    reads c
  {
    c.row == position.0 && c.column == position.1 && c.value == value &&
    c.kind == ResolveType(None, value, None) && c.choice.None? && !c.bold
  }

  /** A range over one row or one column of cells (`row`, `column`). */
  class LineRange {
    var value: seq<Scalar>
    const cells: seq<Cell>

    ghost predicate Valid()
      reads this
    {
      |value| == |cells| && Distinct(cells)
    }

    /** Every cell holds its element of the range's value. */
    ghost predicate InSync()
      requires Valid()
      reads this, cells
    {
      forall k :: 0 <= k < |cells| ==> cells[k].value == value[k]
    }

    constructor (value: seq<Scalar>, cells: seq<Cell>)
      requires |value| == |cells| && Distinct(cells)
      ensures this.value == value && this.cells == cells && Valid()
    {
      this.value, this.cells := value, cells;
    }

    /** Cell -> Range: cell `k` changed, so the range's value becomes a copy
        with element `k` replaced by that cell's value. When every other cell
        was in step with the old value, the range is in step again; when the
        range and its cells were already in step, nothing changes. */
    method CellChanged(k: nat)
      requires Valid() && k < |cells|
      modifies this
      ensures Valid()
      ensures value == Splice(old(value), k, cells[k].value)
      ensures (forall m :: 0 <= m < |cells| && m != k ==> cells[m].value == old(value)[m]) ==> InSync()
      ensures old(InSync()) ==> value == old(value)
    {
      SpliceFixedPoint(value, k, cells[k].value);
      var copy := value;
      copy := copy[k := cells[k].value];
      value := copy;
    }

    /** Range -> Cells: the range's value changed, so each cell in turn gets
        its element; only the range's own cells are written. */
    method ValueChanged()
      requires Valid()
      modifies cells
      ensures Valid() && InSync()
    {
      var k := 0;
      while k < |cells|
        invariant 0 <= k <= |cells|
        invariant forall m :: 0 <= m < k ==> cells[m].value == value[m]
      {
        cells[k].value := value[k];
        k := k + 1;
      }
    }
  }

  /** A range over a block of cells (`cell_range`). `value` is kept in the
      caller's orientation; `cells` is the `rows` x `cols` grid in the
      working orientation (transposed when `transpose` is set), whose
      element `[i][j]` sits at sheet position
      `(rowStart + i, columnStart + j)`. */
  class BlockRange {
    var value: seq<seq<Scalar>>
    const cells: seq<seq<Cell>>
    const rows: nat
    const cols: nat
    const transpose: bool
    const rowStart: nat
    const columnStart: nat
    ghost const Repr: set<Cell>

    ghost predicate Valid()
      reads this
    {
      rows > 0 && cols > 0 && IsMatrix(cells, rows, cols) &&
      (if transpose then IsMatrix(value, cols, rows) else IsMatrix(value, rows, cols)) &&
      GridDistinct(cells) &&
      Repr == set i, j | 0 <= i < rows && 0 <= j < cols :: cells[i][j]
    }

    /** The value in the working orientation, the shape of the grid. */
    function Working(): (w: seq<seq<Scalar>>)
      requires Valid()
      reads this
      ensures IsMatrix(w, rows, cols)
      ensures transpose ==> forall i, j :: 0 <= i < rows && 0 <= j < cols ==> w[i][j] == value[j][i]
      ensures !transpose ==> w == value
    {
      OrientedShape(value, transpose, rows, cols);
      Oriented(value, transpose)
    }

    /** Every cell holds its element of the working value. */
    ghost predicate InSync()
      requires Valid()
      reads this, Repr
    {
      forall i, j :: 0 <= i < rows && 0 <= j < cols ==> cells[i][j].value == Working()[i][j]
    }

    /** The values the grid of cells holds, row by row. */
    ghost function CellValues(): (g: seq<seq<Scalar>>)
      requires Valid()
      reads this, Repr
      ensures IsMatrix(g, rows, cols)
      ensures forall i, j :: 0 <= i < rows && 0 <= j < cols ==> g[i][j] == cells[i][j].value
    {
      seq(rows, i requires 0 <= i < rows reads Repr => Values(cells[i]))
    }

    constructor (value: seq<seq<Scalar>>, cells: seq<seq<Cell>>, rows: nat, cols: nat, transpose: bool,
                 rowStart: nat, columnStart: nat)
      requires rows > 0 && cols > 0 && IsMatrix(cells, rows, cols) && GridDistinct(cells)
      requires if transpose then IsMatrix(value, cols, rows) else IsMatrix(value, rows, cols)
      ensures this.value == value && this.cells == cells && this.rows == rows && this.cols == cols
      ensures this.transpose == transpose && this.rowStart == rowStart && this.columnStart == columnStart
      ensures Valid()
    {
      this.value, this.cells, this.rows, this.cols := value, cells, rows, cols;
      this.transpose, this.rowStart, this.columnStart := transpose, rowStart, columnStart;
      Repr := set i, j | 0 <= i < rows && 0 <= j < cols :: cells[i][j];
    }

    /** Cell -> Range: cell `[i][j]` changed, so the range's value becomes a
        copy with that element (`[j][i]` of the stored value when transposed)
        replaced by the cell's value. When every other cell was in step with
        the old value, the range is in step again; when the range and its
        cells were already in step, nothing changes. */
    method CellChanged(i: nat, j: nat)
      requires Valid() && i < rows && j < cols
      modifies this
      ensures Valid()
      ensures value == SpliceBlock(old(value), transpose, i, j, cells[i][j].value)
      ensures (forall a, b :: 0 <= a < rows && 0 <= b < cols && (a != i || b != j) ==>
                 cells[a][b].value == old(Working())[a][b]) ==> InSync()
      ensures old(InSync()) ==> value == old(value)
    {
      var x := cells[i][j].value;
      ghost var before := Working();
      ghost var wasInSync := InSync();
      SpliceBlockWorking(value, transpose, i, j, x);
      SpliceBlockFixedPoint(value, transpose, i, j);
      assert wasInSync ==> x == before[i][j];
      value := SpliceBlock(value, transpose, i, j, x);
      ghost var after := Working();
      assert forall a, b :: 0 <= a < rows && 0 <= b < cols ==>
               after[a][b] == if a == i && b == j then x else before[a][b];
    }

    /** Range -> Cells, over the offsets of the block: every cell gets its
        element of the working value. */
    method ValueChanged()
      requires Valid()
      modifies Repr
      ensures Valid() && InSync()
      ensures (CellValues(), Pass) == FanOutBlock(Working(), old(CellValues()), rows, cols)
    {
      var working := Working();
      var i := 0;
      while i < rows
        invariant 0 <= i <= rows
        invariant forall a, b :: 0 <= a < i && 0 <= b < cols ==> cells[a][b].value == working[a][b]
      {
        var j := 0;
        while j < cols
          invariant 0 <= j <= cols
          invariant forall a, b :: 0 <= a < i && 0 <= b < cols ==> cells[a][b].value == working[a][b]
          invariant forall b :: 0 <= b < j ==> cells[i][b].value == working[i][b]
        {
          cells[i][j].value := working[i][j];
          j := j + 1;
        }
        i := i + 1;
      }
      MatrixExt(CellValues(), working, rows, cols);
    }
  }

  /** The argument of `sheet`: no key, a registry key, or a sheet. */
  datatype SheetArg = NoKey | Key(name: string) | Instance(sheet: Sheet)

  /** The module state of the layer. */
  class Env {
    var current: Sheet?
    var registry: map<string, Sheet>
    var holding: bool
    var pending: seq<Cell>

    constructor ()
      ensures current == null && registry == map[] && !holding && pending == []
    {
      current, registry, holding, pending := null, map[], false, [];
    }

    /** `current()`: the sheet most recently made current by `sheet`. */
    function Current(): (s: Sheet?)
      reads this
    {
      current
    }

    /** `added` went, in order, to the end of the pending buffer while
        holding and to the end of the current sheet's cells otherwise; the
        current sheet, the registry and the batching flag are unchanged. */
    twostate predicate PlacedAll(new added: seq<Cell>)
      reads this, current
    {
      current == old(current) && registry == old(registry) && holding == old(holding) &&
      (holding ==> pending == old(pending) + added && (current != null ==> current.cells == old(current.cells))) &&
      (!holding ==> pending == old(pending) && (current != null ==> current.cells == old(current.cells) + added))
    }

    /** `sheet(key, rows, columns)`: a given sheet becomes current; a new
        key registers a new sheet (first write wins); a known key gives back
        its sheet and ignores `rows` and `columns`; no key always builds a
        new, unregistered sheet. The result becomes current. */
    method UseSheet(arg: SheetArg, rows: int, columns: int) returns (s: Sheet)
      modifies this
      ensures Current() == s && holding == old(holding) && pending == old(pending)
      ensures arg.Instance? ==> s == arg.sheet && registry == old(registry)
      ensures arg.NoKey? ==>
                fresh(s) && s.rows == rows && s.columns == columns && s.cells == [] && registry == old(registry)
      ensures arg.Key? && arg.name in old(registry) ==> s == old(registry)[arg.name] && registry == old(registry)
      ensures arg.Key? && arg.name !in old(registry) ==>
                fresh(s) && s.rows == rows && s.columns == columns && s.cells == [] &&
                registry == old(registry)[arg.name := s]
    {
      if arg.Instance? {
        current := arg.sheet;
      } else if arg.NoKey? || arg.name !in registry {
        current := new Sheet(rows, columns);
        if arg.Key? {
          registry := registry[arg.name := current];
        }
      } else {
        current := registry[arg.name];
      }
      s := current;
    }

    /** Puts `c` at the end of the pending buffer while holding, else at the
        end of the current sheet's cells (a new, longer tuple). */
    method Place(c: Cell) returns (st: Outcome)
      modifies this, current
      ensures !old(holding) && old(current) == null ==> st == Fail(AttributeError) && unchanged(this)
      ensures old(holding) || old(current) != null ==> st == Pass && PlacedAll([c])
    {
      if holding {
        pending := pending + [c];
        st := Pass;
      } else if current == null {
        st := Fail(AttributeError);
      } else {
        current.cells := current.cells + [c];
        st := Pass;
      }
    }

    /** `cell(row, column, value, type, label_left, choice)`: builds a cell
        whose type is `kind` if given, else inferred from `value` and
        `choice`, and places it. A truthy `labelLeft` then places a bold
        label cell at `column - 1` (returned in `labelCell`), which fails
        when `column - 1 < 0`, after the main cell has been placed. */
    method MakeCell(row: int, column: int, value: Scalar, kind: Option<CellType>, labelLeft: Option<Scalar>,
                    choice: Option<seq<Scalar>>)
      returns (c: Cell, labelCell: Cell?, st: Outcome)
      modifies this, current
      ensures fresh(c) && c.row == row && c.column == column && c.value == value
      ensures c.kind == ResolveType(kind, value, choice) && c.choice == choice && !c.bold
      ensures !old(holding) && old(current) == null ==> st == Fail(AttributeError) && labelCell == null && unchanged(this)
      ensures old(holding) || old(current) != null ==>
                PlacedAll([c] + (if labelCell == null then [] else [labelCell])) &&
                (labelLeft.None? || !Truthy(labelLeft.value) ==> st == Pass && labelCell == null) &&
                (labelLeft.Some? && Truthy(labelLeft.value) && column < 1 ==>
                   st == Fail(AssertionError(LabelMessage)) && labelCell == null) &&
                (labelLeft.Some? && Truthy(labelLeft.value) && column >= 1 ==>
                   st == Pass && labelCell != null && fresh(labelCell) && labelCell != c && labelCell.bold &&
                   labelCell.row == row && labelCell.column == column - 1 && labelCell.value == labelLeft.value &&
                   labelCell.kind == ResolveType(None, labelLeft.value, None) && labelCell.choice.None?)
    {
      labelCell := null;
      c := new Cell(row, column, value, ResolveType(kind, value, choice), choice, false);
      st := Place(c);
      if st.Fail? {
        return;
      }
      if labelLeft.Some? && Truthy(labelLeft.value) {
        if column - 1 < 0 {
          st := Fail(AssertionError(LabelMessage));
          return;
        }
        labelCell := new Cell(row, column - 1, labelLeft.value, ResolveType(None, labelLeft.value, None), None, true);
        st := Place(labelCell);
      }
    }

    /** The cells `row` and `column` create: one per element of `values`,
        in order, at consecutive offsets from `start` along `axis`. */
    method PlaceLine(axis: Axis, index: int, start: nat, values: seq<Scalar>) returns (line: seq<Cell>)
      requires current != null
      modifies this, current
      ensures |line| == |values| && Distinct(line) && PlacedAll(line)
      ensures forall k :: 0 <= k < |line| ==>
                fresh(line[k]) && Seeded(line[k], LinePosition(axis, index, start + k), values[k])
    {
      line := [];
      var k := 0;
      while k < |values|
        invariant 0 <= k <= |values| && |line| == k
        invariant current != null && Distinct(line) && PlacedAll(line)
        invariant forall m :: 0 <= m < k ==>
                    fresh(line[m]) && Seeded(line[m], LinePosition(axis, index, start + m), values[m])
      {
        var position := LinePosition(axis, index, start + k);
        var c, _, _ := MakeCell(position.0, position.1, values[k], None, None, None);
        line := line + [c];
        k := k + 1;
      }
    }

    /** The common body of `row` and `column`. */
    method Line(axis: Axis, index: int, value: seq<Scalar>, start: nat, end: Option<int>) returns (r: Result<LineRange>)
      modifies this, current
      ensures var check := CheckLine(axis, |value|, start, end, ExtentOf(old(current)));
              (r.Err? <==> check.Fail?) && (r.Err? ==> r.error == check.error && PlacedAll([]))
      ensures r.Ok? ==>
                fresh(r.value) && r.value.Valid() && r.value.value == value && r.value.InSync() &&
                PlacedAll(r.value.cells) &&
                forall k :: 0 <= k < |value| ==>
                  fresh(r.value.cells[k]) && Seeded(r.value.cells[k], LinePosition(axis, index, start + k), value[k])
    {
      var check := CheckLine(axis, |value|, start, end, ExtentOf(current));
      if check.Fail? {
        return Err(check.error);
      }
      var line := PlaceLine(axis, index, start, value);
      var range := new LineRange(value, line);
      return Ok(range);
    }

    /** `row(row, value, column_start, column_end)`: checks the span against
        the value's length and the sheet's columns only, then builds one cell
        per element along sheet row `row` and a range holding `value` in step
        with them. */
    method Row(row: int, value: seq<Scalar>, columnStart: nat, columnEnd: Option<int>) returns (r: Result<LineRange>)
      modifies this, current
      ensures var check := CheckLine(AlongRow, |value|, columnStart, columnEnd, ExtentOf(old(current)));
              (r.Err? <==> check.Fail?) && (r.Err? ==> r.error == check.error && PlacedAll([]))
      ensures r.Ok? ==>
                fresh(r.value) && r.value.Valid() && r.value.value == value && r.value.InSync() &&
                PlacedAll(r.value.cells) &&
                forall k :: 0 <= k < |value| ==>
                  fresh(r.value.cells[k]) && Seeded(r.value.cells[k], (row, columnStart + k), value[k])
    {
      r := Line(AlongRow, row, value, columnStart, columnEnd);
    }

    /** `column(column, value, row_start, row_end)`: as `row`, down sheet
        column `column`, checking the sheet's rows only. */
    method Column(column: int, value: seq<Scalar>, rowStart: nat, rowEnd: Option<int>) returns (r: Result<LineRange>)
      modifies this, current
      ensures var check := CheckLine(AlongColumn, |value|, rowStart, rowEnd, ExtentOf(old(current)));
              (r.Err? <==> check.Fail?) && (r.Err? ==> r.error == check.error && PlacedAll([]))
      ensures r.Ok? ==>
                fresh(r.value) && r.value.Valid() && r.value.value == value && r.value.InSync() &&
                PlacedAll(r.value.cells) &&
                forall k :: 0 <= k < |value| ==>
                  fresh(r.value.cells[k]) && Seeded(r.value.cells[k], (rowStart + k, column), value[k])
    {
      r := Line(AlongColumn, column, value, rowStart, rowEnd);
    }

    /** `cell_range(value, row_start, column_start, row_end, column_end,
        transpose)`: validates the block, builds its cells row by row in the
        working orientation, and a range whose stored value is exactly the
        caller's `value`, in step with the cells. */
    method CellRange(value: seq<seq<Scalar>>, rowStart: nat, columnStart: nat, rowEnd: Option<int>,
                     columnEnd: Option<int>, transpose: bool)
      returns (r: Result<BlockRange>)
      modifies this, current
      ensures var check := CheckBlock(value, rowStart, columnStart, rowEnd, columnEnd, transpose, ExtentOf(old(current)));
              (r.Err? <==> check.Err?) && (r.Err? ==> r.error == check.error && PlacedAll([]))
      ensures r.Ok? ==>
                fresh(r.value) && r.value.Valid() && r.value.value == value && r.value.InSync() &&
                r.value.transpose == transpose && r.value.rowStart == rowStart && r.value.columnStart == columnStart &&
                PlacedAll(Flatten(r.value.cells)) &&
                forall i, j :: 0 <= i < r.value.rows && 0 <= j < r.value.cols ==>
                  fresh(r.value.cells[i][j]) &&
                  Seeded(r.value.cells[i][j], (rowStart + i, columnStart + j), r.value.Working()[i][j])
    {
      var check := CheckBlock(value, rowStart, columnStart, rowEnd, columnEnd, transpose, ExtentOf(current));
      if check.Err? {
        return Err(check.error);
      }
      AcceptedBlockRoundTrip(value, rowStart, columnStart, rowEnd, columnEnd, transpose, ExtentOf(current));
      var working := check.value;
      var rows, cols := |working|, |working[0]|;
      var grid := PlaceGrid(rowStart, columnStart, working, cols);
      OrientedShape(value, transpose, rows, cols);
      var range := new BlockRange(value, grid, rows, cols, transpose, rowStart, columnStart);
      return Ok(range);
    }

    /** The cells `cell_range` creates for the working value `working`: row
        by row, one per element, at `(rowStart + i, columnStart + j)`. */
    method PlaceGrid(rowStart: nat, columnStart: nat, working: seq<seq<Scalar>>, cols: nat) returns (grid: seq<seq<Cell>>)
      requires current != null && IsMatrix(working, |working|, cols)
      modifies this, current
      ensures IsMatrix(grid, |working|, cols) && GridDistinct(grid) && PlacedAll(Flatten(grid))
      ensures forall a, b :: 0 <= a < |working| && 0 <= b < cols ==>
                fresh(grid[a][b]) && Seeded(grid[a][b], (rowStart + a, columnStart + b), working[a][b])
    {
      grid := [];
      var i := 0;
      while i < |working|
        invariant 0 <= i <= |working| && IsMatrix(grid, i, cols)
        invariant current != null && PlacedAll(Flatten(grid))
        invariant forall a, b :: 0 <= a < i && 0 <= b < cols ==>
                    fresh(grid[a][b]) && Seeded(grid[a][b], (rowStart + a, columnStart + b), working[a][b])
      {
        var line := PlaceLine(AlongRow, rowStart + i, columnStart, working[i]);
        FlattenSnoc(grid, line);
        grid := grid + [line];
        i := i + 1;
      }
      DistinctByPosition(grid, rowStart, columnStart, cols);
    }

    /** Entering `hold_cells()`: when already holding nothing happens (the
        inner scope is flattened into the outer one); otherwise holding
        starts. The pending buffer is not cleared on entry. */
    method HoldEnter() returns (outer: bool)
      modifies this
      ensures outer == !old(holding) && holding
      ensures current == old(current) && registry == old(registry) && pending == old(pending)
    {
      if holding {
        outer := false;
      } else {
        holding := true;
        outer := true;
      }
    }

    /** Leaving `hold_cells()`, by normal exit or by an exception: an inner
        scope does nothing; the outermost one stops holding and then appends
        the whole pending buffer, in one assignment, to the sheet that is
        current at that moment and empties the buffer. Without a current
        sheet that append raises and the buffer is kept. */
    method HoldExit(outer: bool) returns (st: Outcome)
      modifies this, current
      ensures !outer ==> st == Pass && PlacedAll([])
      ensures outer ==> !holding && current == old(current) && registry == old(registry)
      ensures outer && old(current) == null ==> st == Fail(AttributeError) && pending == old(pending)
      ensures outer && old(current) != null ==>
                st == Pass && current.cells == old(current.cells) + old(pending) && pending == []
    {
      st := Pass;
      if outer {
        holding := false;
        if current == null {
          st := Fail(AttributeError);
          return;
        }
        current.cells := current.cells + pending;
        pending := [];
      }
    }
  }

  /** The current values of `inputs`, in declared order. */
  function Values(inputs: seq<Cell>): (vs: seq<Scalar>)
    reads inputs
    ensures |vs| == |inputs| && forall k :: 0 <= k < |inputs| ==> vs[k] == inputs[k].value
  {
    seq(|inputs|, k requires 0 <= k < |inputs| reads inputs => inputs[k].value)
  }

  /** The `calculate` closure of `calculation`: reads every input's value in
      order, applies `f`, and assigns the result to the output cell's value;
      nothing else changes. */
  method Calculate(inputs: seq<Cell>, output: Cell, f: seq<Scalar> -> Scalar)
    modifies output
    ensures output.value == f(old(Values(inputs)))
  {
    var values := Values(inputs);
    output.value := f(values);
  }

  /** `calculation(inputs, output, initial_calulation)(f)`: with the initial
      calculation requested the output immediately holds `f` of the inputs'
      values; otherwise nothing changes until an input does. */
  method Calculation(inputs: seq<Cell>, output: Cell, f: seq<Scalar> -> Scalar, initialCalculation: bool)
    modifies output
    ensures initialCalculation ==> output.value == f(old(Values(inputs)))
    ensures !initialCalculation ==> unchanged(output)
  {
    if initialCalculation {
      Calculate(inputs, output, f);
    }
  }
}
