/** The two synchronisation handlers between a range and its cells, as
    updates of plain values: Cell -> Range overwrites one element of the
    range's value, Range -> Cells copies the value into the cells. */
module Sync {
  import opened Outcomes
  import opened Scalars
  import opened Matrix

  /** Cell -> Range for `row` and `column`: a copy of the range's value with
      the element at the cell's offset replaced by the cell's value. */
  function Splice(value: seq<Scalar>, offset: nat, x: Scalar): (r: seq<Scalar>)
    requires offset < |value|
    ensures |r| == |value| && r[offset] == x
    ensures forall k :: 0 <= k < |value| && k != offset ==> r[k] == value[k]
  {
    value[offset := x]
  }

  /** Splicing in the element already there is a fixed point, and it is the
      only value that leaves the range unchanged. */
  lemma SpliceFixedPoint(value: seq<Scalar>, offset: nat, x: Scalar)
    requires offset < |value|
    ensures Splice(value, offset, x) == value <==> value[offset] == x
  {
  }

  /** `value` (in the caller's orientation) is a non-empty rectangle. */
  predicate Block(value: seq<seq<Scalar>>)
  {
    |value| > 0 && IsMatrix(value, |value|, |value[0]|)
  }

  /** Offset `(i, j)` in the working orientation addresses an element. */
  predicate InWorking(value: seq<seq<Scalar>>, transpose: bool, i: int, j: int)
    requires Block(value)
  {
    if transpose then 0 <= i < |value[0]| && 0 <= j < |value|
    else 0 <= i < |value| && 0 <= j < |value[0]|
  }

  /** Cell -> Range for `cell_range`: take the range's value to the working
      orientation, overwrite the element at the cell's offset `(i, j)`, and
      take it back. In the caller's orientation exactly one element changes:
      `[i][j]`, or `[j][i]` when the block is transposed. */
  function SpliceBlock(value: seq<seq<Scalar>>, transpose: bool, i: nat, j: nat, x: Scalar): (r: seq<seq<Scalar>>)
    requires Block(value) && InWorking(value, transpose, i, j)
    ensures IsMatrix(r, |value|, |value[0]|)
    ensures forall a, b :: 0 <= a < |value| && 0 <= b < |value[0]| ==>
              r[a][b] == if (transpose && a == j && b == i) || (!transpose && a == i && b == j) then x
                         else value[a][b]
  {
    if transpose then
      TransposeOfMatrix(value, |value|, |value[0]|);
      var w := Transpose(value);
      var updated := w[i := w[i][j := x]];
      TransposeOfMatrix(updated, |value[0]|, |value|);
      Transpose(updated)
    else
      value[i := value[i][j := x]]
  }

  /** Splicing in the element the working value already holds at that
      offset leaves a block's value unchanged: after Range -> Cells has run,
      every cell's own Cell -> Range handler is a no-op. */
  lemma SpliceBlockFixedPoint(value: seq<seq<Scalar>>, transpose: bool, i: nat, j: nat)
    requires Block(value) && InWorking(value, transpose, i, j)
    ensures transpose ==> Oriented(value, transpose)[i][j] == value[j][i]
    ensures SpliceBlock(value, transpose, i, j, Oriented(value, transpose)[i][j]) == value
  {
    if transpose {
      TransposeOfMatrix(value, |value|, |value[0]|);
    }
    var x := Oriented(value, transpose)[i][j];
    MatrixExt(SpliceBlock(value, transpose, i, j, x), value, |value|, |value[0]|);
  }

  /** Seen in the working orientation (the cells' grid), the Cell -> Range
      update changes exactly the element at the cell's own offset `(i, j)`. */
  lemma SpliceBlockWorking(value: seq<seq<Scalar>>, transpose: bool, i: nat, j: nat, x: Scalar)
    requires Block(value) && InWorking(value, transpose, i, j)
    ensures var rows := if transpose then |value[0]| else |value|;
            var cols := if transpose then |value| else |value[0]|;
            var after := Oriented(SpliceBlock(value, transpose, i, j, x), transpose);
            IsMatrix(after, rows, cols) &&
            forall a, b :: 0 <= a < rows && 0 <= b < cols ==>
              after[a][b] == if a == i && b == j then x else Oriented(value, transpose)[a][b]
  {
    if transpose {
      var rows, cols := |value|, |value[0]|;
      var r := SpliceBlock(value, transpose, i, j, x);
      TransposeOfMatrix(value, rows, cols);
      TransposeOfMatrix(r, rows, cols);
      forall a, b | 0 <= a < cols && 0 <= b < rows
        ensures Transpose(r)[a][b] == if a == i && b == j then x else Transpose(value)[a][b]
      {
        assert Transpose(r)[a][b] == r[b][a];
        assert Transpose(value)[a][b] == value[b][a];
      }
    }
  }

  /** The offsets `(i, j)` for `i` in `range(rowStart, rowEnd)` and `j` in
      `range(columnStart, columnEnd)`, in the order two nested loops visit
      them: one run of `width` columns per row. */
  function Positions(rowStart: nat, rowEnd: nat, columnStart: nat, columnEnd: nat): (ps: seq<(nat, nat)>)
    ensures |ps| == (if rowEnd >= rowStart then rowEnd - rowStart else 0) *
                    (if columnEnd >= columnStart then columnEnd - columnStart else 0)
    decreases rowEnd - rowStart
  {
    if rowStart >= rowEnd then []
    else
      var width := if columnEnd >= columnStart then columnEnd - columnStart else 0;
      var tail := Positions(rowStart + 1, rowEnd, columnStart, columnEnd);
      MulStep(rowEnd - rowStart - 1, width);
      seq(width, k requires 0 <= k < width => (rowStart, columnStart + k)) + tail
  }

  /** One more row adds one more run of `width`. */
  lemma MulStep(n: int, width: int)
    ensures (n + 1) * width == width + n * width
  {
  }

  /** A positive multiple of a positive width is at least that width. */
  lemma {:induction false} MulAtLeast(n: int, width: int)
    requires n >= 1 && width > 0
    ensures n * width >= width
    decreases n
  {
    if n > 1 {
      MulAtLeast(n - 1, width);
      MulStep(n - 1, width);
    }
  }

  /** Quotient and remainder are the only such pair: `k == a * width + b`
      with `0 <= b < width` fixes `k / width == a` and `k % width == b`. */
  lemma DivUnique(k: int, width: int, a: int, b: int)
    requires width > 0 && 0 <= b < width && k == a * width + b
    ensures k / width == a && k % width == b
  {
    var q, r := k / width, k % width;
    assert (a - q) * width == r - b by {
      assert (a - q) * width == a * width - q * width;
    }
    if a - q >= 1 {
      MulAtLeast(a - q, width);
    } else if q - a >= 1 {
      MulAtLeast(q - a, width);
    }
  }

  /** Dropping one run of `width` lowers the quotient by one and keeps the remainder. */
  lemma DivStep(k: int, width: int)
    requires 0 < width <= k
    ensures k / width == (k - width) / width + 1 && k % width == (k - width) % width
  {
    var q, r := (k - width) / width, (k - width) % width;
    MulStep(q, width);
    DivUnique(k, width, q + 1, r);
  }

  /** Within the first run the quotient is 0 and the remainder is `k`. */
  lemma DivSmall(k: int, width: int)
    requires 0 <= k < width
    ensures k / width == 0 && k % width == k
  {
    DivUnique(k, width, 0, k);
  }

  /** The nested loops visit the rectangle in row-major order: the `k`-th
      offset is row `k / width`, column `k % width` of the rectangle. */
  lemma {:induction false} PositionsRowMajor(rowStart: nat, rowEnd: nat, columnStart: nat, columnEnd: nat)
    requires columnStart < columnEnd
    ensures forall k :: 0 <= k < |Positions(rowStart, rowEnd, columnStart, columnEnd)| ==>
              Positions(rowStart, rowEnd, columnStart, columnEnd)[k] ==
              (rowStart + k / (columnEnd - columnStart), columnStart + k % (columnEnd - columnStart))
    decreases rowEnd - rowStart
  {
    if rowStart < rowEnd {
      var width := columnEnd - columnStart;
      var tail := Positions(rowStart + 1, rowEnd, columnStart, columnEnd);
      PositionsRowMajor(rowStart + 1, rowEnd, columnStart, columnEnd);
      assert forall j :: 0 <= j < |tail| ==> tail[j] == (rowStart + 1 + j / width, columnStart + j % width);
      var head := seq(width, k requires 0 <= k < width => (rowStart, columnStart + k));
      RowMajorStep(head, tail, rowStart, columnStart, width);
    }
  }

  /** One more row in front of a row-major run keeps it row-major. */
  lemma RowMajorStep(head: seq<(nat, nat)>, tail: seq<(nat, nat)>, rowStart: nat, columnStart: nat, width: nat)
    requires width > 0 && |head| == width
    requires forall k :: 0 <= k < width ==> head[k] == (rowStart, columnStart + k)
    requires forall j :: 0 <= j < |tail| ==> tail[j] == (rowStart + 1 + j / width, columnStart + j % width)
    ensures forall k :: 0 <= k < |head + tail| ==> (head + tail)[k] == (rowStart + k / width, columnStart + k % width)
  {
    forall k | 0 <= k < |head + tail|
      ensures (head + tail)[k] == (rowStart + k / width, columnStart + k % width)
    {
      if k < width {
        DivSmall(k, width);
      } else {
        DivStep(k, width);
        assert (head + tail)[k] == tail[k - width];
      }
    }
  }

  lemma {:induction false} PositionsCover(rowStart: nat, rowEnd: nat, columnStart: nat, columnEnd: nat)
    ensures forall p :: p in Positions(rowStart, rowEnd, columnStart, columnEnd) ==>
              rowStart <= p.0 < rowEnd && columnStart <= p.1 < columnEnd
    ensures forall a: nat, b: nat :: rowStart <= a < rowEnd && columnStart <= b < columnEnd ==>
              (a, b) in Positions(rowStart, rowEnd, columnStart, columnEnd)
    decreases rowEnd - rowStart
  {
    if rowStart < rowEnd {
      PositionsCover(rowStart + 1, rowEnd, columnStart, columnEnd);
      var width := if columnEnd >= columnStart then columnEnd - columnStart else 0;
      var head := seq(width, k requires 0 <= k < width => (rowStart, columnStart + k));
      assert forall p :: p in head ==> p.0 == rowStart && columnStart <= p.1 < columnEnd;
      forall b: nat | columnStart <= b < columnEnd
        ensures (rowStart, b) in Positions(rowStart, rowEnd, columnStart, columnEnd)
      {
        assert head[b - columnStart] == (rowStart, b);
      }
    }
  }

  /** Range -> Cells as a loop over `positions`: each step copies
      `w[i][j]` into the cell grid `cells`; a position outside either grid
      raises `IndexError`, leaving the writes already made in place. */
  function WriteAt(positions: seq<(nat, nat)>, w: seq<seq<Scalar>>, cells: seq<seq<Scalar>>): (r: (seq<seq<Scalar>>, Outcome))
    ensures |r.0| == |cells| && forall i :: 0 <= i < |cells| ==> |r.0[i]| == |cells[i]|
    ensures r.1 == Pass || r.1 == Fail(IndexError)
    ensures r.1 == Pass <==> forall p :: p in positions ==> InGrid(p, w) && InGrid(p, cells)
    ensures forall a, b :: 0 <= a < |cells| && 0 <= b < |cells[a]| ==>
              r.0[a][b] == cells[a][b] || ((a, b) in positions && InGrid((a, b), w) && r.0[a][b] == w[a][b])
    decreases |positions|
  {
    if positions == [] then (cells, Pass)
    else
      var (i, j) := positions[0];
      if i < |w| && j < |w[i]| && i < |cells| && j < |cells[i]| then
        assert positions == [positions[0]] + positions[1..];
        WriteAt(positions[1..], w, cells[i := cells[i][j := w[i][j]]])
      else
        assert positions[0] in positions && !(InGrid(positions[0], w) && InGrid(positions[0], cells));
        (cells, Fail(IndexError))
  }

  /** Writes made before a failure stay: when the first `k + 1` offsets
      are inside both grids, the cell at offset number `k` ends up holding
      the value's element there, whether or not a later offset raises
      `IndexError`. */
  lemma {:induction false} WriteAtKeepsPrefix(positions: seq<(nat, nat)>, w: seq<seq<Scalar>>, cells: seq<seq<Scalar>>, k: nat)
    requires k < |positions|
    requires forall m :: 0 <= m <= k ==> InGrid(positions[m], w) && InGrid(positions[m], cells)
    ensures InGrid(positions[k], WriteAt(positions, w, cells).0)
    ensures WriteAt(positions, w, cells).0[positions[k].0][positions[k].1] == w[positions[k].0][positions[k].1]
    decreases k
  {
    var (i, j) := positions[0];
    assert InGrid(positions[0], w) && InGrid(positions[0], cells);
    var next := cells[i := cells[i][j := w[i][j]]];
    if k > 0 {
      assert forall m :: 0 <= m <= k - 1 ==> positions[1..][m] == positions[m + 1];
      WriteAtKeepsPrefix(positions[1..], w, next, k - 1);
    }
  }

  /** Offset `p` exists in the grid `m`. */
  predicate InGrid<T>(p: (nat, nat), m: seq<seq<T>>)
  {
    p.0 < |m| && p.1 < |m[p.0]|
  }

  /** Over a grid of `w`'s shape and positions inside it, the loop completes
      and leaves `w`'s element at every visited position, the cell's old
      value elsewhere. */
  lemma {:induction false} WriteAtInRange(positions: seq<(nat, nat)>, w: seq<seq<Scalar>>, cells: seq<seq<Scalar>>,
                                          rows: nat, cols: nat)
    requires IsMatrix(w, rows, cols) && IsMatrix(cells, rows, cols)
    requires forall p :: p in positions ==> p.0 < rows && p.1 < cols
    ensures WriteAt(positions, w, cells).1 == Pass
    ensures IsMatrix(WriteAt(positions, w, cells).0, rows, cols)
    ensures forall a, b :: 0 <= a < rows && 0 <= b < cols ==>
              WriteAt(positions, w, cells).0[a][b] == if (a, b) in positions then w[a][b] else cells[a][b]
    decreases |positions|
  {
    if positions != [] {
      var (i, j) := positions[0];
      assert positions[0] in positions;
      var next := cells[i := cells[i][j := w[i][j]]];
      assert forall p :: p in positions[1..] ==> p in positions;
      WriteAtInRange(positions[1..], w, next, rows, cols);
      forall a, b | 0 <= a < rows && 0 <= b < cols
        ensures WriteAt(positions, w, cells).0[a][b] == if (a, b) in positions then w[a][b] else cells[a][b]
      {
        assert (a, b) in positions <==> (a, b) == (i, j) || (a, b) in positions[1..] by {
          assert positions == [positions[0]] + positions[1..];
        }
      }
    }
  }

  /** Range -> Cells for `cell_range` as evidently intended: copy the working
      value `w` into the `rows` x `cols` grid of cells at relative offsets.
      Over a grid of `w`'s shape the loop completes and every cell receives
      its element of the working value, whatever it held. */
  function FanOutBlock(w: seq<seq<Scalar>>, cells: seq<seq<Scalar>>, rows: nat, cols: nat): (r: (seq<seq<Scalar>>, Outcome))
    ensures IsMatrix(w, rows, cols) && IsMatrix(cells, rows, cols) ==> r == (w, Pass)
  {
    var ps := Positions(0, rows, 0, cols);
    if IsMatrix(w, rows, cols) && IsMatrix(cells, rows, cols) then
      PositionsCover(0, rows, 0, cols);
      WriteAtInRange(ps, w, cells, rows, cols);
      MatrixExt(WriteAt(ps, w, cells).0, w, rows, cols);
      WriteAt(ps, w, cells)
    else
      WriteAt(ps, w, cells)
  }

  /** Range -> Cells for `cell_range` as written: the loop runs over the
      absolute sheet indices `range(rowStart, rowStart + rows)` x
      `range(columnStart, columnStart + cols)` but subscripts the grid of
      cells and the working value, which are indexed from 0. For a
      non-empty block it completes exactly when the block sits at the
      sheet's origin, and then copies every element; anywhere else it raises
      `IndexError`. */
  function FanOutBlockAsWritten(w: seq<seq<Scalar>>, cells: seq<seq<Scalar>>, rowStart: nat, columnStart: nat,
                                rows: nat, cols: nat): (r: (seq<seq<Scalar>>, Outcome))
    ensures IsMatrix(w, rows, cols) && IsMatrix(cells, rows, cols) && rows > 0 && cols > 0 ==>
              (r.1 == Pass <==> rowStart == 0 && columnStart == 0)
    ensures IsMatrix(w, rows, cols) && IsMatrix(cells, rows, cols) && rowStart == 0 && columnStart == 0 ==>
              r == (w, Pass)
  {
    var ps := Positions(rowStart, rowStart + rows, columnStart, columnStart + cols);
    if !(IsMatrix(w, rows, cols) && IsMatrix(cells, rows, cols)) then
      WriteAt(ps, w, cells)
    else if rowStart == 0 && columnStart == 0 then
      PositionsCover(0, rows, 0, cols);
      WriteAtInRange(ps, w, cells, rows, cols);
      MatrixExt(WriteAt(ps, w, cells).0, w, rows, cols);
      WriteAt(ps, w, cells)
    else if rows > 0 && cols > 0 then
      OffOriginLeavesGrid(w, rowStart, columnStart, rows, cols);
      WriteAt(ps, w, cells)
    else
      WriteAt(ps, w, cells)
  }

  /** Away from the origin, the absolute offsets of a non-empty block
      include one outside a grid of the block's own shape: the last row when
      the block starts below row 0, the last column otherwise. */
  lemma OffOriginLeavesGrid(w: seq<seq<Scalar>>, rowStart: nat, columnStart: nat, rows: nat, cols: nat)
    requires IsMatrix(w, rows, cols) && rows > 0 && cols > 0 && (rowStart > 0 || columnStart > 0)
    ensures exists p :: p in Positions(rowStart, rowStart + rows, columnStart, columnStart + cols) && !InGrid(p, w)
  {
    PositionsCover(rowStart, rowStart + rows, columnStart, columnStart + cols);
    var ps := Positions(rowStart, rowStart + rows, columnStart, columnStart + cols);
    if rowStart > 0 {
      var p: (nat, nat) := (rowStart + rows - 1, columnStart);
      assert p in ps && !InGrid(p, w);
    } else {
      var p: (nat, nat) := (0, columnStart + cols - 1);
      assert p.1 >= |w[0]|;
      assert p in ps && !InGrid(p, w);
    }
  }

  /** A 1 x 1 block placed at sheet row 1: the loop as written starts with
      `cells[1]`, raises `IndexError` and never updates the one cell, where
      the intended fan-out updates it. */
  lemma FanOutAsWrittenMissesOffsetBlock()
    ensures FanOutBlockAsWritten([[Num(1.0)]], [[Num(0.0)]], 1, 0, 1, 1) == ([[Num(0.0)]], Fail(IndexError))
    ensures FanOutBlock([[Num(1.0)]], [[Num(0.0)]], 1, 1) == ([[Num(1.0)]], Pass)
  {
    assert Positions(1, 2, 0, 1) == [(1, 0)];
  }
}
