/** Lists of lists as the layer uses them: rectangular shapes, the
    zip-based transposition `_transpose`, and row-major flattening. */
module Matrix {

  /** `m` has `rows` rows of exactly `cols` elements each. */
  predicate IsMatrix<T>(m: seq<seq<T>>, rows: int, cols: int)
  {
    |m| == rows && forall i :: 0 <= i < |m| ==> |m[i]| == cols
  }

  /** The length of the shortest row of a non-empty list of rows, which is
      the number of tuples `zip(*m)` produces. */
  function MinLen<T>(m: seq<seq<T>>): (n: nat)
    requires |m| > 0
    ensures forall i :: 0 <= i < |m| ==> n <= |m[i]|
    ensures exists i :: 0 <= i < |m| && n == |m[i]|
    decreases |m|
  {
    if |m| == 1 then |m[0]|
    else
      var rest := MinLen(m[1..]);
      if |m[0]| <= rest then |m[0]| else rest
  }

  /** `[list(k) for k in zip(*m)]`: row `j` of the result collects element `j`
      of every row of `m`; rows longer than the shortest one are cut off, and
      an empty `m` gives an empty result. */
  function Transpose<T>(m: seq<seq<T>>): (r: seq<seq<T>>)
    ensures |m| == 0 ==> r == []
    ensures |m| > 0 ==> |r| == MinLen(m) && forall i :: 0 <= i < |m| ==> |r| <= |m[i]|
    ensures forall j :: 0 <= j < |r| ==> |r[j]| == |m|
    ensures forall j, i {:trigger r[j][i]} :: 0 <= j < |r| && 0 <= i < |m| ==> j < |m[i]| && r[j][i] == m[i][j]
  {
    if |m| == 0 then []
    else
      var n := MinLen(m);
      seq(n, j requires 0 <= j < n => seq(|m|, i requires 0 <= i < |m| => m[i][j]))
  }

  /** The working orientation of a block: transposed or as given. */
  function Oriented<T>(m: seq<seq<T>>, transpose: bool): (r: seq<seq<T>>)
    ensures !transpose ==> r == m
    ensures transpose ==> forall j, i {:trigger r[j][i]} :: 0 <= j < |r| && 0 <= i < |m| ==> |r[j]| == |m| && j < |m[i]| && r[j][i] == m[i][j]
  {
    if transpose then Transpose(m) else m
  }

  /** Two matrices of one shape that agree element by element are equal. */
  lemma MatrixExt<T>(x: seq<seq<T>>, y: seq<seq<T>>, rows: int, cols: int)
    requires IsMatrix(x, rows, cols) && IsMatrix(y, rows, cols)
    requires forall a, b :: 0 <= a < rows && 0 <= b < cols ==> x[a][b] == y[a][b]
    ensures x == y
  {
    forall a | 0 <= a < rows
      ensures x[a] == y[a]
    {
      assert forall b :: 0 <= b < cols ==> x[a][b] == y[a][b];
    }
  }

  /** Transposing a `rows` x `cols` matrix with at least one row gives a
      `cols` x `rows` matrix whose element `[j][i]` is element `[i][j]` of the
      input: nothing is cut off. */
  lemma TransposeOfMatrix<T>(m: seq<seq<T>>, rows: int, cols: int)
    requires IsMatrix(m, rows, cols) && rows > 0
    ensures IsMatrix(Transpose(m), cols, rows)
    ensures forall j, i :: 0 <= j < cols && 0 <= i < rows ==> Transpose(m)[j][i] == m[i][j]
  {
  }

  /** Transposing a non-empty rectangular matrix twice gives it back. */
  lemma TransposeInvolutive<T>(m: seq<seq<T>>, rows: int, cols: int)
    requires IsMatrix(m, rows, cols) && rows > 0 && cols > 0
    ensures Transpose(Transpose(m)) == m
  {
    TransposeOfMatrix(m, rows, cols);
    TransposeOfMatrix(Transpose(m), cols, rows);
    MatrixExt(Transpose(Transpose(m)), m, rows, cols);
  }

  /** With no column, transposing loses every row: the round trip fails. */
  lemma TransposeDropsEmptyRows<T>(m: seq<seq<T>>, rows: int)
    requires IsMatrix(m, rows, 0) && rows > 0
    ensures Transpose(Transpose(m)) == []
  {
  }

  /** A block stored in the caller's orientation (`cols` x `rows` when
      transposed) has a `rows` x `cols` working orientation, whose element
      `[i][j]` is the stored `[j][i]` when transposed, and turning the working
      value back gives the stored one. */
  lemma OrientedShape<T>(m: seq<seq<T>>, transpose: bool, rows: int, cols: int)
    requires rows > 0 && cols > 0
    requires if transpose then IsMatrix(m, cols, rows) else IsMatrix(m, rows, cols)
    ensures IsMatrix(Oriented(m, transpose), rows, cols)
    ensures transpose ==> forall i, j :: 0 <= i < rows && 0 <= j < cols ==> Oriented(m, transpose)[i][j] == m[j][i]
    ensures Oriented(Oriented(m, transpose), transpose) == m
  {
    if transpose {
      TransposeOfMatrix(m, cols, rows);
      TransposeInvolutive(m, cols, rows);
    }
  }

  /** The rows of `m` concatenated in order (row-major order). */
  function Flatten<T>(m: seq<seq<T>>): (flat: seq<T>)
  {
    if m == [] then [] else Flatten(m[..|m| - 1]) + m[|m| - 1]
  }

  lemma FlattenSnoc<T>(m: seq<seq<T>>, row: seq<T>)
    ensures Flatten(m + [row]) == Flatten(m) + row
  {
  }
}
