/** The shape and bounds validation `row`, `column` and `cell_range` perform
    before they build anything. */
module Checks {
  import opened Outcomes
  import opened Scalars
  import opened Matrix

  /** The declared size of the sheet that is current when a range is built. */
  datatype Extent = Extent(rows: int, columns: int)

  /** `row` lays its values out along a sheet row (its cells differ in
      column); `column` lays them out down a sheet column. */
  datatype Axis = AlongRow | AlongColumn

  const RowLengthMessage := "length or array doesn't match number of rows"
  const ColumnLengthMessage := "length or array doesn't match number of columns"
  const TooManyRowsMessage := "array will go outside of sheet, too many rows"
  const TooManyColumnsMessage := "array will go outside of sheet, too many columns"
  const ZeroRowsMessage := "0 rows not supported"
  const ZeroColumnsMessage := "0 columns not supported"
  const IrregularMessage := "not a regular matrix, columns lengths differ"

  /** How many cells the sheet offers along `axis`. */
  function Span(axis: Axis, e: Extent): (n: int)
  {
    if axis == AlongRow then e.columns else e.rows
  }

  /** The checks of `row` and `column`: the span `end - start` (by default
      the value's length) must equal the value's length, and the value must
      fit in the current sheet along its own axis. The other axis is not
      checked and an empty value is accepted. Without a current sheet the
      bounds check dereferences `None`. */
  function CheckLine(axis: Axis, len: nat, start: nat, end: Option<int>, sheet: Option<Extent>): (r: Outcome)
    ensures r == Pass <==>
              (end.None? || end.value == start + len) &&
              sheet.Some? && start + len <= Span(axis, sheet.value)
    ensures end.Some? && end.value != start + len ==>
              r == Fail(ValueError(if axis == AlongRow then ColumnLengthMessage else RowLengthMessage))
    ensures (end.None? || end.value == start + len) && sheet.None? ==> r == Fail(AttributeError)
    ensures (end.None? || end.value == start + len) && sheet.Some? && start + len > Span(axis, sheet.value) ==>
              r == Fail(ValueError(if axis == AlongRow then TooManyColumnsMessage else TooManyRowsMessage))
  {
    var stop := if end.Some? then end.value else start + len;
    var length := stop - start;
    if length != len then
      Fail(ValueError(if axis == AlongRow then ColumnLengthMessage else RowLengthMessage))
    else if sheet.None? then
      Fail(AttributeError)
    else if start + length > Span(axis, sheet.value) then
      Fail(ValueError(if axis == AlongRow then TooManyColumnsMessage else TooManyRowsMessage))
    else
      Pass
  }

  /** A zero-length line is accepted wherever its start lies inside the
      sheet (or just past its last cell). */
  lemma EmptyLineAccepted(axis: Axis, start: nat, e: Extent)
    requires start <= Span(axis, e)
    ensures CheckLine(axis, 0, start, None, Some(e)) == Pass
  {
  }

  /** The number of columns the block will have: `end - start`, with the
      end defaulting to `start` plus the first working row's length. */
  function ColumnLength(w: seq<seq<Scalar>>, columnStart: nat, columnEnd: Option<int>): (n: int)
    requires |w| > 0
  {
    (if columnEnd.Some? then columnEnd.value else columnStart + |w[0]|) - columnStart
  }

  /** The row checks of `cell_range` pass: the row span matches the
      working value and is not empty. */
  predicate RowsOk(w: seq<seq<Scalar>>, rowStart: nat, rowEnd: Option<int>)
  {
    |w| > 0 && (rowEnd.None? || rowEnd.value == rowStart + |w|)
  }

  /** All shape checks of `cell_range` pass: rows as above, a non-zero
      column span that every working row matches. */
  predicate ShapeOk(w: seq<seq<Scalar>>, rowStart: nat, columnStart: nat, rowEnd: Option<int>, columnEnd: Option<int>)
  {
    RowsOk(w, rowStart, rowEnd) && ColumnLength(w, columnStart, columnEnd) != 0 &&
    IsMatrix(w, |w|, ColumnLength(w, columnStart, columnEnd))
  }

  /** The checks of `cell_range`, as written, on the working value
      `w = T(value)` (transposed when `transpose` is set), in the source's
      order. On success the result is that working value. */
  function CheckBlockAsWritten(value: seq<seq<Scalar>>, rowStart: nat, columnStart: nat,
                               rowEnd: Option<int>, columnEnd: Option<int>, transpose: bool,
                               sheet: Option<Extent>): (r: Result<seq<seq<Scalar>>>)
    ensures var w := Oriented(value, transpose);
            r.Ok? <==>
              |w| > 0 && (rowEnd.None? || rowEnd.value == rowStart + |w|) &&
              ColumnLength(w, columnStart, columnEnd) != 0 &&
              IsMatrix(w, |w|, ColumnLength(w, columnStart, columnEnd)) &&
              sheet.Some? && rowStart + |w| <= sheet.value.rows &&
              columnStart + ColumnLength(w, columnStart, columnEnd) <= sheet.value.columns
    ensures r.Ok? ==> r.value == Oriented(value, transpose) && |r.value| > 0 &&
                      IsMatrix(r.value, |r.value|, |r.value[0]|) && |r.value[0]| > 0 &&
                      (columnEnd.None? || columnEnd.value == columnStart + |r.value[0]|)
    ensures var w := Oriented(value, transpose);
            rowEnd.Some? && rowEnd.value != rowStart + |w| ==> r == Err(ValueError(RowLengthMessage))
    ensures var w := Oriented(value, transpose);
            (rowEnd.None? || rowEnd.value == rowStart) && |w| == 0 ==> r == Err(ValueError(ZeroRowsMessage))
    ensures var w := Oriented(value, transpose);
            RowsOk(w, rowStart, rowEnd) && ColumnLength(w, columnStart, columnEnd) == 0 ==>
              r == Err(ValueError(ZeroColumnsMessage))
    ensures var w := Oriented(value, transpose);
            RowsOk(w, rowStart, rowEnd) && ColumnLength(w, columnStart, columnEnd) != 0 &&
            !IsMatrix(w, |w|, ColumnLength(w, columnStart, columnEnd)) ==>
              r == Err(ValueError(IrregularMessage))
    ensures var w := Oriented(value, transpose);
            ShapeOk(w, rowStart, columnStart, rowEnd, columnEnd) && sheet.None? ==> r == Err(AttributeError)
    ensures var w := Oriented(value, transpose);
            ShapeOk(w, rowStart, columnStart, rowEnd, columnEnd) && sheet.Some? && rowStart + |w| > sheet.value.rows ==>
              r == Err(ValueError(TooManyRowsMessage))
    ensures var w := Oriented(value, transpose);
            ShapeOk(w, rowStart, columnStart, rowEnd, columnEnd) && sheet.Some? && rowStart + |w| <= sheet.value.rows &&
            columnStart + ColumnLength(w, columnStart, columnEnd) > sheet.value.columns ==>
              r == Err(ValueError(TooManyColumnsMessage))
  {
    var w := Oriented(value, transpose);
    var stop := if rowEnd.Some? then rowEnd.value else rowStart + |w|;
    var rowLength := stop - rowStart;
    if rowLength != |w| then
      Err(ValueError(RowLengthMessage))
    else if rowLength == 0 then
      Err(ValueError(ZeroRowsMessage))
    else
      var columnLength := ColumnLength(w, columnStart, columnEnd);
      if columnLength == 0 then
        Err(ValueError(ZeroColumnsMessage))
      else if exists i :: 0 <= i < |w| && |w[i]| != columnLength then
        Err(ValueError(IrregularMessage))
      else if sheet.None? then
        Err(AttributeError)
      else if rowStart + rowLength > sheet.value.rows then
        Err(ValueError(TooManyRowsMessage))
      else if columnStart + columnLength > sheet.value.columns then
        Err(ValueError(TooManyColumnsMessage))
      else
        Ok(w)
  }

  /** Every row of `m` has the length of the first. */
  predicate Regular(m: seq<seq<Scalar>>)
  {
    |m| == 0 || IsMatrix(m, |m|, |m[0]|)
  }

  /** The checks of `cell_range` as evidently intended: a ragged value is
      refused also when it is to be transposed, instead of being cut to its
      shortest row by the transposition. */
  function CheckBlock(value: seq<seq<Scalar>>, rowStart: nat, columnStart: nat,
                      rowEnd: Option<int>, columnEnd: Option<int>, transpose: bool,
                      sheet: Option<Extent>): (r: Result<seq<seq<Scalar>>>)
    ensures !transpose || Regular(value) ==>
              r == CheckBlockAsWritten(value, rowStart, columnStart, rowEnd, columnEnd, transpose, sheet)
    ensures transpose && !Regular(value) ==> r == Err(ValueError(IrregularMessage))
  {
    if transpose && !Regular(value) then Err(ValueError(IrregularMessage))
    else CheckBlockAsWritten(value, rowStart, columnStart, rowEnd, columnEnd, transpose, sheet)
  }

  /** What a block accepted by `CheckBlock` satisfies: the working value is a
      non-empty rectangle that fits in the sheet at the requested offset, and
      turning it back to the caller's orientation (the value the new range
      stores) gives exactly the caller's input. */
  lemma AcceptedBlockRoundTrip(value: seq<seq<Scalar>>, rowStart: nat, columnStart: nat,
                               rowEnd: Option<int>, columnEnd: Option<int>, transpose: bool,
                               sheet: Option<Extent>)
    requires CheckBlock(value, rowStart, columnStart, rowEnd, columnEnd, transpose, sheet).Ok?
    ensures var w := CheckBlock(value, rowStart, columnStart, rowEnd, columnEnd, transpose, sheet).value;
            |w| > 0 && |w[0]| > 0 && IsMatrix(w, |w|, |w[0]|) &&
            sheet.Some? && rowStart + |w| <= sheet.value.rows && columnStart + |w[0]| <= sheet.value.columns &&
            Oriented(w, transpose) == value
  {
    var w := CheckBlock(value, rowStart, columnStart, rowEnd, columnEnd, transpose, sheet).value;
    if transpose {
      assert |value| == 0 ==> Transpose(value) == [];
      assert IsMatrix(value, |value|, |value[0]|);
      TransposeOfMatrix(value, |value|, |value[0]|);
      TransposeInvolutive(value, |value|, |value[0]|);
    }
  }

  /** As written, a ragged value with `transpose` set passes every check:
      `[[1, 2], [3]]` is cut to `[[1, 3]]`, and the range then stores
      `[[1], [3]]`, not the caller's value. */
  lemma RaggedTransposedBlockAccepted()
    ensures var value := [[Num(1.0), Num(2.0)], [Num(3.0)]];
            var r := CheckBlockAsWritten(value, 0, 0, None, None, true, Some(Extent(5, 5)));
            r == Ok([[Num(1.0), Num(3.0)]]) && Oriented(r.value, true) == [[Num(1.0)], [Num(3.0)]] &&
            Oriented(r.value, true) != value
  {
    var value := [[Num(1.0), Num(2.0)], [Num(3.0)]];
    assert MinLen(value) == 1 by {
      assert MinLen(value[1..]) == 1;
    }
    var w := Transpose(value);
    assert |w| == 1 && |w[0]| == 2;
    assert w[0][0] == Num(1.0) && w[0][1] == Num(3.0);
    assert w[0] == [Num(1.0), Num(3.0)];
    assert w == [[Num(1.0), Num(3.0)]];
    var back := Transpose(w);
    assert MinLen(w) == 2;
    assert |back| == 2 && |back[0]| == 1 && |back[1]| == 1;
    assert back[0][0] == Num(1.0) && back[1][0] == Num(3.0);
    assert back[0] == [Num(1.0)] && back[1] == [Num(3.0)];
    assert back == [[Num(1.0)], [Num(3.0)]];
  }

  /** The corrected check refuses that same ragged value. */
  lemma RaggedTransposedBlockRefused()
    ensures CheckBlock([[Num(1.0), Num(2.0)], [Num(3.0)]], 0, 0, None, None, true, Some(Extent(5, 5)))
            == Err(ValueError(IrregularMessage))
  {
  }
}
