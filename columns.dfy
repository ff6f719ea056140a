/** `ColumnPrinter`: lays several multi-line texts side by side, under a header row
    that numbers the columns, with " | " between neighbouring columns. */
module Columns {
  import opened Wrappers
  import opened Text
  import Grids

  /** `row_count`: one more than the most lines any column has, and at least 1. */
  function RowCount(columns: seq<string>): (n: nat)
    ensures n >= 1
    ensures forall i :: 0 <= i < |columns| ==> |SplitLines(columns[i])| + 1 <= n
    ensures n == 1 || exists i :: 0 <= i < |columns| && n == |SplitLines(columns[i])| + 1
  {
    if columns == [] then 1
    else
      var before := RowCount(columns[..|columns| - 1]);
      var here := |SplitLines(columns[|columns| - 1])| + 1;
      if before >= here then before else here
  }

  /** `max(0, j - 1)`: output row `j` shows each column's line `j - 1`; the header row
      (j == 0) measures the column's first line. */
  function LineIndex(j: int): nat
  {
    if j - 1 > 0 then j - 1 else 0
  }

  /** Column `i` has the line that output row `j` looks up. */
  predicate LineFits(columns: seq<string>, i: int, j: int)
    requires 0 <= i < |columns|
  {
    LineIndex(j) < |SplitLines(columns[i])|
  }

  /** Every column has the line that output row `j` looks up. */
  predicate RowFits(columns: seq<string>, j: int)
  {
    forall i :: 0 <= i < |columns| ==> LineFits(columns, i, j)
  }

  /** No lookup fails: `str(printer)` returns instead of raising `IndexError`. */
  predicate Aligned(columns: seq<string>)
  {
    forall j :: 0 <= j < RowCount(columns) ==> RowFits(columns, j)
  }

  /** The header row looks up every column's first line, so an aligned printer has
      no empty column. */
  lemma AlignedColumnsNonEmpty(columns: seq<string>)
    requires Aligned(columns)
    ensures forall i :: 0 <= i < |columns| ==> |SplitLines(columns[i])| > 0
  {
    assert RowFits(columns, 0);
    forall i | 0 <= i < |columns| ensures |SplitLines(columns[i])| > 0 {
      assert LineFits(columns, i, 0);
      assert LineIndex(0) == 0;
    }
  }

  /** What column `i` contributes to output row `j`: in the header, the column number
      centred over the width of the column's first line; below it, the column's
      line `j - 1`. */
  function Cell(columns: seq<string>, i: int, j: int): (c: string)
    requires 0 <= i < |columns| && LineFits(columns, i, j)
    ensures '\n' !in c
    ensures j == 0 ==> |c| == 2 * (|SplitLines(columns[i])[0]| / 2) + |DecimalString(i)|
  {
    var line := SplitLines(columns[i])[LineIndex(j)];
    if j == 0 then
      PaddedAvoidsNewline(|line| / 2, i);
      Spaces(|line| / 2) + DecimalString(i) + Spaces(|line| / 2)
    else
      assert IsLineBreak('\n');
      line
  }

  /** A number padded with spaces holds no "\n". */
  lemma PaddedAvoidsNewline(n: int, i: nat)
    ensures '\n' !in Spaces(n) + DecimalString(i) + Spaces(n)
  {
    var pad, digits := Spaces(n), DecimalString(i);
    var s := pad + digits + pad;
    forall k | 0 <= k < |s| ensures s[k] != '\n' {
      if k < |pad| {
      } else if k < |pad| + |digits| {
        assert s[k] == digits[k - |pad|];
      } else {
        assert s[k] == pad[k - |pad| - |digits|];
      }
    }
  }

  /** The contributions of the first `n` columns to output row `j`. */
  function Cells(columns: seq<string>, j: int, n: nat): (cells: seq<string>)
    requires n <= |columns|
    requires forall i :: 0 <= i < n ==> LineFits(columns, i, j)
  {
    seq(n, i requires 0 <= i < n => Cell(columns, i, j))
  }

  /** One more column's contribution to row `j`, after a separator unless it is the first. */
  lemma CellsStep(columns: seq<string>, j: int, i: nat)
    requires i < |columns|
    requires forall i' :: 0 <= i' <= i ==> LineFits(columns, i', j)
    ensures JoinWith(Cells(columns, j, i + 1), " | ") ==
            JoinWith(Cells(columns, j, i), " | ") + (if i > 0 then " | " else "") + Cell(columns, i, j)
  {
    assert Cells(columns, j, i + 1)[..i] == Cells(columns, j, i);
  }

  /** Output row `j`: the columns' contributions separated by " | ". */
  function LayoutRow(columns: seq<string>, j: int): (row: string)
    requires RowFits(columns, j)
    ensures '\n' !in row
  {
    JoinWithAvoids(Cells(columns, j, |columns|), " | ", '\n');
    JoinWith(Cells(columns, j, |columns|), " | ")
  }

  /** All output rows, header first. */
  function Layout(columns: seq<string>): (layout: seq<string>)
    requires Aligned(columns)
    ensures |layout| == RowCount(columns)
  {
    seq(RowCount(columns), j requires 0 <= j < RowCount(columns) => LayoutRow(columns, j))
  }

  /** The printer raises exactly when the columns disagree: it returns when every
      column has the same, non-zero number of lines (trivially so when there are
      no columns). */
  lemma AlignedIffUniform(columns: seq<string>)
    ensures Aligned(columns) <==>
      forall i :: 0 <= i < |columns| ==>
        |SplitLines(columns[i])| > 0 && |SplitLines(columns[i])| + 1 == RowCount(columns)
  {
    var n := RowCount(columns);
    if Aligned(columns) {
      forall i | 0 <= i < |columns|
        ensures |SplitLines(columns[i])| > 0 && |SplitLines(columns[i])| + 1 == n
      {
        assert RowFits(columns, n - 1);
        assert LineFits(columns, i, n - 1);
      }
    }
    if forall i :: 0 <= i < |columns| ==>
         |SplitLines(columns[i])| > 0 && |SplitLines(columns[i])| + 1 == n {
      forall j | 0 <= j < n ensures RowFits(columns, j) {
        forall i | 0 <= i < |columns| ensures LineFits(columns, i, j) {
        }
      }
    }
  }

  /** The printed text splits on "\n" back into exactly `RowCount` rows, header first. */
  lemma LayoutLines(columns: seq<string>)
    requires Aligned(columns)
    ensures |Layout(columns)| == RowCount(columns)
    ensures SplitOn(JoinWith(Layout(columns), "\n"), '\n') == Layout(columns)
  {
    SplitOnJoinWith(Layout(columns), '\n');
  }

  /** The header the printer puts over `n` grids `width` cells wide: each grid's
      number, with `width / 2` spaces on either side. */
  function HeaderCells(n: nat, width: int): (cells: seq<string>)
  {
    seq(n, k requires 0 <= k < n => Spaces(width / 2) + DecimalString(k) + Spaces(width / 2))
  }

  predicate HasRow(grid: Grids.Rows, y: int)
  {
    0 <= y < |grid|
  }

  /** Row `y` of each grid, as text. */
  function GridRowCells(grids: seq<Grids.Rows>, y: int): (cells: seq<string>)
    requires forall k :: 0 <= k < |grids| ==> HasRow(grids[k], y)
  {
    seq(|grids|, k requires 0 <= k < |grids| && HasRow(grids[k], y) => Grids.RowText(grids[k][y]))
  }

  /** The columns are `str(grid)` of grids of one shape. */
  ghost predicate GridColumns(grids: seq<Grids.Rows>, height: int, width: int, columns: seq<string>)
  {
    |columns| == |grids| &&
    forall k :: 0 <= k < |grids| ==>
      Grids.Shaped(grids[k], height, width) && columns[k] == Grids.Render(grids[k])
  }

  /** Columns that are `str(grid)` of grids of one height H > 0 line up: printing them
      returns, with H + 1 rows. */
  lemma PrintedGridsAligned(grids: seq<Grids.Rows>, height: int, width: int, columns: seq<string>)
    requires height > 0 && |grids| >= 1
    requires GridColumns(grids, height, width, columns)
    ensures Aligned(columns) && RowCount(columns) == height + 1
  {
    forall k | 0 <= k < |grids| ensures |SplitLines(columns[k])| == height {
      Grids.SplitLinesRender(grids[k]);
    }
    assert |SplitLines(columns[0])| == height;
    AlignedIffUniform(columns);
  }

  /** Over grids `width` cells wide (none when `width` is negative), the header row numbers the grids, each number
      centred over its grid. */
  lemma PrintedGridsHeader(grids: seq<Grids.Rows>, height: int, width: int, columns: seq<string>)
    requires height > 0 && |grids| >= 1
    requires GridColumns(grids, height, width, columns)
    ensures RowFits(columns, 0)
    ensures LayoutRow(columns, 0) == JoinWith(HeaderCells(|grids|, Grids.Extent(width)), " | ")
  {
    PrintedGridsAligned(grids, height, width, columns);
    assert RowFits(columns, 0);
    var cells := Cells(columns, 0, |columns|);
    var header := HeaderCells(|grids|, Grids.Extent(width));
    forall k | 0 <= k < |grids| ensures cells[k] == header[k] {
      Grids.SplitLinesRender(grids[k]);
      var line := SplitLines(columns[k])[0];
      assert line == Grids.RowText(grids[k][0]);
      assert |line| == Grids.Extent(width);
      assert cells[k] == Cell(columns, k, 0);
    }
    assert cells == header;
  }

  /** Output row y + 1 shows row y of every grid, side by side. */
  lemma PrintedGridsRow(grids: seq<Grids.Rows>, height: int, width: int, columns: seq<string>, y: int)
    requires height > 0 && |grids| >= 1 && 0 <= y < height
    requires GridColumns(grids, height, width, columns)
    ensures RowFits(columns, y + 1)
    ensures LayoutRow(columns, y + 1) == JoinWith(GridRowCells(grids, y), " | ")
  {
    PrintedGridsAligned(grids, height, width, columns);
    assert RowFits(columns, y + 1);
    var cells := Cells(columns, y + 1, |columns|);
    var texts := GridRowCells(grids, y);
    forall k | 0 <= k < |grids| ensures cells[k] == texts[k] {
      assert SplitLines(columns[k])[y] == Grids.RowText(grids[k][y]) by {
        Grids.SplitLinesRender(grids[k]);
      }
      assert cells[k] == Cell(columns, k, y + 1);
    }
    assert cells == texts;
  }

  /** A column that lacks the line some output row looks up makes the printer raise. */
  lemma Misaligned(columns: seq<string>, i: int, j: int)
    requires 0 <= i < |columns| && 0 <= j < RowCount(columns)
    requires !LineFits(columns, i, j)
    ensures !Aligned(columns)
  {
    assert !RowFits(columns, j);
  }

  /** The output rows before row `j` are filled with their layout rows, and the others
      are still empty. */
  predicate FilledUpTo(columns: seq<string>, rows: seq<string>, j: int)
  {
    |rows| == RowCount(columns) && 0 <= j <= |rows| &&
    (forall j' :: 0 <= j' < j ==> RowFits(columns, j') && rows[j'] == LayoutRow(columns, j')) &&
    (forall j' :: j <= j' < |rows| ==> rows[j'] == "")
  }

  /** Appending layout row `j` to the empty output row `j` fills one more row. */
  lemma FillStep(columns: seq<string>, rows: seq<string>, j: int, text: string)
    requires FilledUpTo(columns, rows, j) && j < |rows|
    requires RowFits(columns, j) && text == LayoutRow(columns, j)
    ensures FilledUpTo(columns, rows[j := rows[j] + text], j + 1)
  {
    assert rows[j] + text == text;
  }

  /** Rows that each equal their layout row are the whole layout. */
  lemma RowsAreLayout(columns: seq<string>, rows: seq<string>)
    requires FilledUpTo(columns, rows, |rows|)
    ensures Aligned(columns) && rows == Layout(columns)
  {
  }

  /** The text one pass over the columns appends to an output row, or the column
      that lacks the line that row looks up. */
  datatype Fill = Filled(text: string) | Raises(column: int)

  /** Python's `ColumnPrinter`. */
  class ColumnPrinter {
    var columns: seq<string>

    /** `ColumnPrinter()`: no columns yet. */
    constructor ()
      ensures columns == []
    {
      columns := [];
    }

    /** `append(data)`: `data` becomes the rightmost column. */
    method Append(data: string)
      modifies this
      ensures columns == old(columns) + [data]
    {
      columns := columns + [data];
    }

    /** The first loop of `str(printer)`: `row_count`, the running maximum of each
        column's line count plus one, starting from 1. */
    method CountRows() returns (rowCount: nat)
      ensures rowCount == RowCount(columns)
    {
      rowCount := 1;
      for k := 0 to |columns|
        invariant rowCount == RowCount(columns[..k])
      {
        assert columns[..k + 1][..k] == columns[..k];
        var here := |SplitLines(columns[k])| + 1;
        rowCount := if rowCount >= here then rowCount else here;
      }
      assert columns[..|columns|] == columns;
    }

    /** The inner loop of `str(printer)`: what it appends to output row `j`, column by
        column, or the column whose line lookup raises `IndexError`. */
    method FillRow(j: int) returns (row: Fill)
      requires j >= 0
      ensures row.Raises? ==> 0 <= row.column < |columns| && !LineFits(columns, row.column, j)
      ensures row.Filled? <==> RowFits(columns, j)
      ensures row.Filled? ==> row.text == LayoutRow(columns, j)
    {
      var text := "";
      for i := 0 to |columns|
        invariant forall i' :: 0 <= i' < i ==> LineFits(columns, i', j)
        invariant text == JoinWith(Cells(columns, j, i), " | ") + (if 0 < i < |columns| then " | " else "")
      {
        var lines := SplitLines(columns[i]);
        var index := if j - 1 > 0 then j - 1 else 0;
        if index >= |lines| {
          return Raises(i);
        }
        assert LineFits(columns, i, j);
        var line := lines[index];
        CellsStep(columns, j, i);
        if j == 0 {
          var padding := Spaces(|line| / 2);
          text := text + (padding + DecimalString(i) + padding);
        } else {
          text := text + line;
        }
        if i + 1 < |columns| {
          text := text + " | ";
        }
      }
      return Filled(text);
    }

    /** The outer loop of `str(printer)`: the `row_count` output rows, filled one
        after another, or `None` when a line lookup raises `IndexError`. */
    method LayoutRows(rowCount: nat) returns (rows: Option<seq<string>>)
      requires rowCount == RowCount(columns)
      ensures rows.Some? <==> Aligned(columns)
      ensures rows.Some? ==> rows.value == Layout(columns)
    {
      var filled := seq(rowCount, _ => "");
      for j := 0 to rowCount
        invariant FilledUpTo(columns, filled, j)
      {
        var row := FillRow(j);
        if row.Raises? {
          Misaligned(columns, row.column, j);
          return None;
        }
        FillStep(columns, filled, j, row.text);
        filled := filled[j := filled[j] + row.text];
      }
      RowsAreLayout(columns, filled);
      rows := Some(filled);
    }

    /** `str(printer)`: the rows joined by "\n"; `None` stands for the `IndexError`
        raised when a column lacks a line. */
    method ToString() returns (text: Option<string>)
      ensures text.Some? <==> Aligned(columns)
      ensures text.Some? ==> text.value == JoinWith(Layout(columns), "\n")
    {
      var rowCount := CountRows();
      var rows := LayoutRows(rowCount);
      if rows.None? {
        return None;
      }
      text := Some(JoinWith(rows.value, "\n"));
    }
  }
}
