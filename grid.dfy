/**
 * The remote sheet replaced by an in-memory grid of text cells: a table
 * is the list of rows a read of the whole tab returns, each row the list
 * of its cells from column A on. A cell past the end of its row, or a row
 * past the end of the table, reads as the empty string.
 *
 * A write of a range extends the table and the row as needed; a clear
 * blanks the cells of a range and never changes the number of rows.
 */
module Grid {

  type Row = seq<string>
  type Table = seq<Row>

  function Max(a: nat, b: nat): nat {
    if a < b then b else a
  }

  /** The text of column `col` (0 is column A) of a row. */
  function Cell(row: Row, col: nat): string {
    if col < |row| then row[col] else ""
  }

  /** The text of the cell at 0-based row `r` and column `c` of a table. */
  function CellAt(t: Table, r: nat, c: nat): string {
    if r < |t| then Cell(t[r], c) else ""
  }

  function Blank(n: nat): (cells: seq<string>)
    ensures |cells| == n
    ensures forall i :: 0 <= i < n ==> cells[i] == ""
  {
    seq(n, _ => "")
  }

  /** Two rows with the same length and the same cells are the same row. */
  lemma RowsEqualByCells(a: Row, b: Row)
    requires |a| == |b|
    requires forall c: nat :: Cell(a, c) == Cell(b, c)
    ensures a == b
  {
    forall i | 0 <= i < |a| ensures a[i] == b[i] {
      assert Cell(a, i) == Cell(b, i);
    }
  }

  /** A row with `cells` written from column `col` on. */
  function SetCells(row: Row, col: nat, cells: seq<string>): (r: Row)
    ensures |r| == Max(|row|, col + |cells|)
    ensures forall c: nat :: Cell(r, c) == if col <= c < col + |cells| then cells[c - col] else Cell(row, c)
  {
    seq(Max(|row|, col + |cells|),
        c requires 0 <= c => if col <= c < col + |cells| then cells[c - col] else Cell(row, c))
  }

  /**
   * Writing `cells` to the range that starts at column `col` of the
   * 1-based row `rowNumber`: exactly those cells change.
   */
  function WriteRange(t: Table, rowNumber: nat, col: nat, cells: seq<string>): (r: Table)
    requires rowNumber >= 1
    ensures |r| == Max(|t|, rowNumber)
    ensures forall k :: 0 <= k < |r| && k != rowNumber - 1 ==> r[k] == (if k < |t| then t[k] else [])
    ensures r[rowNumber - 1] == SetCells(if rowNumber - 1 < |t| then t[rowNumber - 1] else [], col, cells)
    ensures forall k: nat, c: nat ::
      CellAt(r, k, c) == if k == rowNumber - 1 && col <= c < col + |cells| then cells[c - col] else CellAt(t, k, c)
  {
    var target := if rowNumber - 1 < |t| then t[rowNumber - 1] else [];
    var padded := t + seq(Max(|t|, rowNumber) - |t|, _ => []);
    padded[rowNumber - 1 := SetCells(target, col, cells)]
  }

  /**
   * Clearing `count` cells of the 1-based row `rowNumber` from column `col`
   * on: those cells read as empty afterwards, the number of rows is kept.
   */
  function ClearRange(t: Table, rowNumber: nat, col: nat, count: nat): (r: Table)
    requires rowNumber >= 1
    ensures |r| == |t|
    ensures forall k :: 0 <= k < |t| && k != rowNumber - 1 ==> r[k] == t[k]
    ensures rowNumber - 1 < |t| ==> r[rowNumber - 1] == SetCells(t[rowNumber - 1], col, Blank(count))
    ensures forall k: nat, c: nat ::
      CellAt(r, k, c) == if k == rowNumber - 1 && col <= c < col + count then "" else CellAt(t, k, c)
  {
    if rowNumber - 1 < |t| then t[rowNumber - 1 := SetCells(t[rowNumber - 1], col, Blank(count))] else t
  }

  lemma {:induction false} SetCellsAdjacent(row: Row, col: nat, a: seq<string>, b: seq<string>)
    ensures SetCells(SetCells(row, col, a), col + |a|, b) == SetCells(row, col, a + b)
  {
    var lhs, rhs := SetCells(SetCells(row, col, a), col + |a|, b), SetCells(row, col, a + b);
    forall c: nat ensures Cell(lhs, c) == Cell(rhs, c) {
      if col <= c < col + |a| {
        assert (a + b)[c - col] == a[c - col];
      } else if col + |a| <= c < col + |a| + |b| {
        assert (a + b)[c - col] == b[c - col - |a|];
      }
    }
    RowsEqualByCells(lhs, rhs);
  }

  /**
   * Two writes to adjacent ranges of one row are one write of the joined
   * range: the separate single-cell writes of a status update leave the
   * sheet as a single write of the four cells would.
   */
  lemma {:induction false} WriteRangeAdjacent(t: Table, rowNumber: nat, col: nat, a: seq<string>, b: seq<string>)
    requires rowNumber >= 1
    ensures WriteRange(WriteRange(t, rowNumber, col, a), rowNumber, col + |a|, b) == WriteRange(t, rowNumber, col, a + b)
  {
    var once := WriteRange(t, rowNumber, col, a);
    var lhs, rhs := WriteRange(once, rowNumber, col + |a|, b), WriteRange(t, rowNumber, col, a + b);
    forall k | 0 <= k < |lhs| ensures lhs[k] == rhs[k] {
      if k == rowNumber - 1 {
        SetCellsAdjacent(if k < |t| then t[k] else [], col, a, b);
      }
    }
  }

  /** Writing a row from column A just below the last row appends it. */
  lemma AppendRow(t: Table, cells: Row)
    ensures WriteRange(t, |t| + 1, 0, cells) == t + [cells]
  {
    var r := WriteRange(t, |t| + 1, 0, cells);
    RowsEqualByCells(r[|t|], cells);
    assert r == t + [cells];
  }
}
