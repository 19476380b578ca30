/**
 * The memory layout every 2D buffer of the program shares (the Image pixel
 * map, the filter kernel and the kernel's temporary copy): one contiguous
 * block of `rows * stride` cells, plus a table of row pointers in which row
 * `i` starts `stride` cells after row `i - 1`.  Cell `(row, col)` is therefore
 * element `row * stride + col` of the block.
 */
module Layout {

  /** Position of cell `(row, col)` in a row-major block of `stride` cells per row. */
  function Cell(stride: nat, row: nat, col: nat): nat
  {
    row * stride + col
  }

  lemma MulMonotone(a: nat, b: nat, k: nat)
    requires a <= b
    ensures a * k <= b * k
  {
  }

  /** Every in-range cell lies inside the block. */
  lemma CellInBlock(rows: nat, stride: nat, row: nat, col: nat)
    requires row < rows && col < stride
    ensures Cell(stride, row, col) < rows * stride
  {
    MulMonotone(row + 1, rows, stride);
  }

  /** A whole row lies inside the block: the cell after its last one is at most the block's end. */
  lemma RowInBlock(rows: nat, stride: nat, row: nat)
    requires row < rows
    ensures Cell(stride, row, stride) <= rows * stride
  {
    MulMonotone(row + 1, rows, stride);
  }

  /** The cell after the last one of a row is the first cell of the next row. */
  lemma NextRow(stride: nat, row: nat)
    ensures Cell(stride, row, stride) == Cell(stride, row + 1, 0)
  {
  }

  /** Distinct cells occupy distinct positions of the block. */
  lemma CellInjective(stride: nat, row1: nat, col1: nat, row2: nat, col2: nat)
    requires col1 < stride && col2 < stride
    requires Cell(stride, row1, col1) == Cell(stride, row2, col2)
    ensures row1 == row2 && col1 == col2
  {
    if row1 < row2 {
      MulMonotone(row1 + 1, row2, stride);
    } else if row2 < row1 {
      MulMonotone(row2 + 1, row1, stride);
    }
  }

  /** Every position of the block belongs to some cell, so cells and positions correspond one to one. */
  lemma CellCovers(rows: nat, stride: nat, k: nat)
    requires k < rows * stride
    ensures exists row: nat, col: nat :: row < rows && col < stride && Cell(stride, row, col) == k
  {
    var row, col := k / stride, k % stride;
    if row >= rows {
      MulMonotone(rows, row, stride);
    }
    assert Cell(stride, row, col) == k;
  }

  /**
   * Builds the row-pointer table of a `rows` x `stride` buffer as the program
   * does: row 0 starts at the beginning of the block and each following row
   * `stride` cells after the previous one.  The table holds offsets into the
   * block.  The program writes entry 0 unconditionally, so it needs at least
   * one row.
   */
  method RowTable(rows: nat, stride: nat) returns (table: array<nat>)
    requires rows > 0
    ensures fresh(table) && table.Length == rows
    ensures forall i :: 0 <= i < rows ==> table[i] == Cell(stride, i, 0)
  {
    table := new nat[rows];
    table[0] := 0;
    var i := 1;
    while i < rows
      invariant 1 <= i <= rows
      invariant forall j :: 0 <= j < i ==> table[j] == Cell(stride, j, 0)
    {
      table[i] := table[i - 1] + stride;
      i := i + 1;
    }
  }

  /**
   * The rows of a block of `stride` cells per row, in reverse order: the last
   * row comes first and the first row last, each row keeping its own order.
   */
  function MirrorRows<T>(s: seq<T>, stride: nat): (r: seq<T>)
    ensures |r| == |s|
    decreases |s|
  {
    if stride == 0 || |s| <= stride then s
    else MirrorRows(s[stride..], stride) + s[..stride]
  }

  /** In a block of `rows` rows, cell `(row, col)` of the mirror is cell `(rows-1-row, col)` of the block. */
  lemma {:induction false} MirrorRowsCell<T>(s: seq<T>, rows: nat, stride: nat, row: nat, col: nat)
    requires |s| == rows * stride && row < rows && col < stride
    ensures Cell(stride, row, col) < |s| && Cell(stride, rows - 1 - row, col) < |s|
    ensures MirrorRows(s, stride)[Cell(stride, row, col)] == s[Cell(stride, rows - 1 - row, col)]
  {
    CellInBlock(rows, stride, row, col);
    CellInBlock(rows, stride, rows - 1 - row, col);
    if rows > 1 {
      MulMonotone(2, rows, stride);
      var rest := s[stride..];
      assert |rest| == (rows - 1) * stride;
      assert MirrorRows(s, stride) == MirrorRows(rest, stride) + s[..stride];
      if row < rows - 1 {
        MirrorRowsCell(rest, rows - 1, stride, row, col);
        CellInBlock(rows - 1, stride, row, col);
        assert rest[Cell(stride, rows - 2 - row, col)] == s[Cell(stride, rows - 1 - row, col)];
      } else {
        assert Cell(stride, row, col) == |rest| + col;
      }
    }
  }

  /** Mirroring the rows twice gives back the block. */
  lemma MirrorRowsTwice<T>(s: seq<T>, rows: nat, stride: nat)
    requires |s| == rows * stride
    ensures MirrorRows(MirrorRows(s, stride), stride) == s
  {
    var m := MirrorRows(s, stride);
    forall k | 0 <= k < |s|
      ensures MirrorRows(m, stride)[k] == s[k]
    {
      CellCovers(rows, stride, k);
      var row: nat, col: nat :| row < rows && col < stride && Cell(stride, row, col) == k;
      MirrorRowsCell(m, rows, stride, row, col);
      MirrorRowsCell(s, rows, stride, rows - 1 - row, col);
    }
  }
}
