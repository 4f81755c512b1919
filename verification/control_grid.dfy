/**
 * The control grid as the control table shows it (`CreateControlTable` in
 * main.go): the table is as wide as the longest row, and a cell beyond the end
 * of a short row reads as the empty string. Rows are never padded in storage.
 */
module ControlGrid {
  import opened Common

  /**
   * The table's Length callback: (0, 0) for an empty grid, otherwise the row
   * count and the length of the longest row.
   */
  method Dimensions(grid: Grid) returns (rows: nat, cols: nat)
    ensures rows == |grid|
    ensures |grid| == 0 ==> cols == 0
    ensures forall i :: 0 <= i < |grid| ==> |grid[i]| <= cols
    ensures |grid| > 0 ==> exists i :: 0 <= i < |grid| && |grid[i]| == cols
  {
    rows := |grid|;
    if rows == 0 {
      return 0, 0;
    }
    cols := 0;
    var rowIndex := 0;
    while rowIndex < |grid|
      invariant 0 <= rowIndex <= |grid|
      invariant forall i :: 0 <= i < rowIndex ==> |grid[i]| <= cols
      invariant rowIndex > 0 ==> exists i :: 0 <= i < rowIndex && |grid[i]| == cols
      invariant rowIndex == 0 ==> cols == 0
    {
      var rowLen := |grid[rowIndex]|;
      if rowLen > cols {
        cols := rowLen;
      }
      rowIndex := rowIndex + 1;
    }
  }

  /** The table's UpdateCell callback: the stored text, or "" past the end of a short row. */
  function CellText(grid: Grid, row: int, col: int): (text: string)
    requires 0 <= row < |grid| && 0 <= col
    ensures col < |grid[row]| ==> text == grid[row][col]
    ensures col >= |grid[row]| ==> text == ""
  {
    if |grid[row]| > col then grid[row][col] else ""
  }

  /**
   * Reading the grid back through the view loses nothing: the cells the view
   * shows in row `row` (every column below the table width, padding included)
   * are exactly the stored row followed by empty strings.
   */
  lemma ViewOfRowIsPaddedRow(grid: Grid, row: int, width: nat)
    requires 0 <= row < |grid| && |grid[row]| <= width
    ensures seq(width, c requires 0 <= c < width => CellText(grid, row, c))
         == grid[row] + seq(width - |grid[row]|, _ => "")
  {
    var shown := seq(width, c requires 0 <= c < width => CellText(grid, row, c));
    var padded := grid[row] + seq(width - |grid[row]|, _ => "");
    forall c | 0 <= c < width
      ensures shown[c] == padded[c]
    {
      if c >= |grid[row]| {
        assert padded[c] == seq(width - |grid[row]|, _ => "")[c - |grid[row]|];
      }
    }
  }
}
