/** The usual definition of a solved Sudoku, on a 9x9 grid stored row by row.
  * It is independent of how the app stores its board and serves as the
  * reference against which the app's validator is proved. */
module Sudoku {
  import opened Digits

  /** Nine rows of nine values; `grid[r][c]` is row r, column c. */
  predicate IsGrid(grid: seq<seq<int>>)
  {
    |grid| == 9 && forall r :: 0 <= r < 9 ==> |grid[r]| == 9
  }

  /** Column `c` of the grid, top to bottom. */
  function Column(grid: seq<seq<int>>, c: int): (col: seq<int>)
    requires IsGrid(grid) && 0 <= c < 9
    ensures |col| == 9
  {
    seq(9, r requires 0 <= r < 9 => grid[r][c])
  }

  /** Box `b` of the grid (boxes numbered left to right, top to bottom),
    * read left to right, top to bottom. */
  function Box(grid: seq<seq<int>>, b: int): (box: seq<int>)
    requires IsGrid(grid) && 0 <= b < 9
    ensures |box| == 9
  {
    seq(9, k requires 0 <= k < 9 => grid[3 * (b / 3) + k / 3][3 * (b % 3) + k % 3])
  }

  /** Every row, every column and every 3x3 box holds each digit 1..9 exactly once. */
  predicate ValidSolution(grid: seq<seq<int>>)
  {
    IsGrid(grid) &&
    (forall r :: 0 <= r < 9 ==> IsDigitPermutation(grid[r])) &&
    (forall c :: 0 <= c < 9 ==> IsDigitPermutation(Column(grid, c))) &&
    (forall b :: 0 <= b < 9 ==> IsDigitPermutation(Box(grid, b)))
  }
}
