/** The completeness validator of MainActivity.kt: getSubRow, getSubCol,
  * assertSubGrid, assertRowCol and assertBoard.
  *
  * The board is kept as the app keeps it: nine sub-grids, numbered
  *     0 1 2
  *     3 4 5
  *     6 7 8
  * each holding nine cell values read row by row. The validator only reads
  * cell values, so it works on a snapshot `seq<seq<int>>` of them. */
module Validator {
  import opened Digits
  import opened Sudoku

  /** Nine sub-grids of nine cells each: the only board shape the app builds. */
  predicate IsBoard(board: seq<seq<int>>)
  {
    |board| == 9 && forall g :: 0 <= g < 9 ==> |board[g]| == 9
  }

  // ---------------------------------------------------------------------
  // Rows and columns of one sub-grid
  // ---------------------------------------------------------------------

  /** Local row `rowInd` of a sub-grid, or three zeros when `rowInd` is not 0..2. */
  function SubRow(sgrid: seq<int>, rowInd: int): seq<int>
    requires 0 <= rowInd <= 2 ==> rowInd * 3 + 2 < |sgrid|
  {
    if 0 <= rowInd <= 2 then [sgrid[rowInd * 3], sgrid[rowInd * 3 + 1], sgrid[rowInd * 3 + 2]] else [0, 0, 0]
  }

  /** Local column `colInd` of a sub-grid, or three zeros when `colInd` is not 0..2. */
  function SubCol(sgrid: seq<int>, colInd: int): seq<int>
    requires 0 <= colInd <= 2 ==> 6 + colInd < |sgrid|
  {
    if 0 <= colInd <= 2 then [sgrid[colInd], sgrid[3 + colInd], sgrid[6 + colInd]] else [0, 0, 0]
  }

  /** getSubRow: fills a three-cell array from the sub-grid, leaving it all
    * zeros for an index outside 0..2. */
  method GetSubRow(sgrid: seq<int>, rowInd: int) returns (row: seq<int>)
    requires 0 <= rowInd <= 2 ==> rowInd * 3 + 2 < |sgrid|
    ensures |row| == 3
    ensures !(0 <= rowInd <= 2) ==> row == [0, 0, 0]
    ensures 0 <= rowInd <= 2 ==> forall i :: 0 <= i < 3 ==> row[i] == sgrid[rowInd * 3 + i]
    ensures row == SubRow(sgrid, rowInd)
  {
    var returnRow := new int[3](_ => 0);
    if !(0 <= rowInd <= 2) {
      return returnRow[..];
    }
    for i := 0 to 3
      invariant forall k :: 0 <= k < i ==> returnRow[k] == sgrid[rowInd * 3 + k]
    {
      returnRow[i] := sgrid[rowInd * 3 + i];
    }
    return returnRow[..];
  }

  /** getSubCol: fills a three-cell array from the sub-grid, leaving it all
    * zeros for an index outside 0..2. */
  method GetSubCol(sgrid: seq<int>, colInd: int) returns (col: seq<int>)
    requires 0 <= colInd <= 2 ==> 6 + colInd < |sgrid|
    ensures |col| == 3
    ensures !(0 <= colInd <= 2) ==> col == [0, 0, 0]
    ensures 0 <= colInd <= 2 ==> forall i :: 0 <= i < 3 ==> col[i] == sgrid[i * 3 + colInd]
    ensures col == SubCol(sgrid, colInd)
  {
    var returnCol := new int[3](_ => 0);
    if !(0 <= colInd <= 2) {
      return returnCol[..];
    }
    for i := 0 to 3
      invariant forall k :: 0 <= k < i ==> returnCol[k] == sgrid[k * 3 + colInd]
    {
      returnCol[i] := sgrid[i * 3 + colInd];
    }
    return returnCol[..];
  }

  // ---------------------------------------------------------------------
  // Completeness of nine values
  // ---------------------------------------------------------------------

  /** assertSubGrid: the sub-grid has nine distinct values and no 0. */
  function AssertSubGrid(sgrid: seq<int>): (ok: bool)
    ensures ok ==> 9 <= |sgrid| && 0 !in sgrid
  {
    NineDistinctNonZero(sgrid)
  }

  /** assertRowCol: the three slices together have nine distinct values and no 0. */
  function AssertRowCol(part1: seq<int>, part2: seq<int>, part3: seq<int>): (ok: bool)
    ensures ok ==> 9 <= |part1| + |part2| + |part3|
    ensures ok ==> 0 !in part1 && 0 !in part2 && 0 !in part3
  {
    NineDistinctNonZero(part1 + part2 + part3)
  }

  /** What assertSubGrid means: a sub-grid passes only if it has at least nine
    * cells and no empty one; with nine cells, exactly when they are pairwise
    * distinct and non-zero; with values in 0..9, exactly when the digits
    * 1..9 all occur and nothing else does. */
  lemma AssertSubGridMeaning(sgrid: seq<int>)
    ensures AssertSubGrid(sgrid) ==> 9 <= |sgrid| && 0 !in sgrid
    ensures |sgrid| == 9 ==> (AssertSubGrid(sgrid) <==> Distinct(sgrid) && 0 !in sgrid)
    ensures InDigitRange(sgrid) ==> (AssertSubGrid(sgrid) <==> forall v :: v in sgrid <==> v in DigitSet)
  {
    DedupProperties(sgrid);
    NineDistinctNonZeroMeansDistinct(sgrid);
    NineDistinctNonZeroMeansDigits(sgrid);
  }

  /** What assertRowCol means: for three slices of nine values in all, they
    * pass exactly when the nine are pairwise distinct and non-zero; with
    * values in 0..9, exactly when they are the digits 1..9. */
  lemma AssertRowColMeaning(part1: seq<int>, part2: seq<int>, part3: seq<int>)
    ensures |part1| + |part2| + |part3| == 9 ==>
              (AssertRowCol(part1, part2, part3) <==>
                 Distinct(part1 + part2 + part3) && 0 !in part1 + part2 + part3)
    ensures InDigitRange(part1 + part2 + part3) ==>
              (AssertRowCol(part1, part2, part3) <==>
                 forall v :: v in part1 + part2 + part3 <==> v in DigitSet)
  {
    NineDistinctNonZeroMeansDistinct(part1 + part2 + part3);
    NineDistinctNonZeroMeansDigits(part1 + part2 + part3);
  }

  // ---------------------------------------------------------------------
  // The whole board
  // ---------------------------------------------------------------------

  /** Local row `row` of the three sub-grids of band `band` passes. */
  predicate BandRowOk(board: seq<seq<int>>, band: int, row: int)
    requires IsBoard(board) && 0 <= band < 3 && 0 <= row < 3
  {
    AssertRowCol(SubRow(board[band * 3 + 0], row),
                 SubRow(board[band * 3 + 1], row),
                 SubRow(board[band * 3 + 2], row))
  }

  /** Local column `col` of the three sub-grids of stripe `stripe` passes. */
  predicate StripeColOk(board: seq<seq<int>>, stripe: int, col: int)
    requires IsBoard(board) && 0 <= stripe < 3 && 0 <= col < 3
  {
    AssertRowCol(SubCol(board[stripe + 0], col),
                 SubCol(board[stripe + 3], col),
                 SubCol(board[stripe + 6], col))
  }

  /** Every sub-grid passes. */
  predicate SubGridsOk(board: seq<seq<int>>)
    requires IsBoard(board)
  {
    forall g :: 0 <= g < 9 ==> AssertSubGrid(board[g])
  }

  /** Every local row of band `band` passes. */
  predicate BandOk(board: seq<seq<int>>, band: int)
    requires IsBoard(board) && 0 <= band < 3
  {
    forall row :: 0 <= row < 3 ==> BandRowOk(board, band, row)
  }

  /** Every local row of every band passes. */
  predicate BandRowsOk(board: seq<seq<int>>)
    requires IsBoard(board)
  {
    forall band :: 0 <= band < 3 ==> BandOk(board, band)
  }

  /** Every local column of stripe `stripe` passes. */
  predicate StripeOk(board: seq<seq<int>>, stripe: int)
    requires IsBoard(board) && 0 <= stripe < 3
  {
    forall col :: 0 <= col < 3 ==> StripeColOk(board, stripe, col)
  }

  /** Every local column of every stripe passes. */
  predicate StripeColsOk(board: seq<seq<int>>)
    requires IsBoard(board)
  {
    forall stripe :: 0 <= stripe < 3 ==> StripeOk(board, stripe)
  }

  /** What assertBoard decides: every sub-grid, every band row and every
    * stripe column passes. */
  predicate Solved(board: seq<seq<int>>)
    requires IsBoard(board)
  {
    SubGridsOk(board) && BandRowsOk(board) && StripeColsOk(board)
  }

  /** assertBoard: checks the sub-grids, then the rows band by band, then the
    * columns stripe by stripe, and gives up at the first failure. Each of
    * the three loop nests of the source is one method below. */
  method AssertBoard(board: seq<seq<int>>) returns (ok: bool)
    requires IsBoard(board)
    ensures ok == Solved(board)
  {
    ok := CheckSubGrids(board);
    if !ok {
      return false;
    }
    ok := CheckBandRows(board);
    if !ok {
      return false;
    }
    ok := CheckStripeCols(board);
  }

  /** The first loop of assertBoard: every sub-grid, in order. */
  method CheckSubGrids(board: seq<seq<int>>) returns (ok: bool)
    requires IsBoard(board)
    ensures ok == SubGridsOk(board)
  {
    for g := 0 to 9
      invariant forall h :: 0 <= h < g ==> AssertSubGrid(board[h])
    {
      if !AssertSubGrid(board[g]) {
        return false;
      }
    }
    return true;
  }

  /** The second loop nest of assertBoard: bands 0..2, in order. */
  method CheckBandRows(board: seq<seq<int>>) returns (ok: bool)
    requires IsBoard(board)
    ensures ok == BandRowsOk(board)
  {
    for sGridRow := 0 to 3
      invariant forall band :: 0 <= band < sGridRow ==> BandOk(board, band)
    {
      var bandOk := CheckBand(board, sGridRow);
      if !bandOk {
        return false;
      }
    }
    return true;
  }

  /** The inner loop of the second loop nest: local rows 0..2 of one band. */
  method CheckBand(board: seq<seq<int>>, band: int) returns (ok: bool)
    requires IsBoard(board) && 0 <= band < 3
    ensures ok == BandOk(board, band)
  {
    for row := 0 to 3
      invariant forall r :: 0 <= r < row ==> BandRowOk(board, band, r)
    {
      var rowOk := CheckBandRow(board, band, row);
      if !rowOk {
        return false;
      }
    }
    return true;
  }

  /** One test of the second loop nest of assertBoard: local row `row` of the
    * three sub-grids of band `band`. */
  method CheckBandRow(board: seq<seq<int>>, band: int, row: int) returns (ok: bool)
    requires IsBoard(board) && 0 <= band < 3 && 0 <= row < 3
    ensures ok == BandRowOk(board, band, row)
  {
    var a1 := GetSubRow(board[band * 3 + 0], row);
    var a2 := GetSubRow(board[band * 3 + 1], row);
    var a3 := GetSubRow(board[band * 3 + 2], row);
    ok := AssertRowCol(a1, a2, a3);
  }

  /** One test of the third loop nest of assertBoard: local column `col` of
    * the three sub-grids of stripe `stripe`. */
  method CheckStripeCol(board: seq<seq<int>>, stripe: int, col: int) returns (ok: bool)
    requires IsBoard(board) && 0 <= stripe < 3 && 0 <= col < 3
    ensures ok == StripeColOk(board, stripe, col)
  {
    var a1 := GetSubCol(board[stripe + 0], col);
    var a2 := GetSubCol(board[stripe + 3], col);
    var a3 := GetSubCol(board[stripe + 6], col);
    ok := AssertRowCol(a1, a2, a3);
  }

  /** The third loop nest of assertBoard: stripes 0..2, in order. */
  method CheckStripeCols(board: seq<seq<int>>) returns (ok: bool)
    requires IsBoard(board)
    ensures ok == StripeColsOk(board)
  {
    for sGridCol := 0 to 3
      invariant forall stripe :: 0 <= stripe < sGridCol ==> StripeOk(board, stripe)
    {
      var stripeOk := CheckStripe(board, sGridCol);
      if !stripeOk {
        return false;
      }
    }
    return true;
  }

  /** The inner loop of the third loop nest: local columns 0..2 of one stripe. */
  method CheckStripe(board: seq<seq<int>>, stripe: int) returns (ok: bool)
    requires IsBoard(board) && 0 <= stripe < 3
    ensures ok == StripeOk(board, stripe)
  {
    for col := 0 to 3
      invariant forall c :: 0 <= c < col ==> StripeColOk(board, stripe, c)
    {
      var colOk := CheckStripeCol(board, stripe, col);
      if !colOk {
        return false;
      }
    }
    return true;
  }

  // ---------------------------------------------------------------------
  // The validator against the usual definition of a solved Sudoku
  // ---------------------------------------------------------------------

  /** Global row 3 * band + row of the board: local row `row` of sub-grids
    * 3 * band, 3 * band + 1 and 3 * band + 2, left to right. */
  function GlobalRow(board: seq<seq<int>>, band: int, row: int): (line: seq<int>)
    requires IsBoard(board) && 0 <= band < 3 && 0 <= row < 3
    ensures |line| == 9
  {
    SubRow(board[band * 3 + 0], row) + SubRow(board[band * 3 + 1], row) + SubRow(board[band * 3 + 2], row)
  }

  /** `grid` holds the cells of the board row by row: cell k of sub-grid g is
    * at row 3 * (g / 3) + k / 3 and column 3 * (g % 3) + k % 3. */
  predicate Layout(board: seq<seq<int>>, grid: seq<seq<int>>)
  {
    IsBoard(board) && IsGrid(grid) &&
    forall g, k :: 0 <= g < 9 && 0 <= k < 9 ==>
      grid[3 * (g / 3) + k / 3][3 * (g % 3) + k % 3] == CellAt(board, g, k)
  }

  /** The value of cell k of sub-grid g (a plain read, kept as a function
    * so that the layout quantifier has its own trigger). */
  function CellAt(board: seq<seq<int>>, g: int, k: int): int
    requires IsBoard(board) && 0 <= g < 9 && 0 <= k < 9
  {
    board[g][k]
  }

  /** The board as an ordinary 9x9 grid, row by row. */
  function RowMajor(board: seq<seq<int>>): (grid: seq<seq<int>>)
    requires IsBoard(board)
    ensures IsGrid(grid)
  {
    seq(9, r requires 0 <= r < 9 =>
      seq(9, c requires 0 <= c < 9 => board[3 * (r / 3) + c / 3][3 * (r % 3) + c % 3]))
  }

  lemma RowMajorCell(board: seq<seq<int>>, g: int, k: int)
    requires IsBoard(board) && 0 <= g < 9 && 0 <= k < 9
    ensures RowMajor(board)[3 * (g / 3) + k / 3][3 * (g % 3) + k % 3] == board[g][k]
  {
    var r, c := 3 * (g / 3) + k / 3, 3 * (g % 3) + k % 3;
    assert r / 3 == g / 3 && r % 3 == k / 3;
    assert c / 3 == g % 3 && c % 3 == k % 3;
    assert 3 * (g / 3) + g % 3 == g && 3 * (k / 3) + k % 3 == k;
  }

  /** `RowMajor` lays the board out as `Layout` describes. */
  lemma RowMajorLayout(board: seq<seq<int>>)
    requires IsBoard(board)
    ensures Layout(board, RowMajor(board))
  {
    forall g, k | 0 <= g < 9 && 0 <= k < 9
      ensures RowMajor(board)[3 * (g / 3) + k / 3][3 * (g % 3) + k % 3] == CellAt(board, g, k)
    {
      RowMajorCell(board, g, k);
    }
  }

  /** The same layout by band, stripe, local row and local column: cell
    * 3 * row + col of sub-grid 3 * band + stripe is at global row
    * 3 * band + row and global column 3 * stripe + col. */
  lemma LayoutAt(board: seq<seq<int>>, grid: seq<seq<int>>, band: int, stripe: int, row: int, col: int)
    requires Layout(board, grid)
    requires 0 <= band < 3 && 0 <= stripe < 3 && 0 <= row < 3 && 0 <= col < 3
    ensures grid[band * 3 + row][stripe * 3 + col] == board[band * 3 + stripe][row * 3 + col]
  {
    var g, k := band * 3 + stripe, row * 3 + col;
    assert g / 3 == band && g % 3 == stripe && k / 3 == row && k % 3 == col;
    assert grid[3 * (g / 3) + k / 3][3 * (g % 3) + k % 3] == CellAt(board, g, k);
  }

  /** Sub-grid g is box g of the grid. */
  lemma SubGridIsBox(board: seq<seq<int>>, grid: seq<seq<int>>, g: int)
    requires Layout(board, grid) && 0 <= g < 9
    ensures board[g] == Box(grid, g)
  {
    forall k | 0 <= k < 9 ensures Box(grid, g)[k] == board[g][k] {
      assert grid[3 * (g / 3) + k / 3][3 * (g % 3) + k % 3] == CellAt(board, g, k);
    }
  }

  /** Cell `col` of local row `row` of a sub-grid is its cell 3 * row + col. */
  lemma SubRowAt(sgrid: seq<int>, row: int, col: int)
    requires |sgrid| == 9 && 0 <= row < 3 && 0 <= col < 3
    ensures SubRow(sgrid, row)[col] == sgrid[row * 3 + col]
  {
  }

  /** Cell `row` of local column `col` of a sub-grid is its cell 3 * row + col. */
  lemma SubColAt(sgrid: seq<int>, row: int, col: int)
    requires |sgrid| == 9 && 0 <= row < 3 && 0 <= col < 3
    ensures SubCol(sgrid, col)[row] == sgrid[row * 3 + col]
  {
  }

  /** Cell 3 * k + j of three three-cell pieces laid end to end is cell j of piece k. */
  lemma Concat3At(s0: seq<int>, s1: seq<int>, s2: seq<int>, k: int, j: int)
    requires |s0| == 3 && |s1| == 3 && |s2| == 3 && 0 <= k < 3 && 0 <= j < 3
    ensures (s0 + s1 + s2)[k * 3 + j] == (if k == 0 then s0 else if k == 1 then s1 else s2)[j]
  {
  }

  /** Local row `row` of band `band`, across its three sub-grids, is global
    * row 3 * band + row. */
  lemma BandRowIsRow(board: seq<seq<int>>, grid: seq<seq<int>>, band: int, row: int)
    requires Layout(board, grid) && 0 <= band < 3 && 0 <= row < 3
    ensures GlobalRow(board, band, row) == grid[band * 3 + row]
  {
    forall c | 0 <= c < 9 ensures GlobalRow(board, band, row)[c] == grid[band * 3 + row][c] {
      GlobalRowAt(board, grid, band, row, c);
    }
  }

  /** Cell c of global row 3 * band + row. */
  lemma GlobalRowAt(board: seq<seq<int>>, grid: seq<seq<int>>, band: int, row: int, c: int)
    requires Layout(board, grid) && 0 <= band < 3 && 0 <= row < 3 && 0 <= c < 9
    ensures GlobalRow(board, band, row)[c] == grid[band * 3 + row][c]
  {
    var stripe, col := c / 3, c % 3;
    assert c == stripe * 3 + col;
    Concat3At(SubRow(board[band * 3 + 0], row), SubRow(board[band * 3 + 1], row),
              SubRow(board[band * 3 + 2], row), stripe, col);
    SubRowAt(board[band * 3 + stripe], row, col);
    LayoutAt(board, grid, band, stripe, row, col);
  }

  /** Local column `col` of stripe `stripe`, across its three sub-grids, is
    * global column 3 * stripe + col. */
  lemma StripeColIsColumn(board: seq<seq<int>>, grid: seq<seq<int>>, stripe: int, col: int)
    requires Layout(board, grid) && 0 <= stripe < 3 && 0 <= col < 3
    ensures SubCol(board[stripe + 0], col) + SubCol(board[stripe + 3], col)
              + SubCol(board[stripe + 6], col) == Column(grid, stripe * 3 + col)
  {
    var line := SubCol(board[stripe + 0], col) + SubCol(board[stripe + 3], col)
                  + SubCol(board[stripe + 6], col);
    forall r | 0 <= r < 9 ensures line[r] == Column(grid, stripe * 3 + col)[r] {
      StripeColAt(board, grid, stripe, col, r);
    }
  }

  /** Cell r of the stripe-column line of stripe `stripe`. */
  lemma StripeColAt(board: seq<seq<int>>, grid: seq<seq<int>>, stripe: int, col: int, r: int)
    requires Layout(board, grid) && 0 <= stripe < 3 && 0 <= col < 3 && 0 <= r < 9
    ensures (SubCol(board[stripe + 0], col) + SubCol(board[stripe + 3], col)
               + SubCol(board[stripe + 6], col))[r] == Column(grid, stripe * 3 + col)[r]
  {
    var band, row := r / 3, r % 3;
    assert r == band * 3 + row;
    Concat3At(SubCol(board[stripe + 0], col), SubCol(board[stripe + 3], col),
              SubCol(board[stripe + 6], col), band, row);
    SubColAt(board[band * 3 + stripe], row, col);
    LayoutAt(board, grid, band, stripe, row, col);
  }

  /** Every cell of the board holds 0 (empty) or a digit. */
  predicate CellsInDigitRange(board: seq<seq<int>>)
    requires IsBoard(board)
  {
    forall g :: 0 <= g < 9 ==> InDigitRange(board[g])
  }

  lemma SubRowInDigitRange(sgrid: seq<int>, row: int)
    requires |sgrid| == 9 && 0 <= row < 3 && InDigitRange(sgrid)
    ensures InDigitRange(SubRow(sgrid, row))
  {
    forall x | x in SubRow(sgrid, row) ensures 0 <= x <= 9 {
      assert x in sgrid;
    }
  }

  lemma SubColInDigitRange(sgrid: seq<int>, col: int)
    requires |sgrid| == 9 && 0 <= col < 3 && InDigitRange(sgrid)
    ensures InDigitRange(SubCol(sgrid, col))
  {
    forall x | x in SubCol(sgrid, col) ensures 0 <= x <= 9 {
      assert x in sgrid;
    }
  }

  /** The sub-grid checks pass exactly when every box holds the digits 1..9. */
  lemma SubGridsAgree(board: seq<seq<int>>, grid: seq<seq<int>>)
    requires Layout(board, grid) && CellsInDigitRange(board)
    ensures SubGridsOk(board) <==> forall b :: 0 <= b < 9 ==> IsDigitPermutation(Box(grid, b))
  {
    forall g | 0 <= g < 9
      ensures AssertSubGrid(board[g]) <==> IsDigitPermutation(Box(grid, g))
    {
      SubGridIsBox(board, grid, g);
      NineDistinctNonZeroIsPermutation(board[g]);
    }
  }

  /** One band-row check passes exactly when its global row holds the digits 1..9. */
  lemma BandRowAgrees(board: seq<seq<int>>, grid: seq<seq<int>>, band: int, row: int)
    requires Layout(board, grid) && CellsInDigitRange(board) && 0 <= band < 3 && 0 <= row < 3
    ensures BandRowOk(board, band, row) <==> IsDigitPermutation(grid[band * 3 + row])
  {
    BandRowIsRow(board, grid, band, row);
    SubRowInDigitRange(board[band * 3 + 0], row);
    SubRowInDigitRange(board[band * 3 + 1], row);
    SubRowInDigitRange(board[band * 3 + 2], row);
    NineDistinctNonZeroIsPermutation(GlobalRow(board, band, row));
  }

  /** One stripe-column check passes exactly when its global column holds the digits 1..9. */
  lemma StripeColAgrees(board: seq<seq<int>>, grid: seq<seq<int>>, stripe: int, col: int)
    requires Layout(board, grid) && CellsInDigitRange(board) && 0 <= stripe < 3 && 0 <= col < 3
    ensures StripeColOk(board, stripe, col) <==> IsDigitPermutation(Column(grid, stripe * 3 + col))
  {
    StripeColIsColumn(board, grid, stripe, col);
    SubColInDigitRange(board[stripe + 0], col);
    SubColInDigitRange(board[stripe + 3], col);
    SubColInDigitRange(board[stripe + 6], col);
    NineDistinctNonZeroIsPermutation(Column(grid, stripe * 3 + col));
  }

  /** The band-row checks pass exactly when every row holds the digits 1..9. */
  lemma RowsAgree(board: seq<seq<int>>, grid: seq<seq<int>>)
    requires Layout(board, grid) && CellsInDigitRange(board)
    ensures BandRowsOk(board) <==> forall r :: 0 <= r < 9 ==> IsDigitPermutation(grid[r])
  {
    if BandRowsOk(board) {
      forall r | 0 <= r < 9 ensures IsDigitPermutation(grid[r]) {
        var band, row := r / 3, r % 3;
        assert r == band * 3 + row;
        assert BandOk(board, band);
        BandRowAgrees(board, grid, band, row);
      }
    }
    if forall r :: 0 <= r < 9 ==> IsDigitPermutation(grid[r]) {
      forall band | 0 <= band < 3 ensures BandOk(board, band) {
        forall row | 0 <= row < 3 ensures BandRowOk(board, band, row) {
          BandRowAgrees(board, grid, band, row);
        }
      }
    }
  }

  /** The stripe-column checks pass exactly when every column holds the digits 1..9. */
  lemma ColumnsAgree(board: seq<seq<int>>, grid: seq<seq<int>>)
    requires Layout(board, grid) && CellsInDigitRange(board)
    ensures StripeColsOk(board) <==> forall c :: 0 <= c < 9 ==> IsDigitPermutation(Column(grid, c))
  {
    if StripeColsOk(board) {
      forall c | 0 <= c < 9 ensures IsDigitPermutation(Column(grid, c)) {
        var stripe, col := c / 3, c % 3;
        assert c == stripe * 3 + col;
        assert StripeOk(board, stripe);
        StripeColAgrees(board, grid, stripe, col);
      }
    }
    if forall c :: 0 <= c < 9 ==> IsDigitPermutation(Column(grid, c)) {
      forall stripe | 0 <= stripe < 3 ensures StripeOk(board, stripe) {
        forall col | 0 <= col < 3 ensures StripeColOk(board, stripe, col) {
          StripeColAgrees(board, grid, stripe, col);
        }
      }
    }
  }

  /** For a board whose cells hold 0..9, assertBoard accepts exactly the
    * boards that are solved Sudokus: every row, column and box of the grid
    * the board lays out holds the digits 1..9 once each. */
  lemma SolvedIffValidSolution(board: seq<seq<int>>)
    requires IsBoard(board) && CellsInDigitRange(board)
    ensures Solved(board) <==> ValidSolution(RowMajor(board))
  {
    var grid := RowMajor(board);
    RowMajorLayout(board);
    SubGridsAgree(board, grid);
    RowsAgree(board, grid);
    ColumnsAgree(board, grid);
  }

  /** A board with an empty cell is never accepted. */
  lemma EmptyCellNotSolved(board: seq<seq<int>>, g: int, k: int)
    requires IsBoard(board) && 0 <= g < 9 && 0 <= k < 9 && board[g][k] == 0
    ensures !Solved(board)
  {
    assert board[g][k] in board[g];
    AssertSubGridMeaning(board[g]);
  }
}
