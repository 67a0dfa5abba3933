# Sudoku board and completeness validator

A Dafny model of the logic of a small Android Sudoku app, all of which lives
in `MainActivity.kt`. The model has two parts:

- the completeness validator, which decides whether the board is a finished
  Sudoku (`getSubRow`, `getSubCol`, `assertSubGrid`, `assertRowCol`, `assertBoard`);
- the board state machine around it:
  - the cells, each with a value and a fixed `mutable` flag;
  - the one shared selected cell, and a tap on a cell toggling it;
  - the digit buttons and the Clear Puzzle button;
  - the seeding of the starting clues from `makeInitialBoard`;
  - the win check run on the board.

The app stores the board as nine sub-grids, numbered 0..8 left to right and
top to bottom. Each sub-grid holds nine cells, read row by row.

Files:

- `digits.dfy` (module `Digits`) models Kotlin's `distinct()` as `Dedup`. It
  proves what the completeness test `distinct().size == 9 && !(0 in ...)`
  means: nine pairwise distinct non-zero values or, for values in 0..9,
  exactly the digits 1..9.
- `sudoku.dfy` (module `Sudoku`) defines a solved Sudoku on an ordinary 9x9
  grid: every row, column and box is a permutation of 1..9. It is independent
  of the app and is the reference the validator is proved against.
- `validator.dfy` (module `Validator`) models the validator:
  - `getSubRow` and `getSubCol` are methods with their filling loops;
  - `assertSubGrid` and `assertRowCol` are functions;
  - `assertBoard` is a method, with one method per loop of its three loop nests.

  It proves that `assertBoard` accepts exactly the boards whose row-major grid
  is a solved Sudoku, when all cells hold 0..9.
- `game.dfy` (module `Game`) models the board as a class `Board`:
  - two 81-entry arrays hold the cell values and the `mutable` flags;
  - `selected` holds the selected cell, if any;
  - the methods are the seeding loop (the constructor), `setV`, a tap, a
    digit press, Clear Puzzle and the win check.

  Its invariant `Valid` captures how the app protects the fixed cells.
  `setV` does not check the `mutable` flag (MainActivity.kt:170-172). Fixed
  cells are safe only because a tap never selects one, so a digit press never
  reaches one, and because Clear tests the flag before writing. The model
  proves that this invariant holds; it does not add a guard to `setV`.

## Model

| member | source | states |
|---|---|---|
| `Validator.GetSubRow` | app/src/main/java/com/example/individualassignment_35/MainActivity.kt:68-77 | For an index outside 0..2 the result is three zeros. Otherwise element i is cell 3 * rowInd + i of the sub-grid. |
| `Validator.GetSubCol` | app/src/main/java/com/example/individualassignment_35/MainActivity.kt:80-89 | For an index outside 0..2 the result is three zeros. Otherwise element i is cell 3 * i + colInd of the sub-grid. |
| `Digits.Dedup` | app/src/main/java/com/example/individualassignment_35/MainActivity.kt:119 | `distinct()`: the result is never longer than the input and holds only input values. Its full meaning (no repetition, every value kept, full length iff the input has no repetition) is `Digits.DedupProperties`. |
| `Digits.NineDistinctNonZero` | app/src/main/java/com/example/individualassignment_35/MainActivity.kt:119 | The test `distinct().size == 9 && !(0 in ...)`: passing needs at least nine values and no 0. For nine values in 0..9 it is "a permutation of 1..9" by `Digits.NineDistinctNonZeroIsPermutation`. |
| `Digits.DedupProperties` | app/src/main/java/com/example/individualassignment_35/MainActivity.kt:119 | `distinct()` keeps the same values without repetition and never grows the list. It keeps every element exactly when the input has no repetition. |
| `Digits.NineDistinctNonZeroIsPermutation` | app/src/main/java/com/example/individualassignment_35/MainActivity.kt:125 | For nine values in 0..9, "nine distinct values and no 0" holds exactly when the values are a permutation of 1..9. |
| `Validator.AssertSubGrid` | app/src/main/java/com/example/individualassignment_35/MainActivity.kt:112-120 | `assertSubGrid`: a passing sub-grid has at least nine cells and no 0. What passing means exactly is `Validator.AssertSubGridMeaning`. |
| `Validator.AssertRowCol` | app/src/main/java/com/example/individualassignment_35/MainActivity.kt:122-126 | `assertRowCol`: passing slices hold at least nine values in all and no 0. What passing means exactly is `Validator.AssertRowColMeaning`. |
| `Validator.AssertSubGridMeaning` | app/src/main/java/com/example/individualassignment_35/MainActivity.kt:112-120 | A passing sub-grid has at least nine cells and no 0. With nine cells it passes iff they are pairwise distinct and non-zero. With values in 0..9 it passes iff exactly the digits 1..9 occur. |
| `Validator.AssertRowColMeaning` | app/src/main/java/com/example/individualassignment_35/MainActivity.kt:122-126 | For three slices of nine values in all, the check passes iff the concatenation is pairwise distinct and has no 0. With values in 0..9 it passes iff the nine are the digits 1..9. |
| `Validator.AssertBoard` | app/src/main/java/com/example/individualassignment_35/MainActivity.kt:128-154 | Returns true exactly when every sub-grid passes, every local row of every band passes, and every local column of every stripe passes. |
| `Validator.CheckSubGrids` | app/src/main/java/com/example/individualassignment_35/MainActivity.kt:130-132 | The first loop returns true iff all nine sub-grids pass, stopping at the first failure. |
| `Validator.CheckBandRows` | app/src/main/java/com/example/individualassignment_35/MainActivity.kt:134-142 | The second loop nest returns true iff every band passes. |
| `Validator.CheckBand` | app/src/main/java/com/example/individualassignment_35/MainActivity.kt:135-141 | Its inner loop returns true iff local rows 0..2 of the band pass. |
| `Validator.CheckBandRow` | app/src/main/java/com/example/individualassignment_35/MainActivity.kt:136-140 | One test: row `row` of sub-grids 3b, 3b+1, 3b+2 passes `assertRowCol`. |
| `Validator.CheckStripeCols` | app/src/main/java/com/example/individualassignment_35/MainActivity.kt:144-152 | The third loop nest returns true iff every stripe passes. |
| `Validator.CheckStripe` | app/src/main/java/com/example/individualassignment_35/MainActivity.kt:145-151 | Its inner loop returns true iff local columns 0..2 of the stripe pass. |
| `Validator.CheckStripeCol` | app/src/main/java/com/example/individualassignment_35/MainActivity.kt:146-150 | One test: column `col` of sub-grids b, b+3, b+6 passes `assertRowCol`. |
| `Validator.RowMajorLayout` | app/src/main/java/com/example/individualassignment_35/MainActivity.kt:210-219 | The row-major grid places cell k of sub-grid g at row 3 * (g / 3) + k / 3, column 3 * (g % 3) + k % 3. |
| `Validator.SubGridIsBox` | app/src/main/java/com/example/individualassignment_35/MainActivity.kt:130-132 | Sub-grid g is box g of the grid. |
| `Validator.BandRowIsRow` | app/src/main/java/com/example/individualassignment_35/MainActivity.kt:136-140 | The three local rows the second loop nest joins form global row 3 * band + row. |
| `Validator.StripeColIsColumn` | app/src/main/java/com/example/individualassignment_35/MainActivity.kt:146-150 | The three local columns the third loop nest joins form global column 3 * stripe + col. |
| `Validator.SubGridsAgree` | app/src/main/java/com/example/individualassignment_35/MainActivity.kt:130-132 | With cells in 0..9, all sub-grid checks pass iff every box is a permutation of 1..9. |
| `Validator.RowsAgree` | app/src/main/java/com/example/individualassignment_35/MainActivity.kt:134-142 | With cells in 0..9, all band-row checks pass iff every row is a permutation of 1..9. |
| `Validator.ColumnsAgree` | app/src/main/java/com/example/individualassignment_35/MainActivity.kt:144-152 | With cells in 0..9, all stripe-column checks pass iff every column is a permutation of 1..9. |
| `Validator.SolvedIffValidSolution` | app/src/main/java/com/example/individualassignment_35/MainActivity.kt:128-154 | With cells in 0..9, `assertBoard` accepts a board iff its grid is a solved Sudoku: every row, column and box holds 1..9 once each. |
| `Validator.EmptyCellNotSolved` | app/src/main/java/com/example/individualassignment_35/MainActivity.kt:128-154 | A board with any empty (0) cell is never accepted. |
| `Game.MakeInitialBoard` | app/src/main/java/com/example/individualassignment_35/MainActivity.kt:61-64 | The starting clues are a permutation of 1..9: nine distinct values, none of them 0. |
| `Game.Board.constructor` | app/src/main/java/com/example/individualassignment_35/MainActivity.kt:222-236 | After seeding, the cells are the seeded values and the seeded cells are exactly the fixed ones. Nothing is selected and the invariant holds. A null clue list leaves all 81 cells empty and editable. |
| `Game.SeedStep` | app/src/main/java/com/example/individualassignment_35/MainActivity.kt:231-235 | One turn of the seeding loop writes clue k into cell k % 3 of sub-grid k / 3 and makes it fixed. Nothing else changes. |
| `Game.SeedPlacesClue` | app/src/main/java/com/example/individualassignment_35/MainActivity.kt:228-236 | After seeding, clue k is in cell k % 3 of sub-grid k / 3, and that cell is fixed. |
| `Game.SeedLeavesOthers` | app/src/main/java/com/example/individualassignment_35/MainActivity.kt:225-236 | Every cell no clue lands in is empty (0) and editable. |
| `Game.NineCluesFillTopRow` | app/src/main/java/com/example/individualassignment_35/MainActivity.kt:228-236 | Nine clues become exactly the top row of the board, left to right. |
| `Game.SeededNotSolved` | app/src/main/java/com/example/individualassignment_35/MainActivity.kt:246-253 | A freshly seeded board never signals a win, since its last cell is empty. |
| `Game.Grid` | app/src/main/java/com/example/individualassignment_35/MainActivity.kt:224-225 | The 81 cells viewed as nine sub-grids of nine: cell k of sub-grid g is entry 9 * g + k. |
| `Game.Toggle` | app/src/main/java/com/example/individualassignment_35/MainActivity.kt:192 | A tap on a fixed cell leaves the selection unchanged. A tap on an editable cell selects it iff it was not selected. The result is the old selection, nothing, or the tapped cell. |
| `Game.ToggleTwice` | app/src/main/java/com/example/individualassignment_35/MainActivity.kt:192 | Tapping an editable cell twice restores an empty selection, or a selection of that cell. |
| `Game.ToggleKeepsEditable` | app/src/main/java/com/example/individualassignment_35/MainActivity.kt:192 | If only editable cells are selected before a tap, only editable cells are selected after it. |
| `Game.Board.Tap` | app/src/main/java/com/example/individualassignment_35/MainActivity.kt:188-193 | The selection becomes the toggled one, no value changes, and the invariant is kept. |
| `Game.Board.SetV` | app/src/main/java/com/example/individualassignment_35/MainActivity.kt:170-172 | Writes the cell's value with no check of its `mutable` flag; no other cell changes. |
| `Game.Board.Press` | app/src/main/java/com/example/individualassignment_35/MainActivity.kt:282-284 | With no selection nothing changes. Otherwise exactly the selected cell takes the button's digit. No fixed cell changes, the selection stays, and the invariant is kept. |
| `Game.Board.Clear` | app/src/main/java/com/example/individualassignment_35/MainActivity.kt:299-305 | Every editable cell becomes 0 and every fixed cell keeps its value. The selection stays. The result is the board exactly as seeded. |
| `Game.ClearedIdempotent` | app/src/main/java/com/example/individualassignment_35/MainActivity.kt:299-305 | Clearing twice is clearing once. |
| `Game.ClearedIsSeeded` | app/src/main/java/com/example/individualassignment_35/MainActivity.kt:299-305 | Clearing any board whose fixed cells hold their clues gives back the seeded board. |
| `Game.Board.CheckSolved` | app/src/main/java/com/example/individualassignment_35/MainActivity.kt:246-253 | The win signal is raised exactly when `assertBoard` accepts the cells. With digit clues, that is exactly when the board is a solved Sudoku. |

## Left out

- Screen rendering is not modelled: `onCreate`, `displaySubGrid`, `Cell.display` apart from the tap expression, the layout in `makeScreen`, and the preview. It has no behavioural content.
- The "You win!" snackbar, launched on a coroutine, is not modelled. The model only has the decision behind it, `Game.Board.CheckSolved`. The second, unused `assertBoard` call at the end of `makeScreen` is not modelled either.
- Compose state and recomposition are modelled as ordinary state updates. This covers `remember`, `mutableStateOf`, the `remember` inside the seeding loop, and when recomposition happens. Recomposition re-runs the seeding loop, but the `remember` at line 232 returns the cells made on the first run, so the re-run has no effect; the model seeds once.
- `makeInitialBoard` is not modelled as random. `(1..9).shuffled()` is random, so `Game.MakeInitialBoard` takes its outcome as an input that is a permutation of 1..9.
- The model does not have one object per cell. Cell k of sub-grid g is index 9 * g + k into two arrays, and the selection holds that index. Kotlin compares cells by reference, so index equality is the same test. `getV` is a read of `values`.
- `Validator.AssertBoard`: requires exactly nine sub-grids of nine cells, which is the only board the app builds. On other shapes the Kotlin code throws an index exception or checks extra sub-grids.
- `Validator.GetSubRow`: requires the cells an in-range index reads to exist. The Kotlin code would throw otherwise. `Validator.GetSubCol` has the same requirement.
- `Game.Board.constructor`: requires at most 27 clues. A 28th clue would index a tenth sub-grid, and the Kotlin code would throw.
- The validator reads a snapshot of the cell values, `seq<seq<int>>`, not the `MutableState<Cell>` arrays themselves.
