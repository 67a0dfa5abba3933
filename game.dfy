/** The playing board of MainActivity.kt: the cells with their values and
  * fixed/editable flags, the selected cell, the seeding of the starting
  * clues, a tap on a cell, the digit buttons, the Clear Puzzle button and
  * the win check.
  *
  * The app keeps nine sub-grids of nine `Cell` objects and one shared
  * "selected cell" state. Here cell k of sub-grid g is entry 9 * g + k of
  * two arrays, `values` (what `getV` returns) and `mutable` (the cell's
  * `mutable` flag), and a cell is identified by that index. */
module Game {
  import opened Digits
  import opened Sudoku
  import opened Validator

  datatype Option<T> = None | Some(value: T)

  /** The digit buttons, in screen order; 0 is the "X" button that empties a cell. */
  const Buttons: seq<int> := [1, 2, 3, 4, 5, 6, 7, 8, 9, 0]

  // ---------------------------------------------------------------------
  // The starting position
  // ---------------------------------------------------------------------

  /** makeInitialBoard: the digits 1..9 in shuffled order, first nine taken.
    * The shuffle itself is random; `shuffled` is its outcome. */
  function MakeInitialBoard(shuffled: seq<int>): (clues: seq<int>)
    requires IsDigitPermutation(shuffled)
    ensures IsDigitPermutation(clues)
    ensures Distinct(clues) && 0 !in clues
  {
    DigitPermutationDistinct(shuffled);
    shuffled[..9]
  }

  /** The flat index of the cell that clue number k is written to: the
    * seeding loop fills cells 0..2 of sub-grid 0, then of sub-grid 1, and
    * so on. */
  function Slot(k: int): int
  {
    9 * (k / 3) + k % 3
  }

  /** The clue number written to flat cell i, when i is a seeded cell. */
  function ClueOf(i: int): int
  {
    3 * (i / 9) + i % 9
  }

  /** Flat cell i receives one of the first n clues. */
  predicate IsClueSlot(i: int, n: int)
  {
    i % 9 < 3 && ClueOf(i) < n
  }

  lemma SlotClue(k: int)
    requires 0 <= k < 27
    ensures 0 <= Slot(k) < 81 && Slot(k) % 9 < 3 && ClueOf(Slot(k)) == k
  {
    var i := Slot(k);
    assert i / 9 == k / 3 && i % 9 == k % 3;
  }

  lemma ClueSlot(i: int)
    requires 0 <= i < 81 && i % 9 < 3
    ensures Slot(ClueOf(i)) == i
  {
    var k := ClueOf(i);
    assert k / 3 == i / 9 && k % 3 == i % 9;
  }

  /** The cell values after seeding `clues`: each clue in its slot, every
    * other cell empty. */
  function Seeded(clues: seq<int>): (cells: seq<int>)
    requires |clues| <= 27
    ensures |cells| == 81
  {
    seq(81, i requires 0 <= i < 81 => if IsClueSlot(i, |clues|) then clues[ClueOf(i)] else 0)
  }

  /** The `mutable` flags after seeding n clues: the seeded cells are fixed. */
  function SeedMask(n: int): (mask: seq<bool>)
    ensures |mask| == 81
  {
    seq(81, i requires 0 <= i < 81 => !IsClueSlot(i, n))
  }

  /** Clue k lands in cell k % 3 of sub-grid k / 3, which becomes fixed. */
  lemma SeedPlacesClue(clues: seq<int>, k: int)
    requires |clues| <= 27 && 0 <= k < |clues|
    ensures Seeded(clues)[9 * (k / 3) + k % 3] == clues[k]
    ensures !SeedMask(|clues|)[9 * (k / 3) + k % 3]
  {
    SlotClue(k);
  }

  /** A cell no clue lands in is empty and editable. */
  lemma SeedLeavesOthers(clues: seq<int>, i: int)
    requires |clues| <= 27 && 0 <= i < 81
    requires forall k :: 0 <= k < |clues| ==> Slot(k) != i
    ensures Seeded(clues)[i] == 0 && SeedMask(|clues|)[i]
  {
    if IsClueSlot(i, |clues|) {
      ClueSlot(i);
      assert false;
    }
  }

  /** One turn of the seeding loop: clue k is written to its slot and
    * nothing else changes. */
  lemma SeedStep(clues: seq<int>, k: int)
    requires |clues| <= 27 && 0 <= k < |clues|
    ensures Seeded(clues[..k + 1]) == Seeded(clues[..k])[Slot(k) := clues[k]]
    ensures SeedMask(k + 1) == SeedMask(k)[Slot(k) := false]
  {
    SlotClue(k);
    var after, before := Seeded(clues[..k + 1]), Seeded(clues[..k])[Slot(k) := clues[k]];
    var maskAfter, maskBefore := SeedMask(k + 1), SeedMask(k)[Slot(k) := false];
    forall i | 0 <= i < 81 ensures after[i] == before[i] && maskAfter[i] == maskBefore[i] {
      SeedStepAt(clues, k, i);
    }
  }

  lemma SeedStepAt(clues: seq<int>, k: int, i: int)
    requires |clues| <= 27 && 0 <= k < |clues| && 0 <= i < 81
    requires 0 <= Slot(k) < 81 && ClueOf(Slot(k)) == k && Slot(k) % 9 < 3
    ensures Seeded(clues[..k + 1])[i] == Seeded(clues[..k])[Slot(k) := clues[k]][i]
    ensures SeedMask(k + 1)[i] == SeedMask(k)[Slot(k) := false][i]
  {
    if i != Slot(k) && IsClueSlot(i, k + 1) {
      ClueSlot(i);
      assert ClueOf(i) != k;
    }
  }

  /** With nine clues, as makeInitialBoard makes, the clues are exactly the
    * top row of the board, left to right. */
  lemma NineCluesFillTopRow(clues: seq<int>)
    requires |clues| == 9
    ensures RowMajor(Grid(Seeded(clues)))[0] == clues
  {
    var board := Grid(Seeded(clues));
    forall c | 0 <= c < 9 ensures RowMajor(board)[0][c] == clues[c] {
      RowMajorLayout(board);
      LayoutAt(board, RowMajor(board), 0, c / 3, 0, c % 3);
      assert c == c / 3 * 3 + c % 3;
      SeedPlacesClue(clues, c);
    }
  }

  /** A freshly seeded board is never a win: with at most 27 clues the last
    * cell of the last sub-grid is empty. */
  lemma SeededNotSolved(clues: seq<int>)
    requires |clues| <= 27
    ensures !Solved(Grid(Seeded(clues)))
  {
    assert !IsClueSlot(80, |clues|);
    EmptyCellNotSolved(Grid(Seeded(clues)), 8, 8);
  }

  // ---------------------------------------------------------------------
  // Views of the cells
  // ---------------------------------------------------------------------

  /** The nine sub-grids of the 81 cells, as the validator reads them. */
  function Grid(cells: seq<int>): (board: seq<seq<int>>)
    requires |cells| == 81
    ensures IsBoard(board)
    ensures forall g, k :: 0 <= g < 9 && 0 <= k < 9 ==> board[g][k] == cells[9 * g + k]
  {
    seq(9, g requires 0 <= g < 9 => cells[9 * g .. 9 * g + 9])
  }

  /** Cells holding only 0..9 give a board whose sub-grids hold only 0..9. */
  lemma GridInDigitRange(cells: seq<int>)
    requires |cells| == 81 && forall i :: 0 <= i < 81 ==> 0 <= cells[i] <= 9
    ensures CellsInDigitRange(Grid(cells))
  {
    var board := Grid(cells);
    forall g, x | 0 <= g < 9 && x in board[g] ensures 0 <= x <= 9 {
      var k :| 0 <= k < 9 && board[g][k] == x;
      assert x == cells[9 * g + k];
    }
  }

  /** The cells after Clear Puzzle: editable cells emptied, fixed ones kept. */
  function Cleared(cells: seq<int>, mask: seq<bool>, n: int): (r: seq<int>)
    requires |mask| == |cells| && 0 <= n <= |cells|
    ensures |r| == |cells|
  {
    seq(|cells|, i requires 0 <= i < |cells| => if i < n && mask[i] then 0 else cells[i])
  }

  /** Clearing twice is clearing once. */
  lemma ClearedIdempotent(cells: seq<int>, mask: seq<bool>)
    requires |mask| == |cells|
    ensures Cleared(Cleared(cells, mask, |cells|), mask, |cells|) == Cleared(cells, mask, |cells|)
  {
  }

  /** Clearing a seeded board whose fixed cells still hold their clues gives
    * back the seeded board, whatever the editable cells held. */
  lemma ClearedIsSeeded(cells: seq<int>, clues: seq<int>)
    requires |cells| == 81 && |clues| <= 27
    requires forall i :: 0 <= i < 81 && !SeedMask(|clues|)[i] ==> cells[i] == Seeded(clues)[i]
    ensures Cleared(cells, SeedMask(|clues|), 81) == Seeded(clues)
  {
  }

  // ---------------------------------------------------------------------
  // Selection
  // ---------------------------------------------------------------------

  /** What a tap on cell i does to the selection: a fixed cell leaves it as
    * it is; an editable cell becomes selected, or is deselected when it
    * already was. */
  function Toggle(selected: Option<nat>, i: nat, isMutable: bool): (next: Option<nat>)
    ensures !isMutable ==> next == selected
    ensures isMutable ==> (next == Some(i) <==> selected != Some(i))
    ensures next == selected || next == None || next == Some(i)
  {
    if !isMutable then selected else if selected == Some(i) then None else Some(i)
  }

  /** Tapping an editable cell twice restores a selection that was empty or
    * that cell. */
  lemma ToggleTwice(selected: Option<nat>, i: nat)
    requires selected == None || selected == Some(i)
    ensures Toggle(Toggle(selected, i, true), i, true) == selected
  {
  }

  /** Taps never select a fixed cell. */
  lemma ToggleKeepsEditable(selected: Option<nat>, i: nat, mask: seq<bool>)
    requires i < |mask|
    requires selected.Some? ==> selected.value < |mask| && mask[selected.value]
    ensures var next := Toggle(selected, i, mask[i]);
            next.Some? ==> next.value < |mask| && mask[next.value]
  {
  }

  // ---------------------------------------------------------------------
  // The board
  // ---------------------------------------------------------------------

  class Board {
    /** Cell values, entry 9 * g + k for cell k of sub-grid g. */
    const values: array<int>
    /** The `mutable` flag of each cell; false for seeded cells. */
    const mutable: array<bool>
    /** The shared selected-cell state, by cell index. */
    var selected: Option<nat>
    /** The clues the board was seeded with. */
    ghost const clues: seq<int>

    /** The fixed cells are the seeded ones and still hold their clues, a
      * selected cell is an editable one, and when the clues are digits
      * every cell holds 0..9. */
    ghost predicate Valid()
      reads this, values, mutable
    {
      values.Length == 81 && mutable.Length == 81 &&
      |clues| <= 27 &&
      mutable[..] == SeedMask(|clues|) &&
      (forall i :: 0 <= i < 81 && !mutable[i] ==> values[i] == Seeded(clues)[i]) &&
      (InDigitRange(clues) ==> forall i :: 0 <= i < 81 ==> 0 <= values[i] <= 9) &&
      (selected.Some? ==> selected.value < 81 && mutable[selected.value])
    }

    /** The board of makeScreen: 81 empty editable cells, then the seeding
      * loop, which writes the clues three at a time into the top rows of
      * sub-grids 0, 1, 2, ... and makes those cells fixed. No clues (a
      * null list) leaves the board empty. */
    constructor(initialBoard: Option<seq<int>>)
      requires initialBoard.Some? ==> |initialBoard.value| <= 27
      ensures Valid()
      ensures clues == (if initialBoard.Some? then initialBoard.value else [])
      ensures values[..] == Seeded(clues) && mutable[..] == SeedMask(|clues|)
      ensures selected == None
      ensures fresh(values) && fresh(mutable)
    {
      var cl := if initialBoard.Some? then initialBoard.value else [];
      var vs := new int[81](_ => 0);
      var ms := new bool[81](_ => true);
      assert vs[..] == Seeded(cl[..0]);
      assert ms[..] == SeedMask(0);
      var countSubGrid, countCell := 0, 0;
      if initialBoard.Some? {
        for k := 0 to |cl|
          invariant countSubGrid == k / 3 && countCell == k % 3
          invariant vs[..] == Seeded(cl[..k]) && ms[..] == SeedMask(k)
        {
          SeedStep(cl, k);
          vs[9 * countSubGrid + countCell] := cl[k];
          ms[9 * countSubGrid + countCell] := false;
          countCell := (countCell + 1) % 3;
          countSubGrid := countSubGrid + if countCell == 0 then 1 else 0;
        }
      }
      assert cl[..|cl|] == cl;
      values, mutable, clues, selected := vs, ms, cl, None;
      SeededInRange(cl);
    }

    /** setV: writes the value, with no check of the `mutable` flag. */
    method SetV(i: int, v: int)
      requires 0 <= i < values.Length
      modifies values
      ensures values[..] == old(values[..])[i := v]
    {
      values[i] := v;
    }

    /** A tap on cell i. */
    method Tap(i: nat)
      requires Valid() && i < 81
      modifies this`selected
      ensures Valid()
      ensures selected == Toggle(old(selected), i, mutable[i])
    {
      ToggleKeepsEditable(selected, i, mutable[..]);
      selected := Toggle(selected, i, mutable[i]);
    }

    /** The digit button `ind`: writes its digit into the selected cell, if
      * any. Only editable cells are ever selected, so fixed cells keep their
      * clues. */
    method Press(ind: int)
      requires Valid() && 0 <= ind < |Buttons|
      modifies values
      ensures Valid() && selected == old(selected)
      ensures selected.None? ==> values[..] == old(values[..])
      ensures selected.Some? ==> values[..] == old(values[..])[selected.value := Buttons[ind]]
      ensures forall i :: 0 <= i < 81 && !mutable[i] ==> values[i] == old(values[i])
    {
      match selected {
        case Some(i) => SetV(i, Buttons[ind]);
        case None =>
      }
    }

    /** Clear Puzzle: empties every editable cell, sub-grid by sub-grid; this
      * gives back the board as it was seeded. */
    method Clear()
      requires Valid()
      modifies values
      ensures Valid() && selected == old(selected)
      ensures values[..] == Cleared(old(values[..]), mutable[..], 81)
      ensures values[..] == Seeded(clues)
    {
      for sgrid := 0 to 9
        invariant values[..] == Cleared(old(values[..]), mutable[..], 9 * sgrid)
      {
        for cell := 0 to 9
          invariant values[..] == Cleared(old(values[..]), mutable[..], 9 * sgrid + cell)
        {
          if mutable[9 * sgrid + cell] {
            SetV(9 * sgrid + cell, 0);
          }
        }
      }
      ClearedIsSeeded(old(values[..]), clues);
      SeededInRange(clues);
    }

    /** The win check run on every recomposition: assertBoard on the cells.
      * With digit clues it says exactly whether the board is a solved
      * Sudoku. */
    method CheckSolved() returns (win: bool)
      requires Valid()
      ensures win == Solved(Grid(values[..]))
      ensures InDigitRange(clues) ==> (win <==> ValidSolution(RowMajor(Grid(values[..]))))
    {
      win := AssertBoard(Grid(values[..]));
      if InDigitRange(clues) {
        GridInDigitRange(values[..]);
        SolvedIffValidSolution(Grid(values[..]));
      }
    }
  }

  /** Seeding digit clues leaves every cell in 0..9. */
  lemma SeededInRange(clues: seq<int>)
    requires |clues| <= 27
    ensures InDigitRange(clues) ==> forall i :: 0 <= i < 81 ==> 0 <= Seeded(clues)[i] <= 9
  {
    if InDigitRange(clues) {
      forall i | 0 <= i < 81 ensures 0 <= Seeded(clues)[i] <= 9 {
        if IsClueSlot(i, |clues|) {
          assert clues[ClueOf(i)] in clues;
        }
      }
    }
  }
}
