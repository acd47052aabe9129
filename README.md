# SudokuBot solver, modelled in Dafny

SudokuBot reads a 9 x 9 Sudoku board from the screen, solves it, and types the
answer back into the game. This project models the solver at the centre of
`SudokuBot.run()`:

- the loop that marks the clue cells in `isFixed`;
- the cursor arithmetic `getPos`;
- the cell test `check`;
- the backtracking loop. It walks a cursor over the 81 cells in row-major order. It
  increments the cell under the cursor. On overflow past 9 it resets the cell and
  retreats to the nearest earlier cell that is not a clue. On a digit that `check`
  accepts it advances. Clue cells are skipped.

The model has three layers.

- `Sudoku` (`sudoku.dfy`) holds the board itself:
  - the constants `BOARD_SIZE = 9`, `LEVEL = 3` and 81 cells, written as integers where
    the source computes `Math.sqrt` and `Math.pow`;
  - `getPos` with Java's truncating `/` and `%`;
  - the row/column/block relation that `check` inspects;
  - what a solution of a puzzle is.
- `Backtracking` (`backtracking.dfy`) is the loop as a pure state machine over the
  row-major view of the board:
  - `Step` is one turn of the `while` body, and `Search` runs turns until the cursor
    leaves the board.
  - It proves that `Search` terminates. The measure is a base-20 number read off the
    board and the cursor.
  - No step touches a clue, and every cell that is not a clue stays in [0, 9].
  - `Search` returns the least completion of the clues in row-major order, or `None`
    exactly when the clues have no completion.
- `SudokuBot` (`sudoku_bot.dfy`) holds the same code over the mutable `int[9][9]` and
  `boolean[9][9]` arrays, as methods with loops:
  - `FixedMask` is the mask loop.
  - `Check` is `check`. Its row-and-column loop and its block loop are the methods
    `ScanLines` and `ScanBlock`.
  - `Retreat` is the `do`/`while` retreat.
  - `Advance` is one turn of the loop body. Its contract is that it computes `Step`.
  - `Backtrack` is the `while` loop. Its contract is that it computes `Search`.
  - `Solve` puts the pieces together, with two input passes the source does not have
    (see below).

`Counting` (`counting.dfy`) holds the pigeonhole facts behind "every row, column and
block of a solved board holds each digit once".

The code mishandles two kinds of input: a search that runs out of candidates, and
clues that clash. Both are recorded under "## Findings":

- **Exhausted search.** When the retreat runs past the first cell, the code evaluates
  `getPos(-1)`, which is `(0, -1)`, and throws on `isFixed[0][-1]`. The model proves
  that this point is reached and stops there with "no solution" instead (`Search`
  returns `None`, and `Backtrack` returns false with the board as it was given).
- **Clashing clues.** The code never compares the clues with each other. A board with
  clashing clues can therefore be reported as solved by the raw loop (`Search`,
  `Backtrack`) when its empty cells can still be filled without conflicting with the
  clues, for example the board of 81 ones. Otherwise the search runs out like that of
  any unsolvable puzzle. `Solve` adds two passes before the loop:
  - a range pass, which gives `InvalidInput` for any cell outside [0, 9];
  - a clue pass, which runs `check` on every clue and gives `NoSolution` on a clash.

  With both passes, `Solve` returns `Solved` exactly when the puzzle has a solution,
  and the board it returns is the least solution in row-major order. The empty puzzle
  has a solution (`EmptyGridSolvable`), so `Solve` solves the all-zero board.

## Model

| member | source | states |
|---|---|---|
| Sudoku.GetPos | src/sudokubot/SudokuBot.java:144-146 | the pair (row, column) recombines to the cursor, 9 * row + column == n; for n >= 0 it is (n / 9, n % 9), and for 0 <= n < 81 both lie in [0, 9); for n < 0 Java's truncation gives a row <= 0 and a column in (-9, 0] |
| Sudoku.GetPosIndex | src/sudokubot/SudokuBot.java:144-146 | every cell (i, j) of the board has the cursor 9 * i + j in [0, 81), and getPos maps it back to (i, j) |
| Sudoku.GetPosInjective | src/sudokubot/SudokuBot.java:144-146 | two cursors on the board with the same (row, column) are equal |
| Sudoku.GetPosBeforeFirstCell | src/sudokubot/SudokuBot.java:170-173 | the cursor -1 that the retreat reaches past the first cell decomposes to (0, -1), a column outside the board |
| Sudoku.LineClash | src/sudokubot/SudokuBot.java:128-132 | a clash found by the row-and-column loop (another cell of row i or column j holding arr[i][j]) makes cell (i, j) inconsistent |
| Sudoku.BlockClash | src/sudokubot/SudokuBot.java:133-140 | a clash found in the block whose corner is (i / 3 * 3, j / 3 * 3) makes cell (i, j) inconsistent |
| Sudoku.ScansClear | src/sudokubot/SudokuBot.java:127-142 | when neither loop finds a clash, no peer of (i, j) (same row, column or block) holds its value: the two loops visit every peer |
| Sudoku.ClashUnsolvable | src/sudokubot/SudokuBot.java:152-160 | two clues that share a row, column or block and hold the same value leave the puzzle with no solution |
| Sudoku.WitnessPeersDiffer | src/sudokubot/SudokuBot.java:127-142 | two distinct cells of the fixed witness board that share a row, column or block hold different digits |
| Sudoku.EmptyGridSolvable | src/sudokubot/SudokuBot.java:148-180 | the all-zero puzzle has a solution (the witness board), so the solver must solve it |
| Sudoku.EachDigitOnce | src/sudokubot/SudokuBot.java:127-142 | in a board where every cell passes check, every row, column and block contains each digit 1..9, and at exactly one place |
| SudokuBot.FixedMask | src/sudokubot/SudokuBot.java:152-160 | the new mask array holds true exactly at the nonzero cells of the board; the board is not written |
| SudokuBot.ScanLines | src/sudokubot/SudokuBot.java:128-132 | returns true exactly when no other cell of row i or column j holds arr[i][j]; false implies the cell is inconsistent |
| SudokuBot.ScanBlock | src/sudokubot/SudokuBot.java:133-140 | returns true exactly when no other cell of the block of (i, j) holds arr[i][j]; false implies the cell is inconsistent |
| SudokuBot.Check | src/sudokubot/SudokuBot.java:127-142 | returns true if and only if no other cell in the row, column or block of (i, j) holds the value of (i, j) |
| SudokuBot.Retreat | src/sudokubot/SudokuBot.java:170-173 | the cursor after the do-while is the nearest cell before pos that is not fixed, and -1 when every earlier cell is fixed |
| SudokuBot.Advance | src/sudokubot/SudokuBot.java:165-179 | one turn of the loop body leaves the board and cursor that Step gives for the board before it |
| SudokuBot.Backtrack | src/sudokubot/SudokuBot.java:163-180 | the loop ends; it reports success exactly when Search succeeds, then leaves Search's board in the array, and otherwise leaves the board as given |
| SudokuBot.ValuesInRange | src/sudokubot/SudokuBot.java:151 | (added pass) true exactly when every cell of the board read in is 0 or a digit |
| SudokuBot.CluesConsistent | src/sudokubot/SudokuBot.java:152-160 | (added pass) true exactly when every clue passes check |
| SudokuBot.Solve | src/sudokubot/SudokuBot.java:148-180 | InvalidInput exactly when a cell is outside [0, 9]; Solved exactly when the puzzle has a solution, with a solution that keeps every clue written into the board and no solution before it in row-major order; the board is unchanged unless solved; the mask is the clue mask |
| Backtracking.PrevFree | src/sudokubot/SudokuBot.java:170-173 | the result is at or before p, is -1 or a cell that is not fixed, and every cell strictly between it and p is fixed |
| Backtracking.Step | src/sudokubot/SudokuBot.java:165-179 | one turn changes at most the cursor cell, and only when it is not fixed; the new cursor lies in [-1, pos + 1] |
| Backtracking.StepProgress | src/sudokubot/SudokuBot.java:163-180 | a turn that does not run off the front keeps every guessed cell in [0, 9], the cells before the cursor nonzero and the cells after it zero, and strictly lowers the termination measure |
| Backtracking.Search | src/sudokubot/SudokuBot.java:163-180 | the loop terminates; a result it returns keeps every clue and holds a digit in [1, 9] in every other cell |
| Backtracking.StepConsistent | src/sudokubot/SudokuBot.java:174-176 | the cursor advances only past a digit that conflicts with no other cell, so every guessed cell before the cursor stays free of conflicts |
| Backtracking.RejectedDigit | src/sudokubot/SudokuBot.java:174 | a digit that check rejects at the cursor is not the cursor's digit in any completion that agrees with the board before the cursor |
| Backtracking.StepSkipsNothing | src/sudokubot/SudokuBot.java:165-179 | a turn passes over no completion of the clues that had not been passed over already |
| Backtracking.Exhausted | src/sudokubot/SudokuBot.java:168-173 | a retreat past the first cell happens only once every completion of the clues has been passed over |
| Backtracking.ExhaustedRestores | src/sudokubot/SudokuBot.java:168-173 | when the retreat runs past the first cell, every guessed cell is back to 0 and the board equals the input |
| Backtracking.StepKeepsSearch | src/sudokubot/SudokuBot.java:163-180 | the loop body keeps the clues and lowers the measure, and the search from the new state returns what the search from the old state returns |
| Backtracking.SearchCorrect | src/sudokubot/SudokuBot.java:163-180 | from any state satisfying the loop invariant, Search returns a completion of the clues with no completion before it in row-major order, and None only when no completion exists |
| Backtracking.SearchFromClues | src/sudokubot/SudokuBot.java:163-180 | started at cursor 0 on the clue board, Search returns the least completion, and None if and only if the clues have no completion |
| Backtracking.SolutionIsCompletion | src/sudokubot/SudokuBot.java:152-160 | every solution of the puzzle fills in the cells that the mask leaves free in a way every check accepts |
| Backtracking.CompletionIsSolution | src/sudokubot/SudokuBot.java:152-160 | when the clues are digits that agree with each other, every completion the search finds is a solution of the puzzle |
| Backtracking.SkipsToEnd | src/sudokubot/SudokuBot.java:177-179 | when every cell from the cursor on is a clue, the loop only skips forward and returns the board unchanged |
| Backtracking.FullBoardAccepted | src/sudokubot/SudokuBot.java:152-180 | a board whose every cell is nonzero is returned as solved, unchanged, whatever its clues |
| Backtracking.AllOnesAccepted | src/sudokubot/SudokuBot.java:152-180 | the board of 81 ones is returned as solved although it is not a valid Sudoku |
| Backtracking.BlockedFirstCellExhausts | src/sudokubot/SudokuBot.java:163-173 | the clues of this puzzle agree with each other, yet its first cell sees every digit, so the loop retreats past the first cell, where getPos gives a negative column |

## Left out

- The Sikuli screen code is not part of this model: `readBoard`, `readBoardInput`, the
  clicks and key presses that type the answer, and the `TILES` regions. The board is a
  parameter of `Solve` and of `Backtrack`, and the solved board is their result.
- `Pair` is a Dafny tuple.
- `Math.sqrt(BOARD_SIZE)` and `Math.pow(BOARD_SIZE, 2)` are the integer constants 3 and
  81. The floating-point comparison `pos < 81.0` agrees with the integer one for every
  cursor the loop reaches.
- Java's 32-bit `int` is modelled as Dafny's unbounded `int`. The loop keeps every cell in [0, 10] and the cursor
  in [-1, 81], so no overflow is possible.
- Backtrack: where the source throws `ArrayIndexOutOfBoundsException` on
  `isFixed[0][-1]`, the model returns false and leaves the board as given. It does not
  model the exception.
- Solve: the range pass (`ValuesInRange`) and the clue pass (`CluesConsistent`) are not
  in the source, which starts the loop on whatever board it reads.
- Check is split into the methods `ScanLines` and `ScanBlock`, one per loop. The block
  loop indexes `arr[i0 + k][j0 + l]` in the source's order.

## Findings

| source | as written | input that shows it | evidently intended | confidence | as-written member | corrected member |
|---|---|---|---|---|---|---|
| src/sudokubot/SudokuBot.java:152-180 | the clues are never checked against each other, so a board with clashing clues can be reported as solved when its empty cells can still be filled without conflicting with the clues (otherwise the search runs out like any unsolvable puzzle) | the board of 81 ones: every cell is a clue, the loop only skips forward and returns it | a board whose clues clash has no solution and is reported as such | high (not executed) | Backtracking.AllOnesAccepted | SudokuBot.Solve |
| src/sudokubot/SudokuBot.java:170-173 | when no digit fits, the retreat steps past the first cell and indexes `isFixed[0][-1]` | `BlockedFirstCell`: 0 in the first cell, 2 to 9 in the rest of the first row, 1 below the first cell, all other cells 0 | an unsolvable puzzle ends the search with "no solution" | high (not executed) | Backtracking.BlockedFirstCellExhausts | SudokuBot.Backtrack |
