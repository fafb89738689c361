# Sudoku backtracking solver: a Dafny model

This project models `SudokuSolver` from `SudokuSolve.py`: a depth-first backtracking
solver for 9x9 Sudoku boards. A board is nine rows of nine integers, and 0 marks an
empty cell. `solve` works on the board in place. It finds the first empty cell in
row-major order and computes that cell's candidates. The candidates are the digits
1..9 missing from the cell's row, its column and its 3x3 box. `solve` writes each
candidate in turn and recurses; the model assumes the candidates are tried in
ascending order. It returns at once when the recursion leaves a board with no zeros. Otherwise it resets the cell to 0 and returns the board.
A board that still has a zero is the only sign of failure.

The project has four modules:

- `Board` (`board.dfy`) is the board as a value (`Grid`, nine rows of nine `int`s).
  - `Snapshot` reads the contents of a mutable `array2<int>` board.
  - `Update` writes one cell.
  - `IsFull` is true when no cell is 0.
  - `FirstUnfilled` gives the first 0 cell in row-major order.
  - `ZeroCount` counts the empty cells.
- `Constraints` (`constraints.dfy`) holds the rules.
  - The sets of digits still free in a row, a column and a box (`RowCandidates`,
    `ColumnCandidates`, `BoxCandidates`) and their intersection (`Candidates`).
  - `Consistent` says that no filled cell repeats the value of a cell in its row,
    column or box. `IsValidSolution` means full, every cell in 0..9, and consistent.
- `Search` (`search.dfy`) describes what the recursion returns, as a function of the
  input board. `Completion` is `solve` and `TryEach` is its candidate loop. The lemmas
  state what that result is: givens kept, full or unchanged, sound, complete, idempotent.
- `SudokuSolver` (`solver.dfy`) holds the solver's procedures as methods over a
  mutable `array2<int>`.
  - The helpers that only read the board use the same loops as `SudokuSolve.py`.
    Each is proved to return the matching function of `Board` or `Constraints`.
  - `Solve` changes the board in place. It is proved to leave exactly
    `Completion` of its input on the board, and to return that same board.

The model follows the code where the system's design documentation says otherwise:

- `is_solution` only checks that no cell is 0 (`SudokuSolve.py:60-66`). The design
  documentation wants it to check the rows, columns and boxes too. The model follows
  the code. `Constraints.FullIsNotValid` and `Search.InconsistentBoardAccepted` show
  the consequence: a full board that breaks the rules passes the test, and `solve`
  returns it unchanged. That is why `Search.SolvedIsValid` requires consistent givens.
- The row, column and box scans include the target cell. The design documentation
  says that cell is skipped. `solve` only calls the scans on an empty cell, and an
  empty cell holds 0, which is never a candidate. So the search itself behaves the same.
- The design documentation mentions a puzzle generator and progress callbacks. Neither is in
  the code (see Left out).

Loop order: `solve` iterates over a Python set, whose order comes from hashing.
For small sets it is not always ascending: `{3, 8}` iterates 8 before 3. The model
assumes ascending order and makes it explicit (`Search.Ascending`).

## Model

| member | source | states |
|---|---|---|
| `SudokuSolver.Solve` | SudokuSolve.py:4-17 | Returns the board it was given, having changed it to exactly `Completion` of its input. Termination uses the number of empty cells. |
| `SudokuSolver.TryCandidates` | SudokuSolve.py:9-17 | For each digit in turn: write it on the empty cell and search on. Return at the first full board. If none gives one, reset the cell to 0; the board then equals `TryEach` of the input board. |
| `SudokuSolver.SetCell` | SudokuSolve.py:11-16 | The assignment `board[row][col] = value`: afterwards the board is its old contents with that one cell replaced. |
| `SudokuSolver.GetValidNumbers` | SudokuSolve.py:20-25 | Returns exactly `Candidates` of the cell: the intersection of its column, row and box sets. |
| `SudokuSolver.GetValidNumbersInRow` | SudokuSolve.py:28-34 | Starts from {1..9}, removes every value met in the row, and returns exactly `RowCandidates` of the row: the digits 1..9 absent from it. |
| `SudokuSolver.GetValidInColumn` | SudokuSolve.py:37-44 | Returns exactly `ColumnCandidates` of the column: the digits 1..9 absent from cells `board[i][col]`, i = 0..8. |
| `SudokuSolver.GetValidInSquare` | SudokuSolve.py:47-57 | Scans rows `(row/3)*3 .. +2` and columns `(col/3)*3 .. +2`. Returns exactly `BoxCandidates` of the cell: the digits 1..9 absent from that box. |
| `SudokuSolver.IsSolution` | SudokuSolve.py:60-66 | True if and only if no cell of the 9x9 board holds 0. The digits are not compared with each other. |
| `SudokuSolver.GetFirstUnfilledSquare` | SudokuSolve.py:69-74 | Returns the same value as `FirstUnfilled` of the board: the first 0 cell in row-major order, or None on a full board. |
| `Board.FirstUnfilled` | SudokuSolve.py:69-74 | None if and only if the board is full. When it returns (r, c): `g[r][c] == 0`, and every cell before (r, c) in row-major order is non-zero. |
| `Board.FirstUnfilledFrom` | SudokuSolve.py:71-74 | The same guarantee for a scan resumed at a given row and column, covering only the cells from there on. |
| `Board.FirstUnfilledSoleZero` | SudokuSolve.py:69-74 | On a board whose only 0 is at (r, c), the scan returns exactly (r, c). |
| `Board.ZeroCountFill` | SudokuSolve.py:11-12 | Writing a non-zero digit into an empty cell leaves exactly one empty cell fewer. So each recursive call has strictly fewer zeros than its caller. |
| `Constraints.BoxStart` | SudokuSolve.py:50-51 | `(x // 3) * 3` is 0, 3 or 6, and the box starting there contains row (or column) x. |
| `Constraints.Candidates` | SudokuSolve.py:20-25 | The candidate set is a subset of {1..9}. A digit is in it if and only if it occurs nowhere in the cell's row, column or box. |
| `Constraints.PlacementKeepsConsistent` | SudokuSolve.py:8-11 | Writing a candidate into an empty cell of a consistent board keeps the board consistent, and keeps every cell in 0..9. |
| `Constraints.SolutionDigitIsCandidate` | SudokuSolve.py:20-25 | If a solved Sudoku keeps the givens of a board, its digit at each empty cell is among that cell's candidates. |
| `Constraints.FullIsNotValid` | SudokuSolve.py:60-66 | The fullness test says nothing about the rules: the all-ones board is full and not consistent. |
| `Search.AscendingFrom` | SudokuSolve.py:10 | Lists exactly the members of the set between k and 9, strictly ascending. |
| `Search.Ascending` | SudokuSolve.py:10 | The order in which candidates are tried: exactly the set's members in 1..9, strictly ascending, and empty for the empty set. |
| `Search.Completion` | SudokuSolve.py:4-17 | The result is full or equal to the input. A full input comes back unchanged. Every non-zero given is kept. |
| `Search.TryEach` | SudokuSolve.py:9-17 | The candidate loop's result is full or equal to its input board (every trial rolled back to 0), and it keeps every given. |
| `Search.CompletionIdempotent` | SudokuSolve.py:5-6 | Solving the solver's own result again changes nothing. |
| `Search.CompletionSound` | SudokuSolve.py:8-14 | If the input is consistent and in 0..9, so is the result: each placed digit was legal when it was placed. |
| `Search.TryEachSound` | SudokuSolve.py:10-14 | The same for the candidate loop when every digit it tries is a candidate of the cell. |
| `Search.CompletionInRange` | SudokuSolve.py:8-16 | Every board in 0..9 gives a result in 0..9, even when its givens clash: the search only writes candidates 1..9 and the reset value 0. |
| `Search.TryEachInRange` | SudokuSolve.py:10-16 | The same for the candidate loop whose digits are all in 1..9. |
| `Search.SolvedIsValid` | SudokuSolve.py:4-17 | With consistent givens in 0..9, a full result is a valid Sudoku (no repeat in any row, column or box) that keeps every given. |
| `Search.CompletionComplete` | SudokuSolve.py:4-17 | The search is complete: if any solved Sudoku keeps the givens, the result is full. |
| `Search.TryEachComplete` | SudokuSolve.py:10-14 | The candidate loop ends full when it will try the digit of some solved Sudoku that keeps the givens. |
| `Search.FailureLeavesInput` | SudokuSolve.py:16-17 | If the result is not full, the board is exactly the input and no solved Sudoku keeps its givens. |
| `Search.InconsistentBoardAccepted` | SudokuSolve.py:5-6 | A full board that breaks the rules is returned unchanged and passes the fullness test. |

## Left out

- `SudokuGui.py` is not part of this model. It is the tkinter window: the widgets,
  the input filter, reading the entries into a list, and showing the result.
- A puzzle generator: none exists in the code. The "Random Game" button only clears
  the widgets.
- Progress callbacks and threads: none exist in the code.
- `check_board_validity` (`SudokuSolve.py:76-77`) has an empty body and does nothing.
- Boards that are not 9x9: every operation requires a 9x9 board. The Python code
  would index such lists differently or raise an index error.
- Python's set iteration order is fixed as ascending. Hash ordering is not modelled.
  `Completion` and `Solve`'s "exactly `Completion`" therefore name the first
  completion in ascending candidate order. When a puzzle has several completions,
  the program may return a different one. Success or failure, kept givens,
  soundness, range and completeness do not depend on the order.
- Rows are assumed to be distinct lists. An `array2` cannot represent a Python board
  whose rows are one shared list (`[[0]*9]*9`), where one write changes a whole
  column. The shown callers build one fresh list per row.
- Python's recursion limit is not modelled. The recursion is at most 81 calls deep.
- The candidate loop of `solve` is modelled as its own method,
  `TryCandidates`, so that each proof stays small. The behaviour is the same as one
  method holding the loop. In particular, the same board object is returned and
  updated in place.
