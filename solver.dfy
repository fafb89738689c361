/** The solver itself: a group of procedures over a mutable 9x9 board.
    The read-only scans build their answer step by step, as the loops in
    SudokuSolve.py do, and are proved to return the value of the matching
    function of Board or Constraints; `Solve` fills the board in place by
    depth-first search and is proved to leave exactly `Search.Completion` of
    its input. */
module SudokuSolver {
  import opened Board
  import opened Constraints
  import opened Search

  /** Depth-first search on the first empty cell, trying its candidates in
      ascending order (the order this model fixes), stopping at the first
      full board and resetting the cell to 0 when every candidate fails.
      Returns the board it was given. */
  method Solve(board: array2<int>) returns (solved: array2<int>)
    requires board.Length0 == 9 && board.Length1 == 9
    modifies board
    ensures solved == board
    ensures Snapshot(board) == Completion(old(Snapshot(board)))
    decreases ZeroCount(Snapshot(board)), 1
  {
    ghost var g := Snapshot(board);
    var full := IsSolution(board);
    if full {
      return board;
    }
    var first := GetFirstUnfilledSquare(board);
    var (row, col) := first.value;
    var possibleSolutions := GetValidNumbers(board, row, col);
    CompletionStep(g, row, col, possibleSolutions);
    var numbers := [];
    if possibleSolutions != {} {
      numbers := Ascending(possibleSolutions);
    }
    solved := TryCandidates(board, row, col, numbers, g);
  }

  /** The candidate loop of `Solve` on its empty cell (row, col): write each
      digit of `numbers` in turn and search on, return at the first full board,
      and otherwise reset the cell to 0 and return the board. */
  method TryCandidates(board: array2<int>, row: int, col: int, numbers: seq<int>, ghost g: Grid) returns (solved: array2<int>)
    requires board.Length0 == 9 && board.Length1 == 9 && 0 <= row < 9 && 0 <= col < 9
    requires Snapshot(board) == g && g[row][col] == 0
    requires forall i :: 0 <= i < |numbers| ==> 1 <= numbers[i] <= 9
    modifies board
    ensures solved == board
    ensures Snapshot(board) == TryEach(g, row, col, numbers)
    decreases ZeroCount(g), 0
  {
    ghost var current := 0;
    UpdateSame(g, row, col);
    var k := 0;
    while k < |numbers|
      invariant 0 <= k <= |numbers|
      invariant Snapshot(board) == Update(g, row, col, current)
      invariant TryEach(g, row, col, numbers[k..]) == TryEach(g, row, col, numbers)
    {
      var number := numbers[k];
      SetCell(board, row, col, number);
      UpdateOverwrite(g, row, col, current, number);
      ZeroCountFill(g, row, col, number);
      TryEachStep(g, row, col, numbers, k);
      solved := Solve(board);
      var ok := IsSolution(solved);
      if ok {
        return solved;
      }
      current := number;
      k := k + 1;
    }
    TryEachDone(g, row, col, numbers);
    SetCell(board, row, col, 0);
    UpdateOverwrite(g, row, col, current, 0);
    return board;
  }

  /** The assignment `board[row][col] = value`. */
  method SetCell(board: array2<int>, row: int, col: int, value: int)
    requires board.Length0 == 9 && board.Length1 == 9 && 0 <= row < 9 && 0 <= col < 9
    modifies board
    ensures Snapshot(board) == Update(old(Snapshot(board)), row, col, value)
  {
    ghost var g := Snapshot(board);
    board[row, col] := value;
    SameCells(Snapshot(board), Update(g, row, col, value));
  }

  /** The candidate digits of cell (row, col): those free in its column, its row and its box. */
  method GetValidNumbers(board: array2<int>, row: int, col: int) returns (valid: set<int>)
    requires board.Length0 == 9 && board.Length1 == 9 && 0 <= row < 9 && 0 <= col < 9
    ensures valid == Candidates(Snapshot(board), row, col)
  {
    var validInRow := GetValidNumbersInRow(board, row);
    var validInCol := GetValidInColumn(board, col);
    var validInSquare := GetValidInSquare(board, row, col);
    valid := validInCol * validInRow * validInSquare;
  }

  /** Start from 1..9 and remove every value met along row `row`. */
  method GetValidNumbersInRow(board: array2<int>, row: int) returns (valid: set<int>)
    requires board.Length0 == 9 && board.Length1 == 9 && 0 <= row < 9
    ensures valid == RowCandidates(Snapshot(board), row)
  {
    ghost var g := Snapshot(board);
    valid := {1, 2, 3, 4, 5, 6, 7, 8, 9};
    var j := 0;
    while j < 9
      invariant 0 <= j <= 9
      invariant forall d :: d in valid <==> d in Digits && forall y :: 0 <= y < j ==> g[row][y] != d
    {
      var item := board[row, j];
      if item in valid {
        valid := valid - {item};
      }
      j := j + 1;
    }
    assert forall d :: d in valid <==> d in RowCandidates(g, row);
  }

  /** Start from 1..9 and remove every value met down column `col`. */
  method GetValidInColumn(board: array2<int>, col: int) returns (valid: set<int>)
    requires board.Length0 == 9 && board.Length1 == 9 && 0 <= col < 9
    ensures valid == ColumnCandidates(Snapshot(board), col)
  {
    ghost var g := Snapshot(board);
    valid := {1, 2, 3, 4, 5, 6, 7, 8, 9};
    var rowIndex := 0;
    while rowIndex < 9
      invariant 0 <= rowIndex <= 9
      invariant forall d :: d in valid <==> d in Digits && forall x :: 0 <= x < rowIndex ==> g[x][col] != d
    {
      var square := board[rowIndex, col];
      if square in valid {
        valid := valid - {square};
      }
      rowIndex := rowIndex + 1;
    }
    assert forall d :: d in valid <==> d in ColumnCandidates(g, col);
  }

  /** Start from 1..9 and remove every value met in the 3x3 box holding (row, col). */
  method GetValidInSquare(board: array2<int>, row: int, col: int) returns (valid: set<int>)
    requires board.Length0 == 9 && board.Length1 == 9 && 0 <= row < 9 && 0 <= col < 9
    ensures valid == BoxCandidates(Snapshot(board), row, col)
  {
    ghost var g := Snapshot(board);
    valid := {1, 2, 3, 4, 5, 6, 7, 8, 9};
    var startX := (col / 3) * 3;
    var startY := (row / 3) * 3;
    assert startX == BoxStart(col) && startY == BoxStart(row);
    var y := startY;
    while y < startY + 3
      invariant startY <= y <= startY + 3
      invariant forall d :: d in valid <==>
        (d in Digits && forall p, q :: startY <= p < y && startX <= q < startX + 3 ==> g[p][q] != d)
    {
      ghost var before := valid;
      var x := startX;
      while x < startX + 3
        invariant startX <= x <= startX + 3
        invariant forall d :: d in valid <==> (d in before && forall q :: startX <= q < x ==> g[y][q] != d)
      {
        var squareValue := board[y, x];
        if squareValue in valid {
          valid := valid - {squareValue};
        }
        x := x + 1;
      }
      y := y + 1;
    }
    assert forall d :: d in valid <==> d in BoxCandidates(g, row, col);
  }

  /** True exactly when no cell holds 0; the digits are not checked against each other. */
  method IsSolution(board: array2<int>) returns (ok: bool)
    requires board.Length0 == 9 && board.Length1 == 9
    ensures ok == IsFull(Snapshot(board))
  {
    var i := 0;
    while i < 9
      invariant 0 <= i <= 9
      invariant forall x, y :: 0 <= x < i && 0 <= y < 9 ==> board[x, y] != 0
    {
      var j := 0;
      while j < 9
        invariant 0 <= j <= 9
        invariant forall y :: 0 <= y < j ==> board[i, y] != 0
      {
        if board[i, j] == 0 {
          assert Snapshot(board)[i][j] == 0;
          return false;
        }
        j := j + 1;
      }
      i := i + 1;
    }
    return true;
  }

  /** The first cell holding 0 in row-major order, or None on a full board. */
  method GetFirstUnfilledSquare(board: array2<int>) returns (found: Option<(int, int)>)
    requires board.Length0 == 9 && board.Length1 == 9
    ensures found == FirstUnfilled(Snapshot(board))
  {
    ghost var g := Snapshot(board);
    var rowIndex := 0;
    while rowIndex < 9
      invariant 0 <= rowIndex <= 9
      invariant forall x, y :: 0 <= x < rowIndex && 0 <= y < 9 ==> g[x][y] != 0
    {
      var colIndex := 0;
      while colIndex < 9
        invariant 0 <= colIndex <= 9
        invariant forall y :: 0 <= y < colIndex ==> g[rowIndex][y] != 0
      {
        if board[rowIndex, colIndex] == 0 {
          found := Some((rowIndex, colIndex));
          var (r, c) := FirstUnfilled(g).value;
          assert !Before(r, c, rowIndex, colIndex) && !Before(rowIndex, colIndex, r, c);
          return;
        }
        colIndex := colIndex + 1;
      }
      rowIndex := rowIndex + 1;
    }
    return None;
  }
}
