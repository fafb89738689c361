/** The 9x9 Sudoku board as a value: its shape, its cells, and the two
    whole-board scans the solver relies on (is the board filled, and where is
    its first empty cell in row-major order). */
module Board {

  /** A board: nine rows of nine integers, 0 standing for an empty cell. */
  type Grid = seq<seq<int>>

  datatype Option<T> = None | Some(value: T)

  /** The board has exactly nine rows of nine cells. */
  predicate WellFormed(g: Grid) {
    |g| == 9 && forall i :: 0 <= i < 9 ==> |g[i]| == 9
  }

  /** Every cell holds 0 (empty) or a digit 1..9. */
  predicate InRange(g: Grid)
    requires WellFormed(g)
  {
    forall i, j :: 0 <= i < 9 && 0 <= j < 9 ==> 0 <= g[i][j] <= 9
  }

  /** The contents of the mutable board `b`, row by row. */
  function Snapshot(b: array2<int>): (g: Grid)
    requires b.Length0 == 9 && b.Length1 == 9
    reads b
    ensures WellFormed(g)
    ensures forall i, j :: 0 <= i < 9 && 0 <= j < 9 ==> g[i][j] == b[i, j]
  {
    seq(9, i requires 0 <= i < 9 reads b => seq(9, j requires 0 <= j < 9 reads b => b[i, j]))
  }

  /** `g` with cell (r, c) set to `v`. */
  function Update(g: Grid, r: int, c: int, v: int): (h: Grid)
    requires WellFormed(g) && 0 <= r < 9 && 0 <= c < 9
    ensures WellFormed(h) && h[r][c] == v
    ensures forall i, j :: 0 <= i < 9 && 0 <= j < 9 && (i != r || j != c) ==> h[i][j] == g[i][j]
  {
    g[r := g[r][c := v]]
  }

  /** Writing a cell twice keeps only the second value. */
  lemma UpdateOverwrite(g: Grid, r: int, c: int, u: int, v: int)
    requires WellFormed(g) && 0 <= r < 9 && 0 <= c < 9
    ensures Update(Update(g, r, c, u), r, c, v) == Update(g, r, c, v)
  {
    SameCells(Update(Update(g, r, c, u), r, c, v), Update(g, r, c, v));
  }

  /** Writing back the value a cell already holds changes nothing. */
  lemma UpdateSame(g: Grid, r: int, c: int)
    requires WellFormed(g) && 0 <= r < 9 && 0 <= c < 9
    ensures Update(g, r, c, g[r][c]) == g
  {
    SameCells(Update(g, r, c, g[r][c]), g);
  }

  /** Two boards with the same cells are the same board. */
  lemma SameCells(a: Grid, b: Grid)
    requires WellFormed(a) && WellFormed(b)
    requires forall i, j :: 0 <= i < 9 && 0 <= j < 9 ==> a[i][j] == b[i][j]
    ensures a == b
  {
    forall i | 0 <= i < 9
      ensures a[i] == b[i]
    {
      assert forall j :: 0 <= j < 9 ==> a[i][j] == b[i][j];
    }
  }

  /** No cell of `g` is empty. */
  predicate IsFull(g: Grid)
    requires WellFormed(g)
  {
    forall i, j :: 0 <= i < 9 && 0 <= j < 9 ==> g[i][j] != 0
  }

  /** Cell (x, y) comes strictly before cell (r, c) in row-major order. */
  predicate Before(x: int, y: int, r: int, c: int) {
    x < r || (x == r && y < c)
  }

  /** Cell (x, y) is (i, j) or comes after it in row-major order. */
  predicate AtOrAfter(x: int, y: int, i: int, j: int) {
    x > i || (x == i && y >= j)
  }

  /** The row-major scan for an empty cell, resumed at row i, column j. */
  function FirstUnfilledFrom(g: Grid, i: int, j: int): (p: Option<(int, int)>)
    requires WellFormed(g) && 0 <= i <= 9 && 0 <= j <= 9
    ensures p.None? <==>
      forall x, y :: 0 <= x < 9 && 0 <= y < 9 && AtOrAfter(x, y, i, j) ==> g[x][y] != 0
    ensures p.Some? ==>
      var (r, c) := p.value;
      0 <= r < 9 && 0 <= c < 9 && AtOrAfter(r, c, i, j) && g[r][c] == 0 &&
      forall x, y :: 0 <= x < 9 && 0 <= y < 9 && AtOrAfter(x, y, i, j) && Before(x, y, r, c) ==> g[x][y] != 0
    decreases 9 - i, 9 - j
  {
    if i == 9 then None
    else if j == 9 then FirstUnfilledFrom(g, i + 1, 0)
    else if g[i][j] == 0 then Some((i, j))
    else FirstUnfilledFrom(g, i, j + 1)
  }

  /** The first empty cell of `g` in row-major order, or None when `g` is full. */
  function FirstUnfilled(g: Grid): (p: Option<(int, int)>)
    requires WellFormed(g)
    ensures p.None? <==> IsFull(g)
    ensures p.Some? ==>
      var (r, c) := p.value;
      0 <= r < 9 && 0 <= c < 9 && g[r][c] == 0 &&
      forall x, y :: 0 <= x < 9 && 0 <= y < 9 && Before(x, y, r, c) ==> g[x][y] != 0
  {
    FirstUnfilledFrom(g, 0, 0)
  }

  /** On a board whose only empty cell is (r, c), the scan finds exactly (r, c). */
  lemma FirstUnfilledSoleZero(g: Grid, r: int, c: int)
    requires WellFormed(g) && 0 <= r < 9 && 0 <= c < 9 && g[r][c] == 0
    requires forall i, j :: 0 <= i < 9 && 0 <= j < 9 && (i != r || j != c) ==> g[i][j] != 0
    ensures FirstUnfilled(g) == Some((r, c))
  {
    var (x, y) := FirstUnfilled(g).value;
    assert x == r && y == c;
  }

  /** The number of empty cells in one row. */
  function CountZeros(s: seq<int>): nat {
    if s == [] then 0 else (if s[0] == 0 then 1 else 0) + CountZeros(s[1..])
  }

  /** The number of empty cells on the board. */
  function ZeroCount(g: Grid): nat {
    if g == [] then 0 else CountZeros(g[0]) + ZeroCount(g[1..])
  }

  lemma {:induction false} CountZerosFill(s: seq<int>, c: int, v: int)
    requires 0 <= c < |s| && s[c] == 0 && v != 0
    ensures CountZeros(s[c := v]) == CountZeros(s) - 1
  {
    if c == 0 {
      assert s[c := v][1..] == s[1..];
    } else {
      CountZerosFill(s[1..], c - 1, v);
      assert s[c := v][1..] == s[1..][c - 1 := v];
    }
  }

  /** Filling an empty cell with a non-zero value leaves one empty cell fewer. */
  lemma {:induction false} ZeroCountFill(g: Grid, r: int, c: int, v: int)
    requires WellFormed(g) && 0 <= r < 9 && 0 <= c < 9 && g[r][c] == 0 && v != 0
    ensures ZeroCount(Update(g, r, c, v)) == ZeroCount(g) - 1
  {
    RowFill(g, r, c, v);
  }

  lemma {:induction false} RowFill(g: Grid, r: int, c: int, v: int)
    requires 0 <= r < |g| && 0 <= c < |g[r]| && g[r][c] == 0 && v != 0
    ensures ZeroCount(g[r := g[r][c := v]]) == ZeroCount(g) - 1
  {
    var h := g[r := g[r][c := v]];
    if r == 0 {
      CountZerosFill(g[0], c, v);
      assert h[1..] == g[1..];
    } else {
      RowFill(g[1..], r - 1, c, v);
      assert h[1..] == g[1..][r - 1 := g[1..][r - 1][c := v]];
    }
  }
}
