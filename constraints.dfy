/** The Sudoku rules as the solver applies them: the digits still free in a
    row, a column and a 3x3 box, the candidate set of a cell (their
    intersection), and what it means for a board to break no rule. The scans
    look at all nine cells of the row, column or box, the target cell
    included. */
module Constraints {
  import opened Board

  const Digits: set<int> := {1, 2, 3, 4, 5, 6, 7, 8, 9}

  /** The first row (or column) of the 3x3 box that holds row (or column) x. */
  function BoxStart(x: int): (s: int)
    requires 0 <= x < 9
    ensures s in {0, 3, 6} && s <= x < s + 3
  {
    (x / 3) * 3
  }

  predicate InRow(g: Grid, r: int, d: int)
    requires WellFormed(g) && 0 <= r < 9
  {
    exists j :: 0 <= j < 9 && g[r][j] == d
  }

  predicate InColumn(g: Grid, c: int, d: int)
    requires WellFormed(g) && 0 <= c < 9
  {
    exists i :: 0 <= i < 9 && g[i][c] == d
  }

  predicate InBox(g: Grid, r: int, c: int, d: int)
    requires WellFormed(g) && 0 <= r < 9 && 0 <= c < 9
  {
    exists i, j :: BoxStart(r) <= i < BoxStart(r) + 3 && BoxStart(c) <= j < BoxStart(c) + 3 && g[i][j] == d
  }

  /** The digits 1..9 that occur nowhere in row r. */
  function RowCandidates(g: Grid, r: int): set<int>
    requires WellFormed(g) && 0 <= r < 9
  {
    set d | d in Digits && !InRow(g, r, d)
  }

  /** The digits 1..9 that occur nowhere in column c. */
  function ColumnCandidates(g: Grid, c: int): set<int>
    requires WellFormed(g) && 0 <= c < 9
  {
    set d | d in Digits && !InColumn(g, c, d)
  }

  /** The digits 1..9 that occur nowhere in the box holding cell (r, c). */
  function BoxCandidates(g: Grid, r: int, c: int): set<int>
    requires WellFormed(g) && 0 <= r < 9 && 0 <= c < 9
  {
    set d | d in Digits && !InBox(g, r, c, d)
  }

  /** The candidate digits of cell (r, c): those free in its row, its column and its box. */
  function Candidates(g: Grid, r: int, c: int): (s: set<int>)
    requires WellFormed(g) && 0 <= r < 9 && 0 <= c < 9
    ensures s <= Digits
    ensures forall d :: d in s <==> d in Digits && !InRow(g, r, d) && !InColumn(g, c, d) && !InBox(g, r, c, d)
  {
    ColumnCandidates(g, c) * RowCandidates(g, r) * BoxCandidates(g, r, c)
  }

  /** Two distinct cells that share a row, a column or a box. */
  predicate Peers(i: int, j: int, k: int, l: int) {
    (i != k || j != l) && (i == k || j == l || (i / 3 == k / 3 && j / 3 == l / 3))
  }

  /** No filled cell repeats the value of one of its peers. */
  predicate Consistent(g: Grid)
    requires WellFormed(g)
  {
    forall i, j, k, l ::
      0 <= i < 9 && 0 <= j < 9 && 0 <= k < 9 && 0 <= l < 9 && Peers(i, j, k, l) && g[i][j] != 0 ==>
        g[i][j] != g[k][l]
  }

  /** A solved Sudoku: every cell a digit 1..9, no row, column or box with a repeat. */
  predicate IsValidSolution(g: Grid)
    requires WellFormed(g)
  {
    IsFull(g) && InRange(g) && Consistent(g)
  }

  /** A peer of (r, c) lies in its row, its column or its box. */
  lemma PeerIsScanned(r: int, c: int, k: int, l: int)
    requires 0 <= r < 9 && 0 <= c < 9 && 0 <= k < 9 && 0 <= l < 9 && Peers(r, c, k, l)
    ensures k == r || l == c ||
      (BoxStart(r) <= k < BoxStart(r) + 3 && BoxStart(c) <= l < BoxStart(c) + 3)
  {
  }

  /** Placing a candidate digit on an empty cell of a consistent board keeps it
      consistent and keeps every cell in 0..9. */
  lemma PlacementKeepsConsistent(g: Grid, r: int, c: int, d: int)
    requires WellFormed(g) && 0 <= r < 9 && 0 <= c < 9 && g[r][c] == 0
    requires d in Candidates(g, r, c)
    requires Consistent(g)
    ensures Consistent(Update(g, r, c, d))
    ensures InRange(g) ==> InRange(Update(g, r, c, d))
  {
    var h := Update(g, r, c, d);
    forall i, j, k, l |
      0 <= i < 9 && 0 <= j < 9 && 0 <= k < 9 && 0 <= l < 9 && Peers(i, j, k, l) && h[i][j] != 0
      ensures h[i][j] != h[k][l]
    {
      if i == r && j == c {
        PeerIsScanned(r, c, k, l);
        assert h[k][l] == g[k][l];
        if k == r {
          assert !InRow(g, r, d);
        } else if l == c {
          assert !InColumn(g, c, d);
        } else {
          assert !InBox(g, r, c, d);
        }
      } else if k == r && l == c {
        assert Peers(r, c, i, j);
        PeerIsScanned(r, c, i, j);
        assert h[i][j] == g[i][j];
        if i == r {
          assert !InRow(g, r, d);
        } else if j == c {
          assert !InColumn(g, c, d);
        } else {
          assert !InBox(g, r, c, d);
        }
      } else {
        assert h[i][j] == g[i][j] && h[k][l] == g[k][l];
      }
    }
  }

  /** A digit that a consistent solution extending `g` holds at an empty cell
      (r, c) of `g` is one of that cell's candidates. */
  lemma SolutionDigitIsCandidate(g: Grid, h: Grid, r: int, c: int)
    requires WellFormed(g) && WellFormed(h) && IsValidSolution(h)
    requires forall i, j :: 0 <= i < 9 && 0 <= j < 9 && g[i][j] != 0 ==> h[i][j] == g[i][j]
    requires 0 <= r < 9 && 0 <= c < 9 && g[r][c] == 0
    ensures h[r][c] in Candidates(g, r, c)
  {
    var d := h[r][c];
    assert d in Digits;
    if InRow(g, r, d) {
      var j :| 0 <= j < 9 && g[r][j] == d;
      assert Peers(r, c, r, j);
    }
    if InColumn(g, c, d) {
      var i :| 0 <= i < 9 && g[i][c] == d;
      assert Peers(r, c, i, c);
    }
    if InBox(g, r, c, d) {
      var i, j :| BoxStart(r) <= i < BoxStart(r) + 3 && BoxStart(c) <= j < BoxStart(c) + 3 && g[i][j] == d;
      assert Peers(r, c, i, j);
    }
  }

  /** A board can be full and still break the rules: fullness says nothing of consistency. */
  lemma FullIsNotValid()
    ensures var g := seq(9, _ => seq(9, _ => 1));
      WellFormed(g) && IsFull(g) && !Consistent(g)
  {
    var g := seq(9, _ => seq(9, _ => 1));
    assert Peers(0, 0, 0, 1) && g[0][0] == g[0][1] == 1;
  }
}
