/** The backtracking search as a function of the board: what the solver's
    recursion returns for a given input. The solver method is proved equal to
    `Completion`; the lemmas here say what that result is. */
module Search {
  import opened Board
  import opened Constraints

  /** The members of `s` among k..9, in ascending order. */
  function AscendingFrom(s: set<int>, k: int): (ds: seq<int>)
    requires 1 <= k <= 10
    ensures forall d :: d in ds <==> d in s && k <= d <= 9
    ensures forall m, n :: 0 <= m < n < |ds| ==> ds[m] < ds[n]
    ensures s == {} ==> ds == []
    decreases 10 - k
  {
    if k == 10 then []
    else if k in s then
      var rest := AscendingFrom(s, k + 1);
      assert forall n :: 0 <= n < |rest| ==> rest[n] in rest;
      [k] + rest
    else AscendingFrom(s, k + 1)
  }

  /** The digits of `s` in ascending order: the order in which this model
      lets the solver try the candidates. */
  function Ascending(s: set<int>): (ds: seq<int>)
    ensures forall d :: d in ds <==> d in s && 1 <= d <= 9
    ensures forall m, n :: 0 <= m < n < |ds| ==> ds[m] < ds[n]
    ensures s == {} ==> ds == []
  {
    AscendingFrom(s, 1)
  }

  /** Every cell given (non-zero) in `g` holds the same value in `h`. */
  predicate KeepsGivens(g: Grid, h: Grid)
    requires WellFormed(g) && WellFormed(h)
  {
    forall i, j :: 0 <= i < 9 && 0 <= j < 9 && g[i][j] != 0 ==> h[i][j] == g[i][j]
  }

  /** What the solver leaves on board `g`: `g` itself when it is full; otherwise
      the first full board found by trying each candidate of the first empty
      cell in ascending order (the order this model fixes); otherwise `g`
      unchanged. */
  function Completion(g: Grid): (h: Grid)
    requires WellFormed(g)
    ensures WellFormed(h)
    ensures IsFull(h) || h == g
    ensures IsFull(g) ==> h == g
    ensures KeepsGivens(g, h)
    decreases ZeroCount(g), 1, 0
  {
    if IsFull(g) then g
    else
      var p := FirstUnfilled(g).value;
      var ds := Ascending(Candidates(g, p.0, p.1));
      assert forall k :: 0 <= k < |ds| ==> ds[k] in ds;
      TryEach(g, p.0, p.1, ds)
  }

  /** The candidate loop: place ds[0] on the empty cell (r, c) and search on;
      stop at the first full board, move to the next digit otherwise, and give
      back `g` when the digits run out. */
  function TryEach(g: Grid, r: int, c: int, ds: seq<int>): (h: Grid)
    requires WellFormed(g) && 0 <= r < 9 && 0 <= c < 9 && g[r][c] == 0
    requires forall k :: 0 <= k < |ds| ==> 1 <= ds[k] <= 9
    ensures WellFormed(h)
    ensures IsFull(h) || h == g
    ensures KeepsGivens(g, h)
    decreases ZeroCount(g), 0, |ds|
  {
    if ds == [] then g
    else
      ZeroCountFill(g, r, c, ds[0]);
      var s := Completion(Update(g, r, c, ds[0]));
      if IsFull(s) then s else TryEach(g, r, c, ds[1..])
  }

  /** One step of Completion on a board with an empty cell. */
  lemma CompletionStep(g: Grid, r: int, c: int, cands: set<int>)
    requires WellFormed(g) && FirstUnfilled(g) == Some((r, c))
    requires cands == Candidates(g, r, c)
    ensures 0 <= r < 9 && 0 <= c < 9 && g[r][c] == 0
    ensures forall k :: 0 <= k < |Ascending(cands)| ==> 1 <= Ascending(cands)[k] <= 9
    ensures Completion(g) == TryEach(g, r, c, Ascending(cands))
  {
    var ds := Ascending(cands);
    assert forall k :: 0 <= k < |ds| ==> ds[k] in ds;
  }

  /** One step of the candidate loop. */
  lemma TryEachStep(g: Grid, r: int, c: int, ds: seq<int>, k: int)
    requires WellFormed(g) && 0 <= r < 9 && 0 <= c < 9 && g[r][c] == 0
    requires forall i :: 0 <= i < |ds| ==> 1 <= ds[i] <= 9
    requires 0 <= k < |ds|
    ensures var s := Completion(Update(g, r, c, ds[k]));
      TryEach(g, r, c, ds[k..]) == if IsFull(s) then s else TryEach(g, r, c, ds[k + 1..])
  {
    assert ds[k..][0] == ds[k] && ds[k..][1..] == ds[k + 1..];
  }

  /** The candidate loop gives back its board when the digits run out. */
  lemma TryEachDone(g: Grid, r: int, c: int, ds: seq<int>)
    requires WellFormed(g) && 0 <= r < 9 && 0 <= c < 9 && g[r][c] == 0
    requires forall i :: 0 <= i < |ds| ==> 1 <= ds[i] <= 9
    ensures TryEach(g, r, c, ds[|ds|..]) == g
  {
  }

  /** Searching again on the solver's own result changes nothing. */
  lemma CompletionIdempotent(g: Grid)
    requires WellFormed(g)
    ensures Completion(Completion(g)) == Completion(g)
  {
  }

  /** Every digit the search places is a candidate at the moment it is placed,
      so a consistent board stays consistent and in range. */
  lemma {:induction false} CompletionSound(g: Grid)
    requires WellFormed(g) && Consistent(g) && InRange(g)
    ensures Consistent(Completion(g)) && InRange(Completion(g))
    decreases ZeroCount(g), 1, 0
  {
    if !IsFull(g) {
      var p := FirstUnfilled(g).value;
      var cands := Candidates(g, p.0, p.1);
      var ds := Ascending(cands);
      assert forall k :: 0 <= k < |ds| ==> ds[k] in ds;
      TryEachSound(g, p.0, p.1, cands, ds);
    }
  }

  lemma {:induction false} TryEachSound(g: Grid, r: int, c: int, cands: set<int>, ds: seq<int>)
    requires WellFormed(g) && Consistent(g) && InRange(g)
    requires 0 <= r < 9 && 0 <= c < 9 && g[r][c] == 0
    requires cands == Candidates(g, r, c)
    requires forall k :: 0 <= k < |ds| ==> ds[k] in cands
    ensures Consistent(TryEach(g, r, c, ds)) && InRange(TryEach(g, r, c, ds))
    decreases ZeroCount(g), 0, |ds|
  {
    if ds != [] {
      ZeroCountFill(g, r, c, ds[0]);
      PlacementKeepsConsistent(g, r, c, ds[0]);
      CompletionSound(Update(g, r, c, ds[0]));
      TryEachSound(g, r, c, cands, ds[1..]);
    }
  }

  /** The search only writes digits 1..9 and 0, so a board in 0..9 stays in
      0..9, whether or not its givens clash. */
  lemma {:induction false} CompletionInRange(g: Grid)
    requires WellFormed(g) && InRange(g)
    ensures InRange(Completion(g))
    decreases ZeroCount(g), 1, 0
  {
    if !IsFull(g) {
      var p := FirstUnfilled(g).value;
      var ds := Ascending(Candidates(g, p.0, p.1));
      assert forall k :: 0 <= k < |ds| ==> ds[k] in ds;
      TryEachInRange(g, p.0, p.1, ds);
    }
  }

  lemma {:induction false} TryEachInRange(g: Grid, r: int, c: int, ds: seq<int>)
    requires WellFormed(g) && InRange(g)
    requires 0 <= r < 9 && 0 <= c < 9 && g[r][c] == 0
    requires forall k :: 0 <= k < |ds| ==> 1 <= ds[k] <= 9
    ensures InRange(TryEach(g, r, c, ds))
    decreases ZeroCount(g), 0, |ds|
  {
    if ds != [] {
      ZeroCountFill(g, r, c, ds[0]);
      var h := Update(g, r, c, ds[0]);
      assert InRange(h);
      CompletionInRange(h);
      TryEachInRange(g, r, c, ds[1..]);
    }
  }

  /** When the givens are consistent and in range and the search fills the
      board, the result is a solved Sudoku that keeps every given. */
  lemma SolvedIsValid(g: Grid)
    requires WellFormed(g) && Consistent(g) && InRange(g)
    requires IsFull(Completion(g))
    ensures IsValidSolution(Completion(g)) && KeepsGivens(g, Completion(g))
  {
    CompletionSound(g);
  }

  /** The search is complete: if some solved Sudoku keeps the givens of `g`,
      the solver's result is full. */
  lemma {:induction false} CompletionComplete(g: Grid, h: Grid)
    requires WellFormed(g) && WellFormed(h)
    requires IsValidSolution(h) && KeepsGivens(g, h)
    ensures IsFull(Completion(g))
    decreases ZeroCount(g), 1, 0
  {
    if !IsFull(g) {
      var p := FirstUnfilled(g).value;
      var ds := Ascending(Candidates(g, p.0, p.1));
      SolutionDigitIsCandidate(g, h, p.0, p.1);
      assert h[p.0][p.1] in ds;
      assert forall k :: 0 <= k < |ds| ==> ds[k] in ds;
      TryEachComplete(g, h, p.0, p.1, ds);
    }
  }

  lemma {:induction false} TryEachComplete(g: Grid, h: Grid, r: int, c: int, ds: seq<int>)
    requires WellFormed(g) && WellFormed(h)
    requires IsValidSolution(h) && KeepsGivens(g, h)
    requires 0 <= r < 9 && 0 <= c < 9 && g[r][c] == 0
    requires forall k :: 0 <= k < |ds| ==> 1 <= ds[k] <= 9
    requires h[r][c] in ds
    ensures IsFull(TryEach(g, r, c, ds))
    decreases ZeroCount(g), 0, |ds|
  {
    ZeroCountFill(g, r, c, ds[0]);
    var s := Completion(Update(g, r, c, ds[0]));
    if !IsFull(s) {
      if ds[0] == h[r][c] {
        CompletionComplete(Update(g, r, c, ds[0]), h);
      } else {
        TryEachComplete(g, h, r, c, ds[1..]);
      }
    }
  }

  /** An unsolved result means no solved Sudoku keeps the givens, and then the
      solver hands back its input unchanged. */
  lemma FailureLeavesInput(g: Grid)
    requires WellFormed(g)
    requires !IsFull(Completion(g))
    ensures Completion(g) == g
    ensures forall h :: WellFormed(h) && IsValidSolution(h) ==> !KeepsGivens(g, h)
  {
    forall h | WellFormed(h) && IsValidSolution(h)
      ensures !KeepsGivens(g, h)
    {
      if KeepsGivens(g, h) {
        CompletionComplete(g, h);
      }
    }
  }

  /** The search trusts the givens: a full board that breaks the rules is
      handed back as it is, and then passes the fullness test. */
  lemma InconsistentBoardAccepted()
    ensures var g := seq(9, _ => seq(9, _ => 1));
      WellFormed(g) && Completion(g) == g && IsFull(Completion(g)) && !Consistent(Completion(g))
  {
    FullIsNotValid();
  }
}
