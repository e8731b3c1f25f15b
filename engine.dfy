/**
 * The solving half of the engine, on the mutable 9x9 board: the legality
 * check, the row-major search for an empty cell and the backtracking solver
 * of the first program variant.
 */
module Engine {
  import opened Grid

  datatype Option<T> = None | Some(value: T)

  predicate Is9x9(b: array2<int>) {
    b.Length0 == 9 && b.Length1 == 9
  }

  /** The board's current contents as a value. */
  ghost function Cells(b: array2<int>): (g: Grid)
    requires Is9x9(b)
    reads b
    ensures IsGrid(g)
    ensures forall r, c :: InRange(r, c) ==> g[r][c] == b[r, c]
  {
    seq(9, r requires 0 <= r < 9 reads b => seq(9, c requires 0 <= c < 9 reads b => b[r, c]))
  }

  /** Cell (r, c) comes before cell (i, j) in row-major order. */
  predicate Before(r: int, c: int, i: int, j: int) {
    r < i || (r == i && c < j)
  }

  /**
   * The legality check: scans the row and the column together, then the box
   * whose top-left cell is (row - row % 3, col - col % 3), and answers false
   * at the first cell holding num.
   */
  method IsSafe(b: array2<int>, row: int, col: int, num: int) returns (safe: bool)
    requires Is9x9(b) && InRange(row, col)
    ensures safe <==> Safe(Cells(b), row, col, num)
    ensures b[row, col] == num ==> !safe
  {
    for x := 0 to 9
      invariant forall y :: 0 <= y < x ==> b[row, y] != num && b[y, col] != num
    {
      if b[row, x] == num || b[x, col] == num {
        return false;
      }
    }
    var startRow, startCol := row - row % 3, col - col % 3;
    assert startRow == 3 * Band(row) && startCol == 3 * Band(col);
    for i := 0 to 3
      invariant forall r2, c2 :: startRow <= r2 < startRow + i && startCol <= c2 < startCol + 3 ==> b[r2, c2] != num
    {
      for j := 0 to 3
        invariant forall r2, c2 :: r2 == startRow + i && startCol <= c2 < startCol + j ==> b[r2, c2] != num
      {
        if b[i + startRow, j + startCol] == num {
          assert SameBox(row, col, i + startRow, j + startCol);
          return false;
        }
      }
    }
    return true;
  }

  /** The first empty cell in row-major order, or None when no cell is empty. */
  method FindEmpty(b: array2<int>) returns (empty: Option<(int, int)>)
    requires Is9x9(b)
    ensures empty.None? <==> forall r, c :: InRange(r, c) ==> b[r, c] != 0
    ensures empty.Some? ==> InRange(empty.value.0, empty.value.1) && b[empty.value.0, empty.value.1] == 0
    ensures empty.Some? ==>
      forall r, c :: InRange(r, c) && Before(r, c, empty.value.0, empty.value.1) ==> b[r, c] != 0
  {
    for i := 0 to 9
      invariant forall r, c :: 0 <= r < i && 0 <= c < 9 ==> b[r, c] != 0
    {
      for j := 0 to 9
        invariant forall r, c :: InRange(r, c) && Before(r, c, i, j) ==> b[r, c] != 0
      {
        if b[i, j] == 0 {
          return Some((i, j));
        }
      }
    }
    return None;
  }

  /**
   * What a solver call promises about the board g0 it starts from and the
   * board g1 it leaves, given its answer ok: it succeeds exactly when the
   * empty cells of g0 can be filled with digits that clash with no peer, and
   * then g1 is such a filling; on failure the board is exactly g0.
   */
  ghost predicate SolverOutcome(g0: Grid, g1: Grid, ok: bool)
    requires IsGrid(g0) && IsGrid(g1)
  {
    (ok <==> Completable(g0)) &&
    (ok ==> NoEmpty(g1) && Completes(g1, g0)) &&
    (!ok ==> g1 == g0)
  }

  /**
   * On a legal partial board the solver succeeds exactly when the board has a
   * solution, then leaves one that keeps every given, and the board stays legal.
   */
  lemma SolverOutcomeOnPartial(g0: Grid, g1: Grid, ok: bool)
    requires IsGrid(g0) && IsGrid(g1) && SolverOutcome(g0, g1, ok) && Partial(g0)
    ensures ok <==> Solvable(g0)
    ensures ok ==> IsSolution(g1) && Extends(g1, g0)
    ensures Partial(g1)
  {
    CompletableIffSolvable(g0);
    CompletesPartial(g1, g0);
  }

  /**
   * A board with no empty cell, legal or not, makes the solver report success
   * at once and leave the board as it is.
   */
  lemma SolverOutcomeOnFull(g0: Grid, g1: Grid, ok: bool)
    requires IsGrid(g0) && IsGrid(g1) && SolverOutcome(g0, g1, ok) && NoEmpty(g0)
    ensures ok && g1 == g0
  {
    assert Completes(g0, g0);
    GridExt(g1, g0);
  }

  /**
   * The last loop step of a solver: after every digit 1-9 was either refused
   * by the legality check or led to no completion, the board has none.
   */
  lemma ExhaustedIsIncompletable(g: Grid, r: int, c: int)
    requires IsGrid(g) && InRange(r, c) && g[r][c] == 0
    requires forall v :: 1 <= v <= 9 ==> !(Safe(g, r, c, v) && Completable(Place(g, r, c, v)))
    ensures !Completable(g)
  {
    CompletableSplit(g, r, c);
  }

  /**
   * The plain recursive backtracking solver: fill the first empty cell with
   * the first digit 1-9 the legality check accepts and recurse; on failure
   * empty the cell again and try the next digit.
   */
  method Solve(b: array2<int>) returns (ok: bool)
    requires Is9x9(b)
    modifies b
    ensures SolverOutcome(old(Cells(b)), Cells(b), ok)
    decreases ZeroCount(Cells(b)), 1
  {
    var empty := FindEmpty(b);
    if empty.None? {
      assert Completes(Cells(b), Cells(b));
      return true;
    }
    var (row, col) := empty.value;
    ghost var g := Cells(b);
    for num := 1 to 10
      invariant Cells(b) == g
      invariant forall v :: 1 <= v < num ==> !(Safe(g, row, col, v) && Completable(Place(g, row, col, v)))
    {
      var safe := IsSafe(b, row, col, num);
      if safe {
        ok := TryDigit(b, row, col, num, g);
        if ok {
          return;
        }
      }
    }
    ExhaustedIsIncompletable(g, row, col);
    return false;
  }

  /**
   * One pass of the solver's digit loop for a digit the legality check
   * accepted: place it, solve the rest and, on failure, empty the cell again.
   */
  method TryDigit(b: array2<int>, row: int, col: int, num: int, ghost g: Grid) returns (ok: bool)
    requires Is9x9(b) && InRange(row, col) && 1 <= num <= 9
    requires g == Cells(b) && g[row][col] == 0 && Safe(g, row, col, num)
    modifies b
    ensures ok ==> NoEmpty(Cells(b)) && Completes(Cells(b), g) && Cells(b)[row][col] == num
    ensures !ok ==> Cells(b) == g && !Completable(Place(g, row, col, num))
    decreases ZeroCount(Cells(b)), 0
  {
    b[row, col] := num;
    ghost var h := Place(g, row, col, num);
    GridExt(Cells(b), h);
    ZeroCountPlace(g, row, col, num);
    ok := Solve(b);
    if ok {
      CompletesAfterPlace(Cells(b), g, row, col, num);
      return;
    }
    assert Cells(b) == h;
    b[row, col] := 0;
    GridExt(Cells(b), g);
  }
}
