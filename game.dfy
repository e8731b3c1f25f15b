/**
 * The puzzle state the program keeps at module level: the board being
 * played, the generated puzzle it started from, and (second program variant)
 * which cells the solver filled. The arrays are never replaced, only
 * changed in place, so they are constant fields here.
 */
module Game {
  import opened Grid
  import opened Engine
  import opened Generator

  class Sudoku {
    const board: array2<int>
    const original: array2<int>
    const solved: array2<bool>

    predicate Valid() {
      Is9x9(board) && Is9x9(original) && solved.Length0 == 9 && solved.Length1 == 9 && board != original
    }

    /** All three grids start out empty. */
    constructor ()
      ensures Valid() && fresh(board) && fresh(original) && fresh(solved)
      ensures forall r, c :: InRange(r, c) ==> board[r, c] == 0 && original[r, c] == 0 && !solved[r, c]
    {
      board := new int[9, 9]((r, c) => 0);
      original := new int[9, 9]((r, c) => 0);
      solved := new bool[9, 9]((r, c) => false);
    }

    /** Empty every cell and unmark every solved cell. */
    method ClearBoard()
      requires Valid()
      modifies board, solved
      ensures forall r, c :: InRange(r, c) ==> board[r, c] == 0 && !solved[r, c]
    {
      for i := 0 to 9
        invariant forall r, c :: 0 <= r < i && 0 <= c < 9 ==> board[r, c] == 0 && !solved[r, c]
      {
        for j := 0 to 9
          invariant forall r, c :: InRange(r, c) && Before(r, c, i, j) ==> board[r, c] == 0 && !solved[r, c]
        {
          board[i, j] := 0;
          solved[i, j] := false;
        }
      }
    }

    /**
     * Make a new puzzle: clear, seed the diagonal boxes from the samples,
     * complete the board, empty Removals(d) cells, and keep a copy of the
     * result as the puzzle's givens. The ghost results say whether the
     * completion succeeded and which complete board the puzzle was cut from.
     */
    method GeneratePuzzle(d: Difficulty, perms: seq<seq<int>>) returns (ghost filled: bool, ghost full: Grid)
      requires Valid() && ValidSamples(perms)
      modifies board, original, solved
      ensures Cells(original) == Cells(board)
      ensures forall r, c :: InRange(r, c) ==> !solved[r, c]
      ensures Partial(Cells(board))
      ensures filled ==> IsSolution(full) && EveryUnitIsPermutation(full)
      ensures filled ==> HasSeededBoxes(full, perms)
      ensures filled ==> Extends(full, Cells(board)) && ZeroCount(Cells(board)) == Removals(d)
      ensures filled ==> Solvable(Cells(board))
      ensures !filled ==> DiagonalSeeded(Cells(board), perms)
      ensures !filled ==> forall s :: IsSolution(s) ==> !HasSeededBoxes(s, perms)
    {
      ClearBoard();
      filled, full := BuildPuzzle(board, d, perms);
      StoreOriginal();
    }

    /** Keep a copy of the new puzzle as its givens and unmark every solved cell. */
    method StoreOriginal()
      requires Valid()
      modifies original, solved
      ensures Cells(original) == Cells(board)
      ensures forall r, c :: InRange(r, c) ==> !solved[r, c]
    {
      for i := 0 to 9
        invariant forall r, c :: 0 <= r < i && 0 <= c < 9 ==> original[r, c] == board[r, c] && !solved[r, c]
      {
        for j := 0 to 9
          invariant forall r, c :: InRange(r, c) && Before(r, c, i, j) ==> original[r, c] == board[r, c] && !solved[r, c]
        {
          original[i, j] := board[i, j];
          solved[i, j] := false;
        }
      }
      GridExt(Cells(original), Cells(board));
    }

    /** Put the puzzle's givens back on the board and unmark every solved cell. */
    method ResetBoard()
      requires Valid()
      modifies board, solved
      ensures Cells(board) == Cells(original)
      ensures forall r, c :: InRange(r, c) ==> !solved[r, c]
    {
      for i := 0 to 9
        invariant forall r, c :: 0 <= r < i && 0 <= c < 9 ==> board[r, c] == original[r, c] && !solved[r, c]
      {
        for j := 0 to 9
          invariant forall r, c :: InRange(r, c) && Before(r, c, i, j) ==> board[r, c] == original[r, c] && !solved[r, c]
        {
          board[i, j] := original[i, j];
          solved[i, j] := false;
        }
      }
      GridExt(Cells(board), Cells(original));
    }

    /**
     * The solver of the second program variant: the same search as Solve,
     * and every cell it fills is marked solved until it is emptied again.
     * The redraws it triggers on each placement and retraction are left out.
     */
    method SolveWithAnimation() returns (ok: bool)
      requires Valid()
      modifies board, solved
      ensures SolverOutcome(old(Cells(board)), Cells(board), ok)
      ensures ok ==> forall r, c :: InRange(r, c) && old(board[r, c]) == 0 ==> solved[r, c]
      ensures forall r, c :: InRange(r, c) && old(board[r, c]) != 0 ==> solved[r, c] == old(solved[r, c])
      ensures !ok ==> forall r, c :: InRange(r, c) ==> solved[r, c] == old(solved[r, c]) || !solved[r, c]
      decreases ZeroCount(Cells(board)), 1
    {
      var empty := FindEmpty(board);
      if empty.None? {
        assert Completes(Cells(board), Cells(board));
        return true;
      }
      var (row, col) := empty.value;
      ghost var g := Cells(board);
      for num := 1 to 10
        invariant Cells(board) == g
        invariant forall v :: 1 <= v < num ==> !(Safe(g, row, col, v) && Completable(Place(g, row, col, v)))
        invariant forall r, c :: InRange(r, c) && g[r][c] != 0 ==> solved[r, c] == old(solved[r, c])
        invariant forall r, c :: InRange(r, c) ==> solved[r, c] == old(solved[r, c]) || !solved[r, c]
      {
        var safe := IsSafe(board, row, col, num);
        if safe {
          ok := TryDigit(row, col, num, g);
          if ok {
            return;
          }
        }
      }
      ExhaustedIsIncompletable(g, row, col);
      return false;
    }

    /**
     * One pass of the solver's digit loop for a digit the legality check
     * accepted: place and mark it, solve the rest, and on failure empty and
     * unmark the cell again.
     */
    method TryDigit(row: int, col: int, num: int, ghost g: Grid) returns (ok: bool)
      requires Valid() && InRange(row, col) && 1 <= num <= 9
      requires g == Cells(board) && g[row][col] == 0 && Safe(g, row, col, num)
      modifies board, solved
      ensures ok ==> NoEmpty(Cells(board)) && Completes(Cells(board), g) && Cells(board)[row][col] == num
      ensures !ok ==> Cells(board) == g && !Completable(Place(g, row, col, num))
      ensures ok ==> forall r, c :: InRange(r, c) && g[r][c] == 0 ==> solved[r, c]
      ensures forall r, c :: InRange(r, c) && g[r][c] != 0 ==> solved[r, c] == old(solved[r, c])
      ensures !ok ==> forall r, c :: InRange(r, c) ==> solved[r, c] == old(solved[r, c]) || !solved[r, c]
      decreases ZeroCount(Cells(board)), 0
    {
      SetCell(row, col, num, true);
      ghost var h := Place(g, row, col, num);
      ZeroCountPlace(g, row, col, num);
      ok := SolveWithAnimation();
      if ok {
        CompletesAfterPlace(Cells(board), g, row, col, num);
        return;
      }
      SetCell(row, col, 0, false);
      GridExt(Cells(board), g);
    }

    /** Write v into cell (row, col) and set its solved mark; nothing else changes. */
    method SetCell(row: int, col: int, v: int, mark: bool)
      requires Valid() && InRange(row, col)
      modifies board, solved
      ensures Cells(board) == Place(old(Cells(board)), row, col, v)
      ensures solved[row, col] == mark
      ensures forall r, c :: InRange(r, c) && (r != row || c != col) ==> solved[r, c] == old(solved[r, c])
    {
      ghost var g := Cells(board);
      board[row, col] := v;
      solved[row, col] := mark;
      GridExt(Cells(board), Place(g, row, col, v));
    }

    /**
     * A digit typed into the selected cell (0 for backspace or delete): it is
     * taken only when the cell is not a given of the puzzle and the digit is 0
     * or passes the legality check; a taken digit unmarks the cell as solved.
     */
    method EnterDigit(row: int, col: int, key: int) returns (accepted: bool)
      requires Valid() && InRange(row, col) && 0 <= key <= 9
      modifies board, solved
      ensures accepted <==> original[row, col] == 0 && (key == 0 || Safe(old(Cells(board)), row, col, key))
      ensures accepted ==> Cells(board) == Place(old(Cells(board)), row, col, key) && !solved[row, col]
      ensures !accepted ==> Cells(board) == old(Cells(board)) && solved[row, col] == old(solved[row, col])
      ensures forall r, c :: InRange(r, c) && (r != row || c != col) ==> solved[r, c] == old(solved[r, c])
      ensures Partial(old(Cells(board))) ==> Partial(Cells(board))
      ensures Extends(old(Cells(board)), Cells(original)) ==> Extends(Cells(board), Cells(original))
    {
      accepted := false;
      if original[row, col] == 0 {
        ghost var g := Cells(board);
        var legal := key == 0;
        if !legal {
          legal := IsSafe(board, row, col, key);
        }
        if legal {
          SetCell(row, col, key, false);
          accepted := true;
          if Partial(g) {
            if key == 0 {
              ClearKeepsPartial(g, row, col);
            } else {
              PlaceSafeKeepsPartial(g, row, col, key);
            }
          }
        }
      }
    }

    /** The Solve button: put the givens back, then run the solver on them. */
    method SolveButton() returns (ok: bool)
      requires Valid()
      modifies board, solved
      ensures SolverOutcome(Cells(original), Cells(board), ok)
      ensures Partial(Cells(original)) ==> (ok <==> Solvable(Cells(original)))
      ensures ok && Partial(Cells(original)) ==> IsSolution(Cells(board))
      ensures forall r, c :: InRange(r, c) ==> (solved[r, c] <==> ok && original[r, c] == 0)
    {
      ResetBoard();
      ok := SolveWithAnimation();
      if Partial(Cells(original)) {
        SolverOutcomeOnPartial(Cells(original), Cells(board), ok);
      }
    }
  }

  /**
   * A session in which a new puzzle is generated and the Solve button is
   * pressed: when the completion succeeded, the solver succeeds and leaves a
   * solution that keeps every given.
   */
  method GenerateThenSolve(game: Sudoku, d: Difficulty, perms: seq<seq<int>>) returns (ghost filled: bool, ok: bool)
    requires game.Valid() && ValidSamples(perms)
    modifies game.board, game.original, game.solved
    ensures filled ==> ok && IsSolution(Cells(game.board)) && Extends(Cells(game.board), Cells(game.original))
    ensures ok ==> ZeroCount(Cells(game.board)) == 0
  {
    ghost var full;
    filled, full := game.GeneratePuzzle(d, perms);
    ok := game.SolveButton();
    if ok {
      ZeroCountNoEmpty(Cells(game.board));
    }
  }
}
