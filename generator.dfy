/**
 * The generating half of the engine: seed the three diagonal boxes with
 * permutations of 1-9, complete the other 54 cells by backtracking in
 * row-major order, then empty as many filled cells as the difficulty asks.
 * The random sample and the random cells are inputs here: a permutation per
 * diagonal box, and a nondeterministic choice of filled cell per removal.
 */
module Generator {
  import opened Grid
  import opened Engine

  datatype Difficulty = Easy | Medium | Hard

  /** How many filled cells a new puzzle of each difficulty has emptied. */
  function Removals(d: Difficulty): (n: nat)
    ensures 20 <= n <= 40
    ensures n == 20 <==> d == Easy
  {
    match d
    case Easy => 20
    case Medium => 30
    case Hard => 40
  }

  // ---------------------------------------------------------------------------
  // Seeding the diagonal boxes

  /**
   * The value the box fill puts at offset (i, j) of its box: it pops the
   * sample from the end, so the cells read row by row get the sample reversed.
   */
  function SeedValue(perm: seq<int>, i: int, j: int): int
    requires |perm| == 9 && 0 <= i < 3 && 0 <= j < 3
  {
    perm[8 - (3 * i + j)]
  }

  predicate IsDiagonal(r: int, c: int) {
    Band(r) == Band(c)
  }

  ghost predicate ValidSamples(perms: seq<seq<int>>) {
    |perms| == 3 && forall k :: 0 <= k < 3 ==> IsDigitPermutation(perms[k])
  }

  /** The board right after clearing and seeding: the diagonal boxes from the samples, all else empty. */
  ghost predicate DiagonalSeeded(g: Grid, perms: seq<seq<int>>)
    requires IsGrid(g) && |perms| == 3 && forall k :: 0 <= k < 3 ==> |perms[k]| == 9
  {
    forall r, c :: InRange(r, c) ==>
      g[r][c] == if IsDiagonal(r, c) then SeedValue(perms[Band(r)], r - 3 * Band(r), c - 3 * Band(c)) else 0
  }

  /** The diagonal boxes of s hold the values the samples seed them with. */
  ghost predicate HasSeededBoxes(s: Grid, perms: seq<seq<int>>)
    requires IsGrid(s) && |perms| == 3 && forall k :: 0 <= k < 3 ==> |perms[k]| == 9
  {
    forall r, c :: InRange(r, c) && IsDiagonal(r, c) ==>
      s[r][c] == SeedValue(perms[Band(r)], r - 3 * Band(r), c - 3 * Band(c))
  }

  /**
   * Fill the 3x3 box at (row, col) from a sample of 1-9, popping the last
   * element of the sample for each cell in row-major order.
   */
  method FillBox(b: array2<int>, row: int, col: int, perm: seq<int>)
    requires Is9x9(b) && 0 <= row <= 6 && 0 <= col <= 6 && |perm| == 9
    modifies b
    ensures forall r, c :: row <= r < row + 3 && col <= c < col + 3 ==> b[r, c] == SeedValue(perm, r - row, c - col)
    ensures forall r, c :: InRange(r, c) && !(row <= r < row + 3 && col <= c < col + 3) ==> b[r, c] == old(b[r, c])
  {
    var num := perm;
    for i := 0 to 3
      invariant |num| == 9 - 3 * i && num == perm[..|num|]
      invariant forall r, c :: row <= r < row + i && col <= c < col + 3 ==>
        b[r, c] == SeedValue(perm, r - row, c - col)
      invariant forall r, c :: InRange(r, c) && !(row <= r < row + i && col <= c < col + 3) ==> b[r, c] == old(b[r, c])
    {
      for j := 0 to 3
        invariant |num| == 9 - (3 * i + j) && num == perm[..|num|]
        invariant forall r, c :: row <= r < row + i && col <= c < col + 3 ==>
          b[r, c] == SeedValue(perm, r - row, c - col)
        invariant forall r, c :: r == row + i && col <= c < col + j ==> b[r, c] == SeedValue(perm, r - row, c - col)
        invariant forall r, c ::
          InRange(r, c) && !(row <= r < row + i && col <= c < col + 3) && !(r == row + i && col <= c < col + j)
          ==> b[r, c] == old(b[r, c])
      {
        b[row + i, col + j] := num[|num| - 1];
        num := num[..|num| - 1];
      }
    }
  }

  /** Fill the boxes with top-left cells (0, 0), (3, 3) and (6, 6), the k-th from the k-th sample. */
  method FillDiagonalBoxes(b: array2<int>, perms: seq<seq<int>>)
    requires Is9x9(b) && |perms| == 3 && forall k :: 0 <= k < 3 ==> |perms[k]| == 9
    modifies b
    ensures forall r, c :: InRange(r, c) && IsDiagonal(r, c) ==>
      b[r, c] == SeedValue(perms[Band(r)], r - 3 * Band(r), c - 3 * Band(c))
    ensures forall r, c :: InRange(r, c) && !IsDiagonal(r, c) ==> b[r, c] == old(b[r, c])
  {
    for k := 0 to 3
      invariant forall r, c :: InRange(r, c) && IsDiagonal(r, c) && Band(r) < k ==>
        b[r, c] == SeedValue(perms[Band(r)], r - 3 * Band(r), c - 3 * Band(c))
      invariant forall r, c :: InRange(r, c) && !(IsDiagonal(r, c) && Band(r) < k) ==> b[r, c] == old(b[r, c])
    {
      FillBox(b, 3 * k, 3 * k, perms[k]);
      assert forall r :: 0 <= r < 9 ==> (Band(r) == k <==> 3 * k <= r < 3 * k + 3);
    }
  }

  /**
   * The three diagonal boxes share no row, column or box, so seeding them with
   * permutations of 1-9 on an empty board gives a legal partial board.
   */
  lemma SeededIsPartial(g: Grid, perms: seq<seq<int>>)
    requires IsGrid(g) && ValidSamples(perms) && DiagonalSeeded(g, perms)
    ensures Partial(g)
  {
    forall r1, c1, r2, c2 |
      InRange(r1, c1) && InRange(r2, c2) && Peers(r1, c1, r2, c2) && g[r1][c1] != 0
      ensures g[r1][c1] != g[r2][c2]
    {
      if g[r2][c2] != 0 {
        var k := Band(r1);
        assert IsDiagonal(r1, c1) && IsDiagonal(r2, c2);
        assert Band(r2) == k && Band(c1) == k && Band(c2) == k;
        var i1, j1, i2, j2 := r1 - 3 * k, c1 - 3 * k, r2 - 3 * k, c2 - 3 * k;
        assert 8 - (3 * i1 + j1) != 8 - (3 * i2 + j2);
      }
    }
  }

  // ---------------------------------------------------------------------------
  // Completing the other 54 cells

  /** Cell (r, c) lies outside the diagonal boxes, at or after row-major position (i, j). */
  predicate InWalk(i: int, j: int, r: int, c: int) {
    InRange(r, c) && !IsDiagonal(r, c) && 9 * r + c >= 9 * i + j
  }

  /**
   * The positions at which the completion may be entered without indexing off
   * the board or into a diagonal box: every position the recursion from
   * (0, 0) reaches, and (9, 9), where it returns at once.
   */
  predicate WalkEntry(i: int, j: int) {
    (i == 9 && j == 9) ||
    (0 <= i <= 8 && 0 <= j <= 9 && !(i == 8 && j == 9) &&
     !(3 <= i < 6 && 4 <= j <= 5) && !(6 <= i && 7 <= j <= 8))
  }

  /** Every cell of the walk from (i, j) is empty in g. */
  ghost predicate WalkEmpty(g: Grid, i: int, j: int)
    requires IsGrid(g)
  {
    forall r, c :: InWalk(i, j, r, c) ==> g[r][c] == 0
  }

  /** s agrees with g on every cell outside the walk from (i, j). */
  ghost predicate AgreesOutside(s: Grid, g: Grid, i: int, j: int)
    requires IsGrid(s) && IsGrid(g)
  {
    forall r, c :: InRange(r, c) && !InWalk(i, j, r, c) ==> s[r][c] == g[r][c]
  }

  /** The walk from (i, j) is empty in g and some solution keeps every cell of g outside it. */
  ghost predicate WalkFillable(g: Grid, i: int, j: int)
    requires IsGrid(g)
  {
    WalkEmpty(g, i, j) && exists s :: IsSolution(s) && AgreesOutside(s, g, i, j)
  }

  /** As WalkFillable, with a solution that has v at (i, j). */
  ghost predicate WalkFillableWith(g: Grid, i: int, j: int, v: int)
    requires IsGrid(g) && InRange(i, j)
  {
    WalkEmpty(g, i, j) && exists s :: IsSolution(s) && AgreesOutside(s, g, i, j) && s[i][j] == v
  }

  /**
   * The cell the completion entered at (i, j) actually fills, or None when it
   * is past the last cell: past the end of a row it moves to the start of the
   * next; in rows 0-2 it skips columns 0-2, in rows 3-5 it jumps from column 3
   * to column 6, and in rows 6-8 it leaves the row at column 6.
   */
  function NextCell(i: int, j: int): (p: Option<(int, int)>)
    requires WalkEntry(i, j)
    ensures p.Some? ==> InRange(p.value.0, p.value.1) && !IsDiagonal(p.value.0, p.value.1)
    ensures p.Some? ==> WalkEntry(p.value.0, p.value.1 + 1) && 9 * p.value.0 + p.value.1 >= 9 * i + j
    ensures p.Some? ==> forall r, c ::
      InWalk(i, j, r, c) <==> (r == p.value.0 && c == p.value.1) || InWalk(p.value.0, p.value.1 + 1, r, c)
    ensures p.None? ==> forall r, c :: !InWalk(i, j, r, c)
  {
    var (i1, j1) := if j >= 9 && i < 8 then (i + 1, 0) else (i, j);
    if i1 >= 9 && j1 >= 9 then None
    else if i1 < 3 then Some((i1, if j1 < 3 then 3 else j1))
    else if i1 < 6 then Some((i1, if j1 == (i1 / 3) * 3 then j1 + 3 else j1))
    else if j1 == 6 then (if i1 + 1 >= 9 then None else Some((i1 + 1, 0)))
    else Some((i1, j1))
  }

  /**
   * Backtracking completion from position (i0, j0): at the cell NextCell
   * names, try the digits 1-9 that the legality check accepts and recurse on
   * the next column; on failure empty the cell again.
   */
  method FillRemaining(b: array2<int>, i0: int, j0: int) returns (ok: bool)
    requires Is9x9(b) && WalkEntry(i0, j0)
    modifies b
    ensures forall r, c :: InRange(r, c) && !InWalk(i0, j0, r, c) ==> b[r, c] == old(b[r, c])
    ensures ok ==> forall r, c :: InWalk(i0, j0, r, c) ==> 1 <= b[r, c] <= 9
    ensures !ok ==> forall r, c :: InWalk(i0, j0, r, c) ==> b[r, c] == 0 || b[r, c] == old(b[r, c])
    ensures Partial(old(Cells(b))) ==> Partial(Cells(b))
    ensures WalkFillable(old(Cells(b)), i0, j0) ==> ok
    decreases 90 - (9 * i0 + j0), 1
  {
    var next := NextCell(i0, j0);
    if next.None? {
      return true;
    }
    var (i, j) := next.value;
    ghost var g0 := Cells(b);
    assert forall r, c :: InWalk(i, j, r, c) <==> InWalk(i0, j0, r, c);
    // When a solution fits, the loop cannot pass the digit it has at (i, j).
    ghost var fits := WalkFillable(g0, i0, j0);
    ghost var s0: Grid := g0;
    if fits {
      s0 :| IsSolution(s0) && AgreesOutside(s0, g0, i0, j0);
      SolutionFitsSafe(s0, g0, i, j);
    }
    for num := 1 to 10
      invariant forall r, c :: InRange(r, c) && !InWalk(i0, j0, r, c) ==> b[r, c] == old(b[r, c])
      invariant forall r, c :: InWalk(i0, j0, r, c) ==> b[r, c] == 0 || b[r, c] == old(b[r, c])
      invariant Partial(old(Cells(b))) ==> Partial(Cells(b))
      invariant fits ==> Cells(b) == g0 && num <= s0[i][j]
    {
      var safe := IsSafe(b, i, j, num);
      if safe {
        if fits && num == s0[i][j] {
          assert WalkFillableWith(g0, i, j, num) by {
            assert IsSolution(s0) && AgreesOutside(s0, g0, i, j) && s0[i][j] == num;
          }
        }
        ok := PlaceAndFill(b, i, j, num);
        if ok {
          return;
        }
        if fits {
          GridExt(Cells(b), g0);
        }
      }
    }
    return false;
  }

  /**
   * One pass of the completion's digit loop for a digit the legality check
   * accepted: place it, complete the rest from the next column and, on
   * failure, empty the cell again.
   */
  method PlaceAndFill(b: array2<int>, i: int, j: int, num: int) returns (ok: bool)
    requires Is9x9(b) && InRange(i, j) && !IsDiagonal(i, j) && WalkEntry(i, j + 1)
    requires 1 <= num <= 9 && Safe(Cells(b), i, j, num)
    modifies b
    ensures forall r, c :: InRange(r, c) && !InWalk(i, j, r, c) ==> b[r, c] == old(b[r, c])
    ensures ok ==> forall r, c :: InWalk(i, j, r, c) ==> 1 <= b[r, c] <= 9
    ensures !ok ==> forall r, c :: InWalk(i, j, r, c) ==> b[r, c] == 0 || b[r, c] == old(b[r, c])
    ensures Partial(old(Cells(b))) ==> Partial(Cells(b))
    ensures WalkFillableWith(old(Cells(b)), i, j, num) ==> ok
    decreases 90 - (9 * i + j), 0
  {
    ghost var before := Cells(b);
    b[i, j] := num;
    GridExt(Cells(b), Place(before, i, j, num));
    if Partial(before) {
      PlaceSafeKeepsPartial(before, i, j, num);
    }
    if WalkFillableWith(before, i, j, num) {
      FillableAfterPlace(before, i, j, num);
    }
    ok := FillRemaining(b, i, j + 1);
    if ok {
      return;
    }
    ghost var after := Cells(b);
    b[i, j] := 0;
    GridExt(Cells(b), Place(after, i, j, 0));
    if Partial(after) {
      ClearKeepsPartial(after, i, j);
    }
  }

  /**
   * When the walk from (i, j) is empty and a solution keeps every cell
   * outside it, the legality check accepts the solution's digit at (i, j).
   */
  lemma SolutionFitsSafe(s: Grid, g: Grid, i: int, j: int)
    requires IsSolution(s) && IsGrid(g) && InRange(i, j) && !IsDiagonal(i, j)
    requires WalkEmpty(g, i, j) && AgreesOutside(s, g, i, j)
    ensures 1 <= s[i][j] <= 9 && Safe(g, i, j, s[i][j])
  {
    var v := s[i][j];
    forall x | 0 <= x < 9 ensures g[i][x] != v && g[x][j] != v {
      if x != j && g[i][x] != 0 { assert Peers(i, j, i, x); }
      if x != i && g[x][j] != 0 { assert Peers(i, j, x, j); }
    }
    forall r2, c2 | InRange(r2, c2) && SameBox(i, j, r2, c2) ensures g[r2][c2] != v {
      if (r2 != i || c2 != j) && g[r2][c2] != 0 { assert Peers(i, j, r2, c2); }
    }
  }

  /**
   * Placing the solution's digit at (i, j) keeps the solution fitting: the
   * walk from the next column is still empty and the solution keeps every
   * cell outside it.
   */
  lemma WalkStep(s: Grid, g: Grid, i: int, j: int)
    requires IsGrid(s) && IsGrid(g) && InRange(i, j)
    requires WalkEmpty(g, i, j) && AgreesOutside(s, g, i, j)
    ensures WalkEmpty(Place(g, i, j, s[i][j]), i, j + 1)
    ensures AgreesOutside(s, Place(g, i, j, s[i][j]), i, j + 1)
  {
    var h := Place(g, i, j, s[i][j]);
    forall r, c | InRange(r, c) && !InWalk(i, j + 1, r, c) ensures s[r][c] == h[r][c] {
      if InWalk(i, j, r, c) {
        assert r == i && c == j;
      }
    }
  }

  /** Placing the digit of a fitting solution leaves the walk from the next column fillable. */
  lemma FillableAfterPlace(g: Grid, i: int, j: int, v: int)
    requires IsGrid(g) && InRange(i, j) && WalkFillableWith(g, i, j, v)
    ensures WalkFillable(Place(g, i, j, v), i, j + 1)
  {
    var s :| IsSolution(s) && AgreesOutside(s, g, i, j) && s[i][j] == v;
    WalkStep(s, g, i, j);
  }

  // ---------------------------------------------------------------------------
  // Emptying cells

  /**
   * Empty Removals(d) filled cells, one at a time; which filled cell goes
   * next is the random choice. The board must hold at least that many filled
   * cells, or the search for a filled cell would never end.
   */
  method RemoveDigits(b: array2<int>, d: Difficulty)
    requires Is9x9(b) && ZeroCount(Cells(b)) + Removals(d) <= 81
    modifies b
    ensures ZeroCount(Cells(b)) == old(ZeroCount(Cells(b))) + Removals(d)
    ensures forall r, c :: InRange(r, c) ==> b[r, c] == old(b[r, c]) || (b[r, c] == 0 && old(b[r, c]) != 0)
  {
    var count := Removals(d);
    while count != 0
      invariant 0 <= count <= Removals(d)
      invariant ZeroCount(Cells(b)) == old(ZeroCount(Cells(b))) + (Removals(d) - count)
      invariant forall r, c :: InRange(r, c) ==> b[r, c] == old(b[r, c]) || (b[r, c] == 0 && old(b[r, c]) != 0)
    {
      ghost var g := Cells(b);
      ZeroCountNoEmpty(g);
      var row, col :| InRange(row, col) && b[row, col] != 0;
      b[row, col] := 0;
      GridExt(Cells(b), Place(g, row, col, 0));
      ZeroCountPlace(g, row, col, 0);
      count := count - 1;
    }
  }

  // ---------------------------------------------------------------------------
  // A new puzzle

  /**
   * The steps that build a new puzzle on a cleared board: seed the diagonal
   * boxes, complete the other cells and, when the completion succeeded,
   * empty Removals(d) cells. The ghost results say whether the completion
   * succeeded and which complete board the puzzle was cut from.
   */
  method BuildPuzzle(b: array2<int>, d: Difficulty, perms: seq<seq<int>>) returns (ghost filled: bool, ghost full: Grid)
    requires Is9x9(b) && ValidSamples(perms)
    requires forall r, c :: InRange(r, c) ==> b[r, c] == 0
    modifies b
    ensures Partial(Cells(b))
    ensures filled ==> IsSolution(full) && EveryUnitIsPermutation(full)
    ensures filled ==> HasSeededBoxes(full, perms)
    ensures filled ==> Extends(full, Cells(b)) && ZeroCount(Cells(b)) == Removals(d) && Solvable(Cells(b))
    ensures !filled ==> DiagonalSeeded(Cells(b), perms)
    ensures !filled ==> forall s :: IsSolution(s) ==> !HasSeededBoxes(s, perms)
  {
    FillDiagonalBoxes(b, perms);
    ghost var seeded := Cells(b);
    assert DiagonalSeeded(seeded, perms);
    SeededIsPartial(seeded, perms);
    var ok := FillRemaining(b, 0, 0);
    filled, full := ok, Cells(b);
    if ok {
      CompletedSeedIsSolution(seeded, full, perms);
      RemoveDigits(b, d);
      CutPuzzle(full, Cells(b));
    } else {
      GridExt(Cells(b), seeded);
      forall s | IsSolution(s) ensures !HasSeededBoxes(s, perms) {
        SeededBoxesAgree(s, seeded, perms);
      }
    }
  }

  // ---------------------------------------------------------------------------
  // What a new puzzle is

  /**
   * A completion that filled every cell outside the diagonal boxes with
   * digits, kept the seeded boxes and kept the board legal is a solution
   * whose diagonal boxes are the seeded ones.
   */
  lemma CompletedSeedIsSolution(seeded: Grid, full: Grid, perms: seq<seq<int>>)
    requires IsGrid(seeded) && IsGrid(full) && ValidSamples(perms) && DiagonalSeeded(seeded, perms)
    requires forall r, c :: InRange(r, c) && !InWalk(0, 0, r, c) ==> full[r][c] == seeded[r][c]
    requires forall r, c :: InWalk(0, 0, r, c) ==> 1 <= full[r][c] <= 9
    requires Partial(full)
    ensures IsSolution(full) && EveryUnitIsPermutation(full) && ZeroCount(full) == 0
    ensures HasSeededBoxes(full, perms)
  {
    forall r, c | InRange(r, c) ensures full[r][c] != 0 {
      if IsDiagonal(r, c) {
        var k := Band(r);
        assert 0 <= 8 - (3 * (r - 3 * k) + (c - 3 * k)) < 9;
      } else {
        assert InWalk(0, 0, r, c);
      }
    }
    SolutionUnits(full);
    ZeroCountNoEmpty(full);
  }

  /**
   * Outside the walk from (0, 0) lie exactly the diagonal boxes, so a grid
   * with the seeded boxes agrees there with the seeded board, whose walk is
   * empty.
   */
  lemma SeededBoxesAgree(s: Grid, seeded: Grid, perms: seq<seq<int>>)
    requires IsGrid(s) && IsGrid(seeded) && ValidSamples(perms) && DiagonalSeeded(seeded, perms)
    ensures WalkEmpty(seeded, 0, 0)
    ensures HasSeededBoxes(s, perms) ==> AgreesOutside(s, seeded, 0, 0)
  {
  }

  /**
   * Emptying cells of a solution leaves a legal puzzle that the solution
   * completes.
   */
  lemma CutPuzzle(full: Grid, puzzle: Grid)
    requires IsSolution(full) && IsGrid(puzzle)
    requires forall r, c :: InRange(r, c) ==> puzzle[r][c] == full[r][c] || puzzle[r][c] == 0
    ensures Partial(puzzle) && Extends(full, puzzle) && Solvable(puzzle)
  {
    ClearedKeepsPartial(full, puzzle);
  }
}
