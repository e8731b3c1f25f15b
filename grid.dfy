/**
 * The 9x9 Sudoku board as a value: rows of cell values, 0 for an empty cell.
 * Everything the engine promises is stated here, on values; the imperative
 * operations (modules Engine, Generator, Game) work on arrays and are proved
 * against these definitions through a snapshot of the array.
 */
module Grid {

  type Grid = seq<seq<int>>

  predicate IsGrid(g: Grid) {
    |g| == 9 && forall r :: 0 <= r < 9 ==> |g[r]| == 9
  }

  predicate InRange(r: int, c: int) {
    0 <= r < 9 && 0 <= c < 9
  }

  /** Which of the three bands of rows (or stacks of columns) index x lies in. */
  function Band(x: int): int {
    if x < 3 then 0 else if x < 6 then 1 else 2
  }

  predicate SameBox(r1: int, c1: int, r2: int, c2: int) {
    Band(r1) == Band(r2) && Band(c1) == Band(c2)
  }

  /** Two different cells that share a row, a column or a 3x3 box. */
  predicate Peers(r1: int, c1: int, r2: int, c2: int) {
    (r1 != r2 || c1 != c2) && (r1 == r2 || c1 == c2 || SameBox(r1, c1, r2, c2))
  }

  /** Digit n may go at (r, c): it occurs nowhere in row r, column c or the box of (r, c). */
  ghost predicate Safe(g: Grid, r: int, c: int, n: int)
    requires IsGrid(g) && InRange(r, c)
  {
    (forall x :: 0 <= x < 9 ==> g[r][x] != n) &&
    (forall x :: 0 <= x < 9 ==> g[x][c] != n) &&
    (forall r2, c2 :: InRange(r2, c2) && SameBox(r, c, r2, c2) ==> g[r2][c2] != n)
  }

  /** No filled cell shares its value with a peer. */
  ghost predicate NoConflicts(g: Grid)
    requires IsGrid(g)
  {
    forall r1, c1, r2, c2 ::
      InRange(r1, c1) && InRange(r2, c2) && Peers(r1, c1, r2, c2) && g[r1][c1] != 0 ==>
        g[r1][c1] != g[r2][c2]
  }

  ghost predicate AllDigits(g: Grid)
    requires IsGrid(g)
  {
    forall r, c :: InRange(r, c) ==> 0 <= g[r][c] <= 9
  }

  /** A legal partial grid: every cell empty or 1-9, no two peers holding the same digit. */
  ghost predicate Partial(g: Grid) {
    IsGrid(g) && AllDigits(g) && NoConflicts(g)
  }

  ghost predicate NoEmpty(g: Grid)
    requires IsGrid(g)
  {
    forall r, c :: InRange(r, c) ==> g[r][c] != 0
  }

  /** A completely and legally filled grid. */
  ghost predicate IsSolution(s: Grid) {
    Partial(s) && NoEmpty(s)
  }

  /** s keeps every filled cell of g. */
  ghost predicate Extends(s: Grid, g: Grid)
    requires IsGrid(s) && IsGrid(g)
  {
    forall r, c :: InRange(r, c) && g[r][c] != 0 ==> s[r][c] == g[r][c]
  }

  /** Some solution keeps every filled cell of g. */
  ghost predicate Solvable(g: Grid)
    requires IsGrid(g)
  {
    exists s :: IsSolution(s) && Extends(s, g)
  }

  /** g with cell (r, c) set to v. */
  function Place(g: Grid, r: int, c: int, v: int): (h: Grid)
    requires IsGrid(g) && InRange(r, c)
    ensures IsGrid(h) && h[r][c] == v
    ensures forall r2, c2 :: InRange(r2, c2) && (r2 != r || c2 != c) ==> h[r2][c2] == g[r2][c2]
  {
    g[r := g[r][c := v]]
  }

  /** Two grids that agree cell by cell are equal. */
  lemma GridExt(g1: Grid, g2: Grid)
    requires IsGrid(g1) && IsGrid(g2)
    requires forall r, c :: InRange(r, c) ==> g1[r][c] == g2[r][c]
    ensures g1 == g2
  {
    forall r | 0 <= r < 9 ensures g1[r] == g2[r] {
      assert forall c :: 0 <= c < 9 ==> g1[r][c] == g2[r][c];
    }
  }

  // ---------------------------------------------------------------------------
  // Placing and clearing cells

  /** Placing a digit that passes the legality check keeps a legal partial grid legal. */
  lemma PlaceSafeKeepsPartial(g: Grid, r: int, c: int, n: int)
    requires Partial(g) && InRange(r, c) && 1 <= n <= 9 && Safe(g, r, c, n)
    ensures Partial(Place(g, r, c, n))
  {
    var h := Place(g, r, c, n);
    forall r1, c1, r2, c2 |
      InRange(r1, c1) && InRange(r2, c2) && Peers(r1, c1, r2, c2) && h[r1][c1] != 0
      ensures h[r1][c1] != h[r2][c2]
    {
      if r1 == r && c1 == c {
        assert r2 == r || c2 == c || SameBox(r, c, r2, c2);
      } else if r2 == r && c2 == c {
        assert r1 == r || c1 == c || SameBox(r, c, r1, c1);
      }
    }
  }

  /** Emptying a cell keeps a legal partial grid legal. */
  lemma ClearKeepsPartial(g: Grid, r: int, c: int)
    requires Partial(g) && InRange(r, c)
    ensures Partial(Place(g, r, c, 0))
  {
  }

  /** Emptying any set of cells of a legal partial grid keeps it legal. */
  lemma ClearedKeepsPartial(g: Grid, h: Grid)
    requires Partial(g) && IsGrid(h)
    requires forall r, c :: InRange(r, c) ==> h[r][c] == g[r][c] || h[r][c] == 0
    ensures Partial(h)
  {
  }

  // ---------------------------------------------------------------------------
  // What the backtracking solvers find

  /**
   * s fills the empty cells of g the way the backtracking solvers do: it keeps
   * every filled cell of g, and each cell empty in g gets a digit 1-9 that
   * differs from every peer in s. The filled cells of g are never compared
   * with each other, so they may conflict.
   */
  ghost predicate Completes(s: Grid, g: Grid)
    requires IsGrid(s) && IsGrid(g)
  {
    Extends(s, g) &&
    (forall r, c :: InRange(r, c) && g[r][c] == 0 ==> 1 <= s[r][c] <= 9) &&
    (forall r1, c1, r2, c2 ::
      InRange(r1, c1) && InRange(r2, c2) && Peers(r1, c1, r2, c2) && g[r1][c1] == 0 ==>
        s[r1][c1] != s[r2][c2])
  }

  /** Some grid completes g. */
  ghost predicate Completable(g: Grid)
    requires IsGrid(g)
  {
    exists s :: IsGrid(s) && Completes(s, g)
  }

  /** A completion leaves no cell empty. */
  lemma CompletionIsFull(s: Grid, g: Grid)
    requires IsGrid(s) && IsGrid(g) && Completes(s, g)
    ensures NoEmpty(s)
  {
    forall r, c | InRange(r, c) ensures s[r][c] != 0 {
      if g[r][c] != 0 {
        assert s[r][c] == g[r][c];
      }
    }
  }

  /**
   * A completion puts at an empty cell of g a digit that the legality check
   * accepts there, and it also completes g with that digit placed.
   */
  lemma CompletionDigitIsSafe(s: Grid, g: Grid, r: int, c: int)
    requires IsGrid(s) && IsGrid(g) && Completes(s, g) && InRange(r, c) && g[r][c] == 0
    ensures 1 <= s[r][c] <= 9 && Safe(g, r, c, s[r][c])
    ensures Completes(s, Place(g, r, c, s[r][c]))
  {
    var v := s[r][c];
    forall x | 0 <= x < 9 ensures g[r][x] != v && g[x][c] != v {
      if x != c && g[r][x] != 0 { assert Peers(r, c, r, x); }
      if x != r && g[x][c] != 0 { assert Peers(r, c, x, c); }
    }
    forall r2, c2 | InRange(r2, c2) && SameBox(r, c, r2, c2) ensures g[r2][c2] != v {
      if (r2 != r || c2 != c) && g[r2][c2] != 0 { assert Peers(r, c, r2, c2); }
    }
  }

  /**
   * A grid that completes g with a digit placed at an empty cell completes g
   * itself, provided the legality check accepts that digit there.
   */
  lemma CompletesAfterPlace(s: Grid, g: Grid, r: int, c: int, v: int)
    requires IsGrid(s) && IsGrid(g) && InRange(r, c) && g[r][c] == 0
    requires 1 <= v <= 9 && Safe(g, r, c, v) && Completes(s, Place(g, r, c, v))
    ensures Completes(s, g)
  {
    var h := Place(g, r, c, v);
    forall r1, c1, r2, c2 |
      InRange(r1, c1) && InRange(r2, c2) && Peers(r1, c1, r2, c2) && g[r1][c1] == 0
      ensures s[r1][c1] != s[r2][c2]
    {
      if r1 == r && c1 == c {
        if h[r2][c2] != 0 {
          assert r2 == r || c2 == c || SameBox(r, c, r2, c2);
        } else {
          assert Peers(r2, c2, r1, c1);
        }
      }
    }
  }

  /**
   * An empty cell splits the solver's search: g can be completed exactly when
   * some digit 1-9 passes the legality check there and g with that digit
   * placed can be completed.
   */
  lemma CompletableSplit(g: Grid, r: int, c: int)
    requires IsGrid(g) && InRange(r, c) && g[r][c] == 0
    ensures Completable(g) <==>
      exists v :: 1 <= v <= 9 && Safe(g, r, c, v) && Completable(Place(g, r, c, v))
  {
    if Completable(g) {
      var s :| IsGrid(s) && Completes(s, g);
      CompletionDigitIsSafe(s, g, r, c);
      assert Completable(Place(g, r, c, s[r][c]));
    }
    if exists v :: 1 <= v <= 9 && Safe(g, r, c, v) && Completable(Place(g, r, c, v)) {
      var v :| 1 <= v <= 9 && Safe(g, r, c, v) && Completable(Place(g, r, c, v));
      var s :| IsGrid(s) && Completes(s, Place(g, r, c, v));
      CompletesAfterPlace(s, g, r, c, v);
    }
  }

  /** On a legal partial grid a completion is a solution, and every solution keeping its cells is a completion. */
  lemma CompletesPartial(s: Grid, g: Grid)
    requires Partial(g) && IsGrid(s)
    ensures Completes(s, g) <==> IsSolution(s) && Extends(s, g)
  {
    if Completes(s, g) {
      CompletionIsFull(s, g);
      forall r1, c1, r2, c2 |
        InRange(r1, c1) && InRange(r2, c2) && Peers(r1, c1, r2, c2) && s[r1][c1] != 0
        ensures s[r1][c1] != s[r2][c2]
      {
        if g[r1][c1] != 0 && g[r2][c2] == 0 {
          assert Peers(r2, c2, r1, c1);
        }
      }
    }
  }

  /** A legal partial grid can be completed exactly when it has a solution. */
  lemma CompletableIffSolvable(g: Grid)
    requires Partial(g)
    ensures Completable(g) <==> Solvable(g)
  {
    if Completable(g) {
      var s :| IsGrid(s) && Completes(s, g);
      CompletesPartial(s, g);
    }
    if Solvable(g) {
      var s :| IsSolution(s) && Extends(s, g);
      CompletesPartial(s, g);
    }
  }

  /** A solvable grid is a legal partial grid. */
  lemma SolvableIsPartial(g: Grid)
    requires IsGrid(g) && Solvable(g)
    ensures Partial(g)
  {
    var s :| IsSolution(s) && Extends(s, g);
    forall r1, c1, r2, c2 |
      InRange(r1, c1) && InRange(r2, c2) && Peers(r1, c1, r2, c2) && g[r1][c1] != 0
      ensures g[r1][c1] != g[r2][c2]
    {
      assert s[r1][c1] != s[r2][c2];
    }
  }

  // ---------------------------------------------------------------------------
  // Counting empty cells

  function CountZeros(row: seq<int>): (n: nat)
    ensures n <= |row|
  {
    if row == [] then 0 else Z(row[0]) + CountZeros(row[1..])
  }

  /** The number of empty cells of g. */
  function ZeroCount(g: Grid): nat {
    if g == [] then 0 else CountZeros(g[0]) + ZeroCount(g[1..])
  }

  /** 1 for an empty cell value, 0 for a filled one. */
  function Z(v: int): nat {
    if v == 0 then 1 else 0
  }

  lemma {:induction false} CountZerosUpdate(row: seq<int>, k: int, v: int)
    requires 0 <= k < |row|
    ensures CountZeros(row[k := v]) == CountZeros(row) - Z(row[k]) + Z(v)
  {
    if k == 0 {
      assert row[k := v][1..] == row[1..];
    } else {
      assert row[k := v][1..] == row[1..][k - 1 := v];
      CountZerosUpdate(row[1..], k - 1, v);
    }
  }

  lemma {:induction false} ZeroCountUpdate(g: Grid, r: int, row: seq<int>)
    requires 0 <= r < |g|
    ensures ZeroCount(g[r := row]) == ZeroCount(g) - CountZeros(g[r]) + CountZeros(row)
  {
    if r == 0 {
      assert g[r := row][1..] == g[1..];
    } else {
      assert g[r := row][1..] == g[1..][r - 1 := row];
      ZeroCountUpdate(g[1..], r - 1, row);
    }
  }

  /**
   * Setting one cell changes the number of empty cells by exactly one or not
   * at all: filling an empty cell removes one, emptying a filled cell adds one.
   */
  lemma ZeroCountPlace(g: Grid, r: int, c: int, v: int)
    requires IsGrid(g) && InRange(r, c)
    ensures ZeroCount(Place(g, r, c, v)) == ZeroCount(g) - Z(g[r][c]) + Z(v)
  {
    CountZerosUpdate(g[r], c, v);
    ZeroCountUpdate(g, r, g[r][c := v]);
  }

  lemma {:induction false} CountZerosBounds(row: seq<int>)
    ensures CountZeros(row) == 0 <==> forall k :: 0 <= k < |row| ==> row[k] != 0
    ensures CountZeros(row) == |row| <==> forall k :: 0 <= k < |row| ==> row[k] == 0
  {
    if row != [] {
      CountZerosBounds(row[1..]);
      assert forall k :: 1 <= k < |row| ==> row[k] == row[1..][k - 1];
    }
  }

  lemma {:induction false} ZeroCountBounds(g: Grid)
    requires forall r :: 0 <= r < |g| ==> |g[r]| == 9
    ensures ZeroCount(g) <= 9 * |g|
    ensures ZeroCount(g) == 0 <==> forall r, c :: 0 <= r < |g| && 0 <= c < 9 ==> g[r][c] != 0
    ensures ZeroCount(g) == 9 * |g| <==> forall r, c :: 0 <= r < |g| && 0 <= c < 9 ==> g[r][c] == 0
  {
    if g != [] {
      CountZerosBounds(g[0]);
      ZeroCountBounds(g[1..]);
      assert forall r :: 1 <= r < |g| ==> g[r] == g[1..][r - 1];
    }
  }

  /** A grid has no empty cell exactly when its count of empty cells is zero. */
  lemma ZeroCountNoEmpty(g: Grid)
    requires IsGrid(g)
    ensures ZeroCount(g) <= 81
    ensures ZeroCount(g) == 0 <==> NoEmpty(g)
    ensures ZeroCount(g) < 81 ==> exists r, c :: InRange(r, c) && g[r][c] != 0
  {
    ZeroCountBounds(g);
  }

  // ---------------------------------------------------------------------------
  // Rows, columns and boxes of a solution

  /** The nine digits 1-9, each once. */
  ghost predicate IsDigitPermutation(xs: seq<int>) {
    |xs| == 9 &&
    (forall k :: 0 <= k < 9 ==> 1 <= xs[k] <= 9) &&
    (forall k, l :: 0 <= k < l < 9 ==> xs[k] != xs[l])
  }

  function Column(g: Grid, c: int): seq<int>
    requires IsGrid(g) && 0 <= c < 9
  {
    seq(9, r requires 0 <= r < 9 => g[r][c])
  }

  /** The box of band br and stack bc, read row by row: its k-th cell is at offset (Band(k), k - 3 * Band(k)). */
  function Box(g: Grid, br: int, bc: int): seq<int>
    requires IsGrid(g) && 0 <= br < 3 && 0 <= bc < 3
  {
    seq(9, k requires 0 <= k < 9 => g[3 * br + Band(k)][3 * bc + k - 3 * Band(k)])
  }

  /** Distinct values drawn from t are at most |t| many. */
  lemma {:induction false} DistinctWithin(xs: seq<int>, t: set<int>)
    requires forall k :: 0 <= k < |xs| ==> xs[k] in t
    requires forall k, l :: 0 <= k < l < |xs| ==> xs[k] != xs[l]
    ensures |xs| <= |t|
  {
    if xs != [] {
      assert forall k :: 1 <= k < |xs| ==> xs[k] == xs[1..][k - 1];
      DistinctWithin(xs[1..], t - {xs[0]});
    }
  }

  /** Nine different digits from 1-9 include every digit. */
  lemma PermutationHasEveryDigit(xs: seq<int>)
    requires IsDigitPermutation(xs)
    ensures forall v :: 1 <= v <= 9 ==> v in xs
  {
    var digits: set<int> := {1, 2, 3, 4, 5, 6, 7, 8, 9};
    assert |digits| == 9;
    forall v | 1 <= v <= 9 ensures v in xs {
      if v !in xs {
        assert forall k :: 0 <= k < 9 ==> xs[k] in digits - {v};
        DistinctWithin(xs, digits - {v});
      }
    }
  }

  /** Every row, column and box of a solution holds each digit 1-9 exactly once. */
  ghost predicate EveryUnitIsPermutation(s: Grid)
    requires IsGrid(s)
  {
    (forall r :: 0 <= r < 9 ==> IsDigitPermutation(s[r])) &&
    (forall c :: 0 <= c < 9 ==> IsDigitPermutation(Column(s, c))) &&
    (forall br, bc :: 0 <= br < 3 && 0 <= bc < 3 ==> IsDigitPermutation(Box(s, br, bc)))
  }

  lemma RowsArePermutations(s: Grid)
    requires IsSolution(s)
    ensures forall r :: 0 <= r < 9 ==> IsDigitPermutation(s[r])
  {
    forall r, k, l | 0 <= r < 9 && 0 <= k < l < 9 ensures s[r][k] != s[r][l] {
      assert Peers(r, k, r, l);
    }
  }

  lemma ColumnsArePermutations(s: Grid)
    requires IsSolution(s)
    ensures forall c :: 0 <= c < 9 ==> IsDigitPermutation(Column(s, c))
  {
    forall c, k, l | 0 <= c < 9 && 0 <= k < l < 9 ensures Column(s, c)[k] != Column(s, c)[l] {
      assert Peers(k, c, l, c);
    }
  }

  lemma BoxIsPermutation(s: Grid, br: int, bc: int)
    requires IsSolution(s) && 0 <= br < 3 && 0 <= bc < 3
    ensures IsDigitPermutation(Box(s, br, bc))
  {
    var box := Box(s, br, bc);
    forall k, l | 0 <= k < l < 9 ensures box[k] != box[l] {
      var r1, c1 := 3 * br + Band(k), 3 * bc + k - 3 * Band(k);
      var r2, c2 := 3 * br + Band(l), 3 * bc + l - 3 * Band(l);
      assert InRange(r1, c1) && InRange(r2, c2) && Peers(r1, c1, r2, c2);
    }
  }

  lemma BoxesArePermutations(s: Grid)
    requires IsSolution(s)
    ensures forall br, bc :: 0 <= br < 3 && 0 <= bc < 3 ==> IsDigitPermutation(Box(s, br, bc))
  {
    forall br, bc | 0 <= br < 3 && 0 <= bc < 3 {
      BoxIsPermutation(s, br, bc);
    }
  }

  /** Every row, column and box of a solution holds each digit 1-9, and each only once. */
  lemma SolutionUnits(s: Grid)
    requires IsSolution(s)
    ensures EveryUnitIsPermutation(s)
    ensures forall r, v :: 0 <= r < 9 && 1 <= v <= 9 ==> v in s[r]
    ensures forall c, v :: 0 <= c < 9 && 1 <= v <= 9 ==> v in Column(s, c)
    ensures forall br, bc, v :: 0 <= br < 3 && 0 <= bc < 3 && 1 <= v <= 9 ==> v in Box(s, br, bc)
  {
    RowsArePermutations(s);
    ColumnsArePermutations(s);
    BoxesArePermutations(s);
    forall r | 0 <= r < 9 { PermutationHasEveryDigit(s[r]); }
    forall c | 0 <= c < 9 { PermutationHasEveryDigit(Column(s, c)); }
    forall br, bc | 0 <= br < 3 && 0 <= bc < 3 { PermutationHasEveryDigit(Box(s, br, bc)); }
  }
}
