# Sudoku engine, modelled in Dafny

A model of the puzzle engine of the Sudoku game in `sudoku-V1.py` and
`sudoku-V2.py`. Both programs keep a 9x9 board of integers, with 0 for an empty
cell, and a copy of the generated puzzle's givens. The second program also
keeps a grid of flags that marks the cells its solver filled. The engine has
these parts:

- the legality check `is_safe`, which scans a row, a column and a 3x3 box;
- `find_empty`, which finds the first empty cell in row-major order;
- the recursive backtracking solvers `solve` (first program) and
  `solve_with_animation` (second program);
- the generator: clear the board, seed the three diagonal boxes with random
  permutations of 1-9, complete the other 54 cells by backtracking
  (`fill_remaining`), then empty 20, 30 or 40 random filled cells;
- the board operations of the game loop: reset to the givens, the Solve
  button, and typing a digit (or deleting one) into a cell that is not a given.

Modules:

- `Grid` (grid.dfy) defines the board as a value (`seq<seq<int>>`) and what
  the engine promises on it. A legal partial board is `Partial`. A complete
  legal board is `IsSolution`. `Solvable(g)` means some solution keeps every
  filled cell of `g`. `Completes(s, g)` says what the solvers actually find:
  `s` keeps every filled cell of `g` and gives each empty cell a digit 1-9
  that differs from all of its peers. The filled cells of `g` are never
  checked against each other. So on a board whose givens already conflict,
  the solvers still succeed whenever the empty cells can be filled this way.
  `Completable(g)` means some grid completes `g`. On a legal board this is
  the same as `Solvable(g)`. This module also proves the facts the solvers
  and the generator rely on.
- `Engine` (engine.dfy) holds the legality check, the empty-cell search and
  the first program's solver. They work in place on an `array2<int>` and are
  proved against `Grid` through the ghost snapshot `Cells(b)`.
- `Generator` (generator.dfy) seeds, completes and cuts a new puzzle in place.
- `Game` (game.dfy) is the module-level state of the second program as a class
  `Sudoku` with three 9x9 arrays: `board`, `original` and `solved`. It holds
  the operations the game loop performs on them. The first program is the same
  minus the `solved` grid.

Randomness is an input. `random.sample` becomes one permutation of 1-9 per
diagonal box (`perms`). The random cell choice of `remove_digits` becomes a
nondeterministic choice among the filled cells.

## Model

| member | source | states |
|---|---|---|
| Grid.Place | sudoku-V2.py:180 | setting a cell changes that cell and no other |
| Grid.PlaceSafeKeepsPartial | sudoku-V2.py:293-296 | placing a digit that the legality check accepts keeps a legal board legal |
| Grid.ClearKeepsPartial | sudoku-V2.py:186 | emptying one cell keeps a legal board legal |
| Grid.ClearedKeepsPartial | sudoku-V2.py:140-150 | emptying any set of cells of a legal board keeps it legal |
| Grid.CompletionIsFull | sudoku-V2.py:174-176 | a completion leaves no cell empty |
| Grid.CompletionDigitIsSafe | sudoku-V2.py:178-181 | the digit a completion puts at an empty cell passes the legality check there, and the completion still completes the board with that digit placed |
| Grid.CompletesAfterPlace | sudoku-V2.py:179-185 | a completion of the board with an accepted digit placed completes the board itself |
| Grid.CompletableSplit | sudoku-V2.py:178-190 | a board with an empty cell can be completed exactly when some digit 1-9 passes the legality check there and the board with it placed can be completed |
| Grid.CompletesPartial | sudoku-V2.py:152-162 | on a legal board a completion is exactly a solution that keeps every filled cell |
| Grid.CompletableIffSolvable | sudoku-V2.py:172-190 | a legal board can be completed exactly when it has a solution |
| Grid.SolvableIsPartial | sudoku-V2.py:172-190 | only a legal board can have a solution |
| Grid.ZeroCountPlace | sudoku-V2.py:180 | filling an empty cell lowers the empty count by one; emptying a filled cell raises it by one |
| Grid.ZeroCountNoEmpty | sudoku-V2.py:174-176 | a board has no empty cell exactly when its empty count is 0, and with fewer than 81 empty cells some cell is filled |
| Grid.PermutationHasEveryDigit | sudoku-V2.py:108 | nine different digits from 1-9 include every digit 1-9 |
| Grid.RowsArePermutations | sudoku-V2.py:154-156 | every row of a solution holds the digits 1-9 once each |
| Grid.ColumnsArePermutations | sudoku-V2.py:154-156 | every column of a solution holds the digits 1-9 once each |
| Grid.BoxIsPermutation | sudoku-V2.py:157-161 | one 3x3 box of a solution holds the digits 1-9 once each |
| Grid.BoxesArePermutations | sudoku-V2.py:157-161 | every 3x3 box of a solution holds the digits 1-9 once each |
| Grid.SolutionUnits | sudoku-V2.py:152-162 | in a solution every row, column and box is a permutation of 1-9 and contains every digit |
| Engine.IsSafe | sudoku-V2.py:152-162 | answers true exactly when the digit occurs in none of the cell's row, column and box; never accepts the value the cell already holds |
| Engine.FindEmpty | sudoku-V2.py:164-170 | None exactly when no cell is empty; otherwise an empty cell with every earlier cell (row-major) filled |
| Engine.SolverOutcomeOnPartial | sudoku-V1.py:169-180 | on a legal board the solver succeeds exactly when a solution exists, then leaves a solution that keeps every given, and the board stays legal |
| Engine.SolverOutcomeOnFull | sudoku-V1.py:170-172 | a board with no empty cell, legal or not, gives success and stays as it is |
| Engine.ExhaustedIsIncompletable | sudoku-V1.py:174-180 | once each digit 1-9 was refused or led to no completion, the board has no completion |
| Engine.Solve | sudoku-V1.py:169-180 | succeeds exactly when the empty cells can be filled with digits 1-9 that clash with no peer, and then leaves such a filling that keeps every filled cell; on failure the board is as it was |
| Engine.TryDigit | sudoku-V1.py:175-179 | after placing an accepted digit and recursing: success leaves a completion of the board before the placement with the digit kept; failure restores the board and the placement has no completion |
| Generator.Removals | sudoku-V2.py:30-34 | Easy 20, Medium 30, Hard 40: between 20 and 40 cells, 20 exactly for Easy |
| Generator.FillBox | sudoku-V2.py:106-111 | the box gets the sample popped from its end in row-major order; no other cell changes |
| Generator.FillDiagonalBoxes | sudoku-V2.py:101-104 | the k-th diagonal box gets the k-th sample; no cell outside the diagonal boxes changes |
| Generator.SeededIsPartial | sudoku-V2.py:92-93 | an empty board seeded with three permutations on its diagonal boxes is legal |
| Generator.NextCell | sudoku-V2.py:115-131 | the index adjustments at entry name the next cell outside the diagonal boxes at or after the entry position, or the end of the walk |
| Generator.FillRemaining | sudoku-V2.py:113-138 | only cells outside the diagonal boxes at or after the entry position change; success leaves them all filled with digits; failure leaves each empty or as it was; a legal board stays legal; the search is exhaustive: when those cells are empty and some solution keeps every other cell, it succeeds |
| Generator.PlaceAndFill | sudoku-V2.py:133-137 | after placing an accepted digit and completing from the next column: the same frame, success and failure outcomes as the completion; it fails only when no solution keeping the cells outside the walk has that digit at the cell |
| Generator.SolutionFitsSafe | sudoku-V2.py:133 | when the walk is empty and a solution keeps every cell outside it, the legality check accepts the solution's digit at the walk's cell |
| Generator.WalkStep | sudoku-V2.py:134-135 | placing the solution's digit keeps the walk from the next column empty and the solution fitting it |
| Generator.FillableAfterPlace | sudoku-V2.py:134-135 | placing the digit of a fitting solution leaves the walk from the next column fillable |
| Generator.RemoveDigits | sudoku-V2.py:140-150 | exactly the difficulty's number of filled cells become empty; every other cell is kept |
| Generator.BuildPuzzle | sudoku-V2.py:90-95 | the result is legal; when the completion succeeded, it was cut from a solution whose units are permutations and whose diagonal boxes are the samples, has the difficulty's number of empty cells, and is solvable; when it failed, the board is the seeding and no solution has the seeded diagonal boxes |
| Generator.CompletedSeedIsSolution | sudoku-V2.py:92-94 | a seeded board whose other cells were legally filled with digits is a solution with the seeded boxes |
| Generator.SeededBoxesAgree | sudoku-V2.py:92-94 | outside the walk from (0, 0) lie exactly the diagonal boxes, so a grid with the seeded boxes agrees there with the seeded board, whose walk is empty |
| Generator.CutPuzzle | sudoku-V2.py:95 | a solution with cells emptied is a legal, solvable puzzle that the solution completes |
| Game.Sudoku.constructor | sudoku-V2.py:25-27 | the three grids start empty and unmarked |
| Game.Sudoku.ClearBoard | sudoku-V2.py:83-88 | every cell is empty and no cell is marked solved |
| Game.Sudoku.GeneratePuzzle | sudoku-V2.py:90-99 | the new puzzle is legal, its givens equal the board, nothing is marked solved, and it has the properties of Generator.BuildPuzzle, including that a failed completion means no solution has the seeded boxes |
| Game.Sudoku.StoreOriginal | sudoku-V2.py:96-99 | the givens become a copy of the board and no cell is marked solved |
| Game.Sudoku.ResetBoard | sudoku-V2.py:227-232 | the board becomes the givens and no cell is marked solved |
| Game.Sudoku.SolveWithAnimation | sudoku-V2.py:172-190 | the exact outcome of Engine.Solve: success exactly when the empty cells can be filled without clashes, then such a filling, else the board unchanged; on success every cell that was empty is marked solved; marks of filled cells are kept; on failure marks are only removed |
| Game.Sudoku.TryDigit | sudoku-V2.py:179-189 | the loop step of the animated solver: the outcome of Engine.TryDigit, and the marks of the cells it fills or empties |
| Game.Sudoku.SetCell | sudoku-V2.py:180-181 | the one cell gets the value and the mark; no other cell or mark changes |
| Game.Sudoku.EnterDigit | sudoku-V2.py:270-299 | a key is taken exactly when the cell is not a given and the key is 0 or legal there; a taken key sets that cell alone and unmarks it; a refused key changes nothing; legality and the givens are kept |
| Game.Sudoku.SolveButton | sudoku-V2.py:247-255 | reset, then solve: the outcome of Engine.Solve on the givens; on a legal puzzle success means a solution that keeps the givens exists, and the board is one; afterwards exactly the non-given cells are marked solved on success, and none on failure |
| Game.GenerateThenSolve | sudoku-V2.py:239-255 | after a generation whose completion succeeded, the Solve button succeeds and leaves a solution that keeps every given |

## Left out

- Drawing, fonts, buttons, the mouse-to-cell mapping `get_mouse_pos`, the window, the event pump and the redraws of `animate_number_selection` are not modelled. They do not change the board or the flags.
- The event loop is not modelled as a loop. Its board-changing branches are the members of `Game.Sudoku`. The decoding of key codes into digits is not modelled; `EnterDigit` receives the digit. A `key` left over from an earlier refused key press is not modelled.
- The timing and the printed messages of the Solve button are not modelled.
- `random.sample` and `random.randint` are inputs: a permutation per diagonal box, and a nondeterministic choice of a filled cell in `RemoveDigits`. Their distributions are not modelled.
- Generator.BuildPuzzle: it empties cells only when the completion succeeded. The source calls `remove_digits` whatever `fill_remaining` returned. After a failed completion the board holds only the 27 seeded digits. For Medium and Hard, `remove_digits` would then run forever. For Easy it would empty 20 of the seeded digits, which the model does not do. The model proves that a failed completion means no solution has the seeded boxes. It does not prove that every seeding has one, so it does not prove that the completion always succeeds.
- Generator.RemoveDigits: requires that enough filled cells remain. Otherwise the source's search for a filled cell never ends.
- Uniqueness of a generated puzzle's solution is not promised by the source and is not modelled.
- Engine.IsSafe: requires the cell to be on the board. Python's negative indices are never used by the engine's callers.
- The first program has no `solved` flags. Its clear, generate, reset and key-entry code is the same as the second program's minus the flag writes, so `Game.Sudoku` covers both. Its solver is `Engine.Solve`.
