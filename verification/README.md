# Sudoku backtracking solver: a verified Dafny model

This project models the search engine of a text-based Sudoku solver. The
program keeps a single 9x9 `int` board in which 0 marks a blank. `solve()`
scans the board in row-major order for the first blank. At that blank it
tries the digits 1..9 in ascending order. Each digit that `possible(row, col,
val)` accepts is written, the search recurses, and the blank is written back.
When no blank is left, a deep copy of the board is appended to a list of
solutions. `possible` rejects `val` when it already occurs in the row, in the
column, or in the 3x3 box whose top-left corner is `(row/3*3, col/3*3)`.

The model has three modules:

- `Sudoku` (`sudoku.dfy`) covers the board as an immutable value: `Grid`
  (`seq<seq<int>>`, rows outermost), `Pos`, and the predicates "row / column /
  box contains v" (`InRow`, `InColumn`, `InBox`), "no blank left"
  (`Complete`) and "no duplicate among filled cells" (`Consistent`). It also
  holds the legality test `Possible`, written as the program's three scans.
  The remaining parts are the blank count `ZeroCount`, which is the
  termination measure, and the row-major scan `FirstBlank`.
- `Search` (`search.dfy`) covers the search as a pure function. `Solutions(g)`
  is the exact sequence of snapshots one call of `solve()` appends when the
  board holds `g`. `Branches` and `Attempt` are its digit loop and one turn
  of it. The module also proves what this sequence contains, in what order,
  and what it misses.
- `Solver` (`solver.dfy`) covers the program as it runs, on an
  `array2<int>` board. `PossibleAt` holds the three scans. `FindBlank` is the
  row-major scan. `Solve` is proved to append exactly `Solutions` of the
  board on entry; `TryDigits` appends the digit loop's `Branches` and
  `TryDigit` one digit's `Attempt`. All three write the board in place and
  restore it. `Enumerate` is the program's run: it loads a board and starts
  from an empty solution list.

The in-place methods state board restoration with `old` and a `modifies`
clause. What is appended is also stated without mutation: `Search.Solutions`
defines it, and `Solver.Enumerate` is proved to return exactly it.

The code does not validate its input. A complete grid is recorded as it is,
duplicates and all (`Search.InconsistentCompleteGridIsRecorded`). Pre-filled
duplicates do not stop blanks from being filled either
(`Search.DuplicatesDoNotBlockFilling`). What does hold is that from such a
start no recorded grid is consistent
(`Search.InconsistentGridHasNoConsistentSolution`). `possible` also scans the
target cell itself, and `Possible` does the same. This is harmless, because
the target holds 0 and `val` is 1..9 whenever `solve()` calls it.

## Model

| member | source | states |
|---|---|---|
| Search.Solutions | src/Solver.java:161-179 | the snapshots one call of `solve()` appends: `[g]` when no cell holds 0, otherwise the digit loop `Branches(g, p, 1)` at the first blank `p`; there are at most 9^b of them for a board with b blanks |
| Search.Branches | src/Solver.java:165-171 | the digit loop from digit k: the snapshots of `Attempt` for k, then those of the digits k+1..9; at most (10-k)·9^(b-1) of them |
| Search.Attempt | src/Solver.java:166-170 | one turn of the digit loop: when `possible` accepts k, the snapshots of the search on the board with k written at the blank, otherwise none; at most 9^(b-1) of them |
| Sudoku.Possible | src/Solver.java:181-208 | true exactly when `val` occurs nowhere in row `row`, nowhere in column `col`, and nowhere in the box spanning rows `row/3*3`..`+2` and columns `col/3*3`..`+2` |
| Sudoku.PlacementConsistency | src/Solver.java:166-167 | writing a nonzero digit into a blank leaves the grid consistent if and only if the grid was consistent and `possible` accepts the digit |
| Sudoku.FilledCellIsPossible | src/Solver.java:181-207 | in a consistent grid, every filled cell's digit passes `possible` at that cell once the cell is blanked again |
| Sudoku.PlacementRemovesBlank | src/Solver.java:164-168 | writing a nonzero digit into a cell holding 0 lowers the number of blanks by exactly one, so every recursive call has one blank fewer |
| Sudoku.BlankCountBound | src/Solver.java:162-164 | a board has at most 81 blanks, and none exactly when it is complete, so recursion depth is at most 81 |
| Sudoku.FirstBlank | src/Solver.java:162-164 | the scan finds a cell exactly when the board is not complete; that cell holds 0 and every cell before it in row-major order is nonzero |
| Search.SolutionsFill | src/Solver.java:164-178 | every recorded grid keeps each cell that was nonzero on entry and holds a digit 1..9 in each cell that was 0, so it has no zero cell |
| Search.BranchesFill | src/Solver.java:165-171 | the digit loop started at digit k records only completions of the grid that hold a digit of at least k at the blank |
| Search.CompleteGridRecordedAsIs | src/Solver.java:162-178 | a grid with no zero cell yields exactly one snapshot, equal to the grid, and a grid with a blank never yields itself alone |
| Search.InconsistentCompleteGridIsRecorded | src/Solver.java:162-178 | the all-ones grid is inconsistent and is still recorded as the one solution, because consistency is never checked |
| Search.DuplicatesDoNotBlockFilling | src/Solver.java:164-171 | in the all-ones grid with one blank, the digit 1 is rejected, the digit 2 is accepted, and the first recorded grid is inconsistent |
| Search.SolutionsAreDigits | src/Solver.java:164-178 | from a board holding only 0..9, every recorded grid holds only the digits 1..9 |
| Search.CompletionInheritsConsistency | src/Solver.java:164-167 | a consistent grid that keeps every filled cell of another grid can only come from a consistent grid |
| Search.SolutionsConsistent | src/Solver.java:166-168 | from a consistent start every recorded grid is consistent, because each digit written was first accepted by `possible` |
| Search.BranchesConsistent | src/Solver.java:165-171 | from a consistent grid, everything the digit loop records is consistent |
| Search.InconsistentGridHasNoConsistentSolution | src/Solver.java:162-178 | from a start with a pre-filled duplicate, no recorded grid is consistent |
| Search.ConsistentCompletionIsFound | src/Solver.java:162-171 | every consistent completion of the grid is among the recorded grids |
| Search.BranchesInclude | src/Solver.java:165-171 | the digit loop started at k0 records everything found under each accepted digit k >= k0 |
| Search.SolutionsExactlyConsistentCompletions | src/Solver.java:161-178 | for a consistent start, a grid is recorded if and only if it is a consistent completion of the start |
| Search.SolutionsAscending | src/Solver.java:162-171 | the recorded grids are in strictly ascending row-major lexicographic order, which is the order of the digits chosen at successive blanks |
| Search.BranchesAscending | src/Solver.java:165-171 | what the digit loop records from digit k on is in strictly ascending row-major order |
| Search.EarlierDigitFirst | src/Solver.java:165-171 | everything a smaller digit at the first blank contributes precedes everything the larger digits contribute |
| Search.AgreeBeforeBlank | src/Solver.java:162-167 | two completions that agree on the pre-filled cells before the first blank, and hold different digits there, are ordered by that digit |
| Search.NoSolutionTwice | src/Solver.java:178 | no grid is appended twice |
| Solver.PossibleAt | src/Solver.java:181-208 | the three scans over the live board give the same answer as `Possible` on its snapshot; the method may not modify the board |
| Solver.FindBlank | src/Solver.java:162-164 | the nested row-major scan of the live board returns the first cell holding 0, or none |
| Solver.Solve | src/Solver.java:161-179 | the board on return equals the board on entry, and the list grows by exactly `Solutions` of the entry board |
| Solver.TryDigits | src/Solver.java:165-172 | the digit loop restores the board and appends the snapshots of every accepted digit in ascending order |
| Solver.TryDigit | src/Solver.java:166-170 | one digit is written, explored and reset to 0: the board is restored and the digit's snapshots are appended |
| Solver.Snapshot | src/Solver.java:178 | the recorded copy has the board's 9x9 shape and holds, cell by cell, the value the live board holds at that moment |
| Sudoku.SetCell | src/Solver.java:167-169 | writing a value at (i, j) puts that value at (i, j), keeps the 9x9 shape, and leaves every other cell unchanged |
| Solver.Enumerate | src/Solver.java:17-21 | starting `solve()` on a board loaded with a grid and an empty solution list yields exactly `Solutions` of that grid |

## Left out

- `generateSudoku` and `getUserInputRange` (src/Solver.java:25-126) are left out. They read the initial board interactively from a `Scanner`, which is terminal I/O. `Enumerate` takes the loaded grid as a parameter instead.
- `printSudoku`, `getLineString` (src/Solver.java:128-158) and `showSolutions` (src/Solver.java:210-225) are left out. They only format and page output.
- `main` (src/Solver.java:19-23) is only wiring. `Enumerate` models its `solve()` step.
- The Java stream calls in `possible` and the `clone`/`toArray` idiom at src/Solver.java:178 are modelled by what they mean. The streams become membership scans and the clone becomes `Snapshot`, an immutable deep copy.
- The static `solutions` list is modelled as an accumulator. It is threaded through `Solve` as a parameter and returned.
- The solution list has no size limit in the model beyond the 9^b bound stated on `Search.Solutions`. The Java `LinkedList` at src/Solver.java:17 would run out of memory long before all solutions of a near-empty board were collected; memory exhaustion is not modelled.
- Java's 32-bit `int` is not modelled. The cell values are only compared, never computed with, and `row/3*3` on indices 0..8 cannot overflow. Java's truncating `/` equals Dafny's on these non-negative operands.
- A grid with a single blank and 80 consistently filled cells has at most one solution. This is not proved, because it needs a counting argument over the eight distinct digits already in the blank's row, and the model does not carry one.
