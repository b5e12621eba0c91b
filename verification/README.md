# A verified model of a bitmask backtracking Sudoku solver

The program reads a puzzle of 81 digits (0 for an empty cell) and solves it. It
solves four copies at once: the puzzle as given and its three successive
quarter-turns. The first copy to finish wins. Its board is turned back to the
puzzle's orientation, checked for empty cells, and printed.

Each solver works in two phases:

- **Marking.** Each of the 9 rows, 9 columns and 9 boxes gets a 16-bit mask. Bit d of
  a mask means that digit d is placed in that unit. The solver visits the cells in
  row-major order and sets the bit of each preset digit. If the bit is already set,
  the puzzle is invalid: the solver reports that row, column and digit and the
  process exits.
- **Search.** A copy of the puzzle is searched by chronological backtracking. A cursor
  moves over the cells with a signed step, +1 forward and -1 back. Preset cells are
  stepped over. At a free cell, the solver clears the digit left there by an earlier
  visit, from the board and from the three masks. It then writes the first larger
  digit that none of the three masks holds and moves forward, or moves back if there
  is no such digit. The search counts its visits to free cells.

The model is written in Dafny, one module per part of the program:

- **`Tables`**: the digit-to-bit table, the cell-to-box table, and the row, column and
  box arithmetic they encode.
- **`Grid`**: boards, units, consistency, completeness and solutions.
- **`Masks`**: the invariant that each mask is exactly the set of digits placed in
  its unit, and why "set" and "clear" keep it.
- **`Order`**: the lexicographic order on boards, and the numeric measure that shows
  the search ends.
- **`Explore`**: the invariant of the search loop, and the proof that no solution is
  skipped.
- **`Solver`**: preset marking, the candidate scan, one search turn, the search loop
  and `solvePuzzle`.
- **`Rotation`**: the quarter-turn, as an index map, a function and the source's loop,
  and what rotation preserves.
- **`Driver`**: the sequential part of the entry point. It builds the four variants,
  runs one solver and turns its board back, then runs the final empty-cell scan. Which
  solver wins is a parameter.
- **`Scenarios`**: facts about the blank board.

Boards are values (`seq` of 81 cells of type `Digit`, an 8-bit value at most 9), as
Go's `[81]byte` arrays are. The loops of the source are methods with loop
invariants. Each method is proved against predicates and functions about boards.

Three behaviours of the program worth knowing:

- **Invalid-puzzle reports.** A rotated solver reports an invalid preset in its own,
  rotated, coordinates. The cell it names can be empty in the puzzle as given. See
  "## Findings".
- **Several solutions.** A solver returns the lexicographically least solution of
  the variant it solves. When a puzzle has more than one solution, different winners
  can report different grids. `Scenarios.WinnerMatters` shows this for the blank
  board. The answer is guaranteed not to depend on the winner when the solution is
  unique, which `Driver.Solve` proves. The blank board shows that it can depend on the
  winner otherwise.
- **Fail-fast.** The invalid-puzzle check is not done once before the four solvers
  start. Each solver checks its own variant, and the first to find the conflict ends
  the process.

## Model

| member | source | states |
|---|---|---|
| Tables.Pattern | sudoku.go:100-112 | The digit table gives the empty pattern for 0 and the single bit d for a digit d in 1..9, so every non-zero entry is a one-bit mask |
| Tables.SquareOfIsBox | sudoku.go:114-124 | The box table agrees with `(row / 3) * 3 + col / 3` on every cell 0..80, and row, column and box are all in 0..8 |
| Grid.ConsistentIffNoConflict | sudoku.go:133-149 | A puzzle has no two equal digits in one unit exactly when no preset repeats a digit of an earlier cell in its units, which is what a row-major scan can test |
| Masks.HasAfterSet | sudoku.go:145-147 | OR-ing in the bit of digit v adds v to the digits a mask holds and changes nothing else |
| Masks.HasAfterClear | sudoku.go:183-185 | AND-ing with the complement of the bit of digit c removes c and keeps every other digit |
| Masks.EmptyMask | sudoku.go:127-129 | The zero mask describes a unit with no digit placed |
| Masks.MasksAfterPlace | sudoku.go:192-195 | Writing v into an empty cell and setting v's bit in the masks of the cell's row, column and box keeps all 27 masks exact |
| Masks.MasksAfterClear | sudoku.go:181-185 | Emptying a filled cell of a consistent board and clearing its digit's bit in its three masks keeps all 27 masks exact |
| Masks.BlockedIffMasked | sudoku.go:190 | With exact masks, the row, column or box mask of an empty cell holds v exactly when another cell sharing a unit with it holds v |
| Order.LexTotal | sudoku.go:163-205 | The search order on boards is a strict total order: irreflexive, asymmetric and total |
| Order.LeastSolutionUnique | sudoku.go:163-205 | A puzzle has at most one least solution, so the search's answer for a puzzle is determined |
| Order.LexDecrease | sudoku.go:163 | Lowering one base-11 digit of the measure lowers the measure, whatever the later digits do |
| Order.MeasureSkip | sudoku.go:168-170 | Stepping over a preset cell leaves the termination measure unchanged |
| Order.MeasurePlace | sudoku.go:188-198 | Raising a free cell's digit and moving forward strictly lowers the measure |
| Order.MeasureFail | sudoku.go:200-201 | Emptying a free cell and moving back strictly lowers the measure |
| Explore.InitialState | sudoku.go:151-163 | The search invariant holds at cell 0, moving forward, on the copy of a consistent puzzle |
| Explore.SolutionAhead | sudoku.go:188-198 | Any solution that agrees with the board before free cell i holds at i a digit above the cell's current value that no other cell blocks |
| Explore.SkipPreset | sudoku.go:167-170 | A turn on a preset cell keeps the search invariant, in either direction |
| Explore.ConsistentAfterPlace | sudoku.go:192 | Writing a digit that no cell sharing a unit holds into an empty cell keeps the board consistent |
| Explore.Advance | sudoku.go:188-204 | Writing the first unblocked digit above the old value and moving forward keeps the invariant and skips no solution |
| Explore.Retreat | sudoku.go:179-204 | Emptying a cell with no unblocked digit left and moving back keeps the invariant: every solution now lies ahead of the board |
| Explore.FinishedForward | sudoku.go:163 | Leaving the loop at cell 81 leaves a solution that no other solution precedes |
| Explore.FinishedBack | sudoku.go:163 | Leaving the loop at cell -1 leaves the puzzle restored, and the puzzle has no solution |
| Solver.UptoBlocked | sudoku.go:133-149 | With the presets before cell i marked, preset i is blocked exactly when it repeats a digit of an earlier cell in its units |
| Solver.EmptyMasks | sudoku.go:127-129 | Nine zero masks per family describe the board before any preset is marked |
| Solver.MarkTest | sudoku.go:141 | The source's three-mask test on preset i is true exactly when preset i conflicts with an earlier preset |
| Solver.MarkSet | sudoku.go:145-147 | Setting preset i's bit in its three masks marks the presets up to and including i |
| Solver.MarkCell | sudoku.go:135-147 | One step of the marking scan reports a conflict exactly when the cell's preset conflicts with an earlier one; otherwise the masks then describe the presets up to this cell |
| Solver.MarkPresets | sudoku.go:133-149 | Marking reports a conflict exactly when the puzzle is inconsistent, naming the first conflicting preset's row, column and digit; otherwise each mask holds exactly its unit's presets |
| Solver.NextCandidate | sudoku.go:188-198 | The candidate scan returns the smallest digit above the current value that no mask holds, or 10 when every larger digit is held |
| Solver.CellCoords | sudoku.go:164-175 | The source's `i % 9`, `(i - col) / 9` and box-table lookup give the cell's column, row and box |
| Solver.ClearCell | sudoku.go:179-186 | Clearing a revisited cell empties it and keeps the masks exact |
| Solver.PlaceDigit | sudoku.go:192-195 | Placing a candidate writes it into the cell and keeps the masks exact |
| Solver.CandidateFor | sudoku.go:188-198 | With exact masks, the scan returns the first digit above the current value that no other cell sharing a unit holds, or 10 |
| Solver.VisitFree | sudoku.go:172-204 | One turn on a free cell changes only that cell. If a digit is written, it is the smallest digit above the cell's old value that no other cell of its units holds, and the step becomes +1. If every larger digit is blocked, the cell is emptied and the step becomes -1. The turn keeps the search invariant and the masks exact, and strictly lowers the termination measure |
| Solver.Search | sudoku.go:151-207 | The search ends. The board is complete exactly when the puzzle is solvable, and then it is the least solution. Otherwise it is the puzzle unchanged. The visit count is 0 exactly when the puzzle has no free cell |
| Solver.SolvePuzzle | sudoku.go:126-208 | An inconsistent puzzle is reported at its first conflicting preset. A consistent one gets its least solution, or itself back when it has none. Presets are always kept |
| Rotation.RotIndex | sudoku.go:213-216 | The target index `(8 - col) * 9 + row` is a cell whose row is 8 minus the old column and whose column is the old row |
| Rotation.UnrotIndex | sudoku.go:211-219 | Every index is the target of some cell, so the rotation is onto |
| Rotation.RotIndexBijective | sudoku.go:211-219 | The index map is one-to-one, and the inverse undoes it |
| Rotation.RotatedAt | sudoku.go:211-219 | The rotated board holds each cell's value at that cell's target index |
| Rotation.RotateBoard | sudoku.go:211-219 | The source's fill loop produces exactly the rotated board |
| Rotation.RotateFour | sudoku.go:39-42 | Four quarter-turns give back the original board |
| Rotation.RotateAdd | sudoku.go:55-57 | Rotating m times and then n more times is rotating m + n times |
| Rotation.RotateBack | sudoku.go:54-58 | Rotating the k-th variant by another 4 - k quarter-turns restores the puzzle's orientation |
| Rotation.SameUnitRotated | sudoku.go:211-219 | Two cells share a unit exactly when their rotated cells do |
| Rotation.ConsistentRotated | sudoku.go:211-219 | A board is consistent exactly when its rotation is |
| Rotation.CompleteRotated | sudoku.go:211-219 | A board is complete exactly when its rotation is |
| Rotation.SolutionRotated | sudoku.go:211-219 | s solves p exactly when the rotation of s solves the rotation of p |
| Rotation.SolvableRotated | sudoku.go:52-58 | A variant is solvable exactly when the puzzle is, and any solution of the variant, rotated back, solves the puzzle |
| Driver.BuildVariants | sudoku.go:39-42 | The four variants are the puzzle and its first, second and third quarter-turns |
| Driver.SolveVariant | sudoku.go:52-58 | As written: validity, solvability, solution and presets are reported for the puzzle as given, but an invalid preset is named at the variant's own first conflict, in rotated coordinates |
| Driver.ClashesRotated | sudoku.go:211-219 | A clashing preset of a board is a clashing preset with the same digit at its rotated cell |
| Driver.ReportInPuzzleFrame | sudoku.go:54-58 | Corrected: turning a clashing cell of variant i back by 4 - i quarter-turns gives a clashing cell of the puzzle with the same digit |
| Driver.SolveVariantInPuzzleFrame | sudoku.go:52-58 | Corrected: as SolveVariant, but an invalid preset is named at a cell of the puzzle as given that holds the reported digit and clashes there |
| Driver.HasSolution | sudoku.go:70-75 | The final scan reports success exactly when the board has no empty cell |
| Driver.Solve | sudoku.go:39-80 | The run as written, with the given solver winning. An invalid puzzle is reported at the winner's first conflicting preset, in the winner's rotated coordinates. A solvable puzzle gets a solution, which is the least solution in the winner's orientation. An unsolvable one fails the final scan. A puzzle with a unique solution gets that solution, whichever solver wins |
| Driver.SolveInPuzzleFrame | sudoku.go:39-80 | Corrected: as Driver.Solve, but whichever solver wins, an invalid puzzle is reported at a clashing preset of the puzzle as given, holding the reported digit |
| Driver.TwoOnesRotated | sudoku.go:211-219 | The first quarter-turn of a puzzle with 1s at (0, 0) and (0, 1) has its 1s at (7, 0) and (8, 0) |
| Driver.VariantReportsEmptyCell | sudoku.go:142 | For that puzzle, the first rotated solver's first conflict is row 8, column 0, which is empty in the puzzle as given |
| Scenarios.BlankSolvable | sudoku.go:70-80 | The blank board has a solution, a fixed sample grid that is checked to be complete and consistent. With `Driver.Solve`, the final scan therefore succeeds on it |
| Scenarios.NoGridFixedByRotation | sudoku.go:211-219 | No completed consistent grid is unchanged by a quarter-turn |
| Scenarios.WinnerMatters | sudoku.go:59-63 | On the blank board, the grid published when the unrotated solver wins differs from the one published when the first rotated solver wins |

## Left out

- The command line is not modelled: flag parsing, the 81-digit regular expression and the digit conversion (sudoku.go:16-37). The model takes the puzzle as a board whose cells are 0..9, which is what that code guarantees.
- Timing, printing and `printBoard` are not modelled. They are output only.
- The four goroutines, the wait group and the one-shot commit (sudoku.go:47-67) are not modelled as concurrency. Which solver commits first is the `winner` parameter of `Driver.Solve`.
- `os.Exit(2)` on an invalid puzzle is modelled as the result `Outcome.Invalid(row, col, digit)`. The model does not capture that the whole process stops.
- Solver.Search: the visit count is an unbounded `nat`. The wrap-around of Go's `uint64` is not modelled.
- Solver.NextCandidate: the source writes the candidate and breaks out of the candidate loop. The model returns the candidate and writes it with `Solver.PlaceDigit`. The resulting board and masks are the same.
- Solver.SolvePuzzle: the copy loop that clones the puzzle (sudoku.go:153-156) is a value copy, as Go's array assignment is.
- The concrete classic puzzle and its expected solution are not checked cell by cell. `Driver.Solve` states the general fact that a puzzle with a unique solution gets that solution.
- The property "one free cell with a unique legal digit takes exactly one visit" is not stated. The model only states when the count is zero.

## Findings

| source | as written | input that shows it | evidently intended | confidence | as-written member | corrected member |
|---|---|---|---|---|---|---|
| sudoku.go:142 | A solver for a rotated variant reports the invalid preset's row and column in the variant's rotated coordinates. The goroutine at lines 52-58 rotates only the solved board back. | Two 1s at row 0, columns 0 and 1. The first rotated solver reports `[8, 0] = 1`, and cell (8, 0) is empty in the puzzle. | The reported cell is turned back like the board, so it names a clashing preset of the puzzle as given. | not executed | Driver.SolveVariant, Driver.Solve, Driver.VariantReportsEmptyCell | Driver.SolveVariantInPuzzleFrame, Driver.SolveInPuzzleFrame |
