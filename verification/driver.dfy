/** The sequential part of the program's entry point: the four rotated variants
    of the puzzle, solving one variant and turning its board back to the
    puzzle's orientation, and the final check that the board is complete. Which
    of the four concurrent solvers reports first is a parameter, the winner. */
module Driver {
  import opened Tables
  import opened Grid
  import opened Order
  import opened Solver
  import opened Rotation

  /** puzzles holds a puzzle and its three successive quarter-turns. */
  predicate Variants(puzzles: seq<Board>) {
    |puzzles| == 4 && forall k :: 0 <= k < 4 ==> puzzles[k] == RotateTimes(puzzles[0], k)
  }

  /** Preset cell k holds a digit that another cell sharing a unit also holds. */
  predicate Clashes(p: Board, k: int)
    requires 0 <= k < 81
  {
    p[k] != 0 && exists j :: 0 <= j < 81 && j != k && SameUnit(j, k) && p[j] == p[k]
  }

  /** The puzzle, then each variant rotated from the one before. */
  method BuildVariants(puzzle: Board) returns (puzzles: seq<Board>)
    ensures Variants(puzzles) && puzzles[0] == puzzle
  {
    var p1 := RotateBoard(puzzle);
    var p2 := RotateBoard(p1);
    var p3 := RotateBoard(p2);
    puzzles := [puzzle, p1, p2, p3];
    assert RotateTimes(puzzle, 1) == p1;
    assert RotateTimes(puzzle, 2) == p2;
    assert RotateTimes(puzzle, 3) == p3;
  }

  /** One solver: solve variant i, then rotate its board by another 4 - i quarter-turns.
      An invalid variant is reported at its own first conflict, in its own orientation. */
  method SolveVariant(puzzles: seq<Board>, i: int) returns (out: Outcome)
    requires Variants(puzzles) && 0 <= i < 4
    ensures out.Invalid? <==> !Consistent(puzzles[0])
    ensures out.Invalid? ==>
      0 <= out.row < 9 && 0 <= out.col < 9 && FirstConflict(puzzles[i], out.row * 9 + out.col) &&
      out.digit == puzzles[i][out.row * 9 + out.col]
    ensures out.Finished? ==> (Complete(out.board) <==> Solvable(puzzles[0]))
    ensures out.Finished? && Complete(out.board) ==> IsSolution(out.board, puzzles[0])
    ensures out.Finished? && Complete(out.board) ==> LeastSolution(puzzles[i], RotateTimes(out.board, i))
    ensures out.Finished? && !Complete(out.board) ==> out.board == puzzles[0]
    ensures out.Finished? ==> (out.iter == 0 <==> Complete(puzzles[0]))
  {
    var p := puzzles[0];
    ConsistentRotatedTimes(p, i);
    out := SolvePuzzle(puzzles[i]);
    if out.Invalid? {
      return;
    }
    CompleteRotatedTimes(p, i);
    SolvableRotated(p, i);
    if i == 0 {
      return;
    }
    var board := out.board;
    var r := i;
    while r < 4
      invariant i <= r <= 4 && board == RotateTimes(out.board, r - i)
    {
      board := RotateBoard(board);
      r := r + 1;
    }
    CompleteRotatedTimes(out.board, 4 - i);
    if !Complete(out.board) {
      RotateBack(p, i);
    }
    RotateAdd(out.board, 4 - i, i);
    RotateFour(out.board);
    out := Finished(board, out.iter);
  }

  /** A clash at cell k of b is a clash of the same digit at the rotated cell. */
  lemma ClashesRotated(b: Board, k: int)
    requires 0 <= k < 81 && Clashes(b, k)
    ensures Rotated(b)[RotIndex(k)] == b[k] && Clashes(Rotated(b), RotIndex(k))
  {
    var j :| 0 <= j < 81 && j != k && SameUnit(j, k) && b[j] == b[k];
    SameUnitRotated(j, k);
    RotIndexBijective(j, k);
    RotatedAt(b, j);
    RotatedAt(b, k);
  }

  /** The same, after n quarter-turns followed by one more. */
  lemma ClashesRotatedTimes(b: Board, n: nat, k: int)
    requires 0 <= k < 81 && Clashes(RotateTimes(b, n), k)
    ensures RotateTimes(b, n + 1)[RotIndex(k)] == RotateTimes(b, n)[k]
    ensures Clashes(RotateTimes(b, n + 1), RotIndex(k))
  {
    ClashesRotated(RotateTimes(b, n), k);
  }

  /** The cell at (row, col) of variant i, which clashes there, rotated back by another
      4 - i quarter-turns: a cell of the puzzle as given that holds the same digit and
      clashes in it. */
  method ReportInPuzzleFrame(puzzles: seq<Board>, i: int, row: int, col: int) returns (row': int, col': int)
    requires Variants(puzzles) && 0 <= i < 4 && 0 <= row < 9 && 0 <= col < 9
    requires Clashes(puzzles[i], row * 9 + col)
    ensures 0 <= row' < 9 && 0 <= col' < 9 && Clashes(puzzles[0], row' * 9 + col')
    ensures puzzles[0][row' * 9 + col'] == puzzles[i][row * 9 + col]
  {
    var k := row * 9 + col;
    ghost var v := puzzles[i];
    if i > 0 {
      var r := i;
      while r < 4
        invariant i <= r <= 4 && 0 <= k < 81
        invariant Clashes(RotateTimes(v, r - i), k) && RotateTimes(v, r - i)[k] == v[row * 9 + col]
      {
        ClashesRotatedTimes(v, r - i, k);
        k := RotIndex(k);
        r := r + 1;
      }
      assert v == RotateTimes(puzzles[0], i);
      RotateBack(puzzles[0], i);
    }
    row', col' := k / 9, k % 9;
    assert k == row' * 9 + col';
  }

  /** One solver, with an invalid variant reported at a cell of the puzzle as given: the
      conflicting cell of the variant is rotated back by the same 4 - i quarter-turns as a
      solved board, so the reported cell holds the reported digit and clashes in the puzzle. */
  method SolveVariantInPuzzleFrame(puzzles: seq<Board>, i: int) returns (out: Outcome)
    requires Variants(puzzles) && 0 <= i < 4
    ensures out.Invalid? <==> !Consistent(puzzles[0])
    ensures out.Invalid? ==>
      0 <= out.row < 9 && 0 <= out.col < 9 && Clashes(puzzles[0], out.row * 9 + out.col) &&
      out.digit == puzzles[0][out.row * 9 + out.col]
    ensures out.Finished? ==> (Complete(out.board) <==> Solvable(puzzles[0]))
    ensures out.Finished? && Complete(out.board) ==> IsSolution(out.board, puzzles[0])
    ensures out.Finished? && Complete(out.board) ==> LeastSolution(puzzles[i], RotateTimes(out.board, i))
    ensures out.Finished? && !Complete(out.board) ==> out.board == puzzles[0]
    ensures out.Finished? ==> (out.iter == 0 <==> Complete(puzzles[0]))
  {
    out := SolveVariant(puzzles, i);
    if out.Invalid? {
      var row, col := ReportInPuzzleFrame(puzzles, i, out.row, out.col);
      out := Invalid(row, col, out.digit);
    }
  }

  /** The final scan: the board is a solution exactly when no cell is empty. */
  method HasSolution(solution: Board) returns (ok: bool)
    ensures ok <==> Complete(solution)
  {
    ok := true;
    for i := 0 to 81
      invariant ok <==> forall j :: 0 <= j < i ==> solution[j] != 0
    {
      if solution[i] == 0 {
        ok := false;
      }
    }
  }

  /** The whole run on a puzzle as written, with the solver for variant winner the first
      to report. An invalid puzzle is reported at the winner's first conflict, in the
      winner's own orientation. A solvable puzzle gets a solution, an unsolvable one fails
      the final scan, and a puzzle with exactly one solution gets that solution. */
  method Solve(puzzle: Board, winner: int) returns (out: Outcome, hasSolution: bool)
    requires 0 <= winner < 4
    ensures out.Invalid? <==> !Consistent(puzzle)
    ensures out.Invalid? ==>
      !hasSolution && 0 <= out.row < 9 && 0 <= out.col < 9 &&
      FirstConflict(RotateTimes(puzzle, winner), out.row * 9 + out.col) &&
      out.digit == RotateTimes(puzzle, winner)[out.row * 9 + out.col]
    ensures out.Finished? ==> (hasSolution <==> Solvable(puzzle))
    ensures out.Finished? && hasSolution ==> IsSolution(out.board, puzzle)
    ensures out.Finished? && hasSolution ==> LeastSolution(RotateTimes(puzzle, winner), RotateTimes(out.board, winner))
    ensures out.Finished? && !hasSolution ==> out.board == puzzle
    ensures out.Finished? ==> forall s: Board :: UniqueSolution(puzzle, s) ==> out.board == s
    ensures out.Finished? ==> (out.iter == 0 <==> Complete(puzzle))
  {
    var puzzles := BuildVariants(puzzle);
    assert puzzles[winner] == RotateTimes(puzzle, winner);
    out := SolveVariant(puzzles, winner);
    hasSolution := false;
    if out.Finished? {
      hasSolution := HasSolution(out.board);
    }
  }

  /** The whole run with the corrected solver: whichever solver wins, an invalid puzzle is
      reported at a clashing preset of the puzzle as given, holding the reported digit. */
  method SolveInPuzzleFrame(puzzle: Board, winner: int) returns (out: Outcome, hasSolution: bool)
    requires 0 <= winner < 4
    ensures out.Invalid? <==> !Consistent(puzzle)
    ensures out.Invalid? ==>
      !hasSolution && 0 <= out.row < 9 && 0 <= out.col < 9 &&
      Clashes(puzzle, out.row * 9 + out.col) && out.digit == puzzle[out.row * 9 + out.col]
    ensures out.Finished? ==> (hasSolution <==> Solvable(puzzle))
    ensures out.Finished? && hasSolution ==> IsSolution(out.board, puzzle)
    ensures out.Finished? && hasSolution ==> LeastSolution(RotateTimes(puzzle, winner), RotateTimes(out.board, winner))
    ensures out.Finished? && !hasSolution ==> out.board == puzzle
    ensures out.Finished? ==> forall s: Board :: UniqueSolution(puzzle, s) ==> out.board == s
    ensures out.Finished? ==> (out.iter == 0 <==> Complete(puzzle))
  {
    var puzzles := BuildVariants(puzzle);
    assert puzzles[winner] == RotateTimes(puzzle, winner);
    out := SolveVariantInPuzzleFrame(puzzles, winner);
    hasSolution := false;
    if out.Finished? {
      hasSolution := HasSolution(out.board);
    }
  }

  /** A puzzle whose first row starts with two 1s. */
  function TwoOnes(): (p: Board)
    ensures p[0] == 1 && p[1] == 1 && forall k :: 2 <= k < 81 ==> p[k] == 0
  {
    seq(81, k => if k < 2 then 1 else 0)
  }

  /** The first rotated variant of TwoOnes has its two 1s at rows 7 and 8 of column 0. */
  lemma TwoOnesRotated()
    ensures forall k :: 0 <= k < 81 ==> RotateTimes(TwoOnes(), 1)[k] == if k == 63 || k == 72 then 1 else 0
  {
    var p := TwoOnes();
    assert RotateTimes(p, 1) == Rotated(p);
    forall k | 0 <= k < 81 ensures Rotated(p)[k] == if k == 63 || k == 72 then 1 else 0 {
      var i := UnrotIndex(k);
      RotatedAt(p, i);
      assert RotIndex(0) == 72 && RotIndex(1) == 63;
      if k == 72 {
        RotIndexBijective(i, 0);
      } else if k == 63 {
        RotIndexBijective(i, 1);
      }
    }
  }

  /** Solving the first rotated variant of TwoOnes reports row 8, column 0, a cell
      that is empty in TwoOnes itself: the report is in the variant's orientation. */
  lemma VariantReportsEmptyCell()
    ensures FirstConflict(RotateTimes(TwoOnes(), 1), 8 * 9 + 0) && TwoOnes()[8 * 9 + 0] == 0
    ensures forall k :: FirstConflict(RotateTimes(TwoOnes(), 1), k) ==> k == 72
  {
    var v := RotateTimes(TwoOnes(), 1);
    TwoOnesRotated();
    assert SameUnit(63, 72) && v[63] == v[72] == 1;
    assert !Conflicts(v, 63);
  }
}
