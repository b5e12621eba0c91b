/** The solver proper: marking the presets in the masks, then the backtracking
    search over the free cells in row-major order. */
module Solver {
  import opened Tables
  import opened Grid
  import opened Masks
  import opened Order
  import opened Explore

  /** How solving a puzzle ends: an invalid puzzle is reported by the row, column and
      digit of the first preset that repeats an earlier one; otherwise the search
      returns its final board and the number of turns it spent on free cells. */
  datatype Outcome = Invalid(row: int, col: int, digit: Digit) | Finished(board: Board, iter: nat)

  /** What marking the presets produces: the first conflict, or the three mask arrays. */
  datatype Marking = Conflict(row: int, col: int, digit: Digit) | Marked(rows: seq<bv16>, cols: seq<bv16>, squares: seq<bv16>)

  /** The puzzle with every cell from i on emptied: the presets marked so far. */
  function Upto(p: Board, i: int): (b: Board)
    ensures forall j :: 0 <= j < 81 ==> b[j] == if j < i then p[j] else 0
  {
    seq(81, j requires 0 <= j < 81 => if j < i then p[j] else 0)
  }

  /** Cell k is the first preset that repeats a digit preset earlier in one of its units. */
  predicate FirstConflict(p: Board, k: int) {
    0 <= k < 81 && Conflicts(p, k) && forall j :: 0 <= j < k ==> !Conflicts(p, j)
  }

  /** With the presets before i marked, a preset at i is blocked exactly when it conflicts. */
  lemma UptoBlocked(p: Board, i: int)
    requires 0 <= i < 81 && p[i] != 0
    ensures Blocked(Upto(p, i), i, p[i]) <==> Conflicts(p, i)
  {
    if Conflicts(p, i) {
      var j :| 0 <= j < i && SameUnit(j, i) && p[j] == p[i];
      assert SameUnit(i, j) && Upto(p, i)[j] == p[i];
    }
  }

  /** Nine empty masks per family summarise the empty board. */
  lemma EmptyMasks(p: Board)
    ensures MasksExact(seq(9, _ => 0), seq(9, _ => 0), seq(9, _ => 0), Upto(p, 0))
  {
    var zeros: seq<bv16> := seq(9, _ => 0);
    forall r | 0 <= r < 9
      ensures Summarises(zeros[r], Upto(p, 0), Row(r))
      ensures Summarises(zeros[r], Upto(p, 0), Col(r))
      ensures Summarises(zeros[r], Upto(p, 0), Box(r))
    {
      EmptyMask(Upto(p, 0), Row(r));
      EmptyMask(Upto(p, 0), Col(r));
      EmptyMask(Upto(p, 0), Box(r));
    }
  }

  /** With the presets before i marked, the source's test on preset i's row, column and
      box masks finds the digit exactly when preset i conflicts with an earlier one. */
  lemma MarkTest(p: Board, rows: seq<bv16>, cols: seq<bv16>, squares: seq<bv16>, i: int,
                 row: int, col: int, sq: int, d: bv16)
    requires 0 <= i < 81 && p[i] != 0 && MasksExact(rows, cols, squares, Upto(p, i))
    requires row == RowOf(i) && col == ColOf(i) && sq == BoxOf(i) && d == Bit(p[i])
    ensures 0 <= row < 9 && 0 <= col < 9 && 0 <= sq < 9
    ensures (squares[sq] & d != 0 || rows[row] & d != 0 || cols[col] & d != 0) <==> Conflicts(p, i)
  {
    BlockedIffMasked(rows, cols, squares, Upto(p, i), i, p[i]);
    UptoBlocked(p, i);
  }

  /** Setting preset i's bit in its row, column and box masks marks it. */
  lemma MarkSet(p: Board, rows: seq<bv16>, cols: seq<bv16>, squares: seq<bv16>, i: int,
                row: int, col: int, sq: int, d: bv16)
    requires 0 <= i < 81 && p[i] != 0 && MasksExact(rows, cols, squares, Upto(p, i))
    requires row == RowOf(i) && col == ColOf(i) && sq == BoxOf(i) && d == Bit(p[i])
    ensures 0 <= row < 9 && 0 <= col < 9 && 0 <= sq < 9
    ensures MasksExact(rows[row := rows[row] | d], cols[col := cols[col] | d], squares[sq := squares[sq] | d],
                       Upto(p, i + 1))
  {
    MasksAfterPlace(rows, cols, squares, Upto(p, i), i, row, col, sq, p[i], d);
    assert Upto(p, i)[i := p[i]] == Upto(p, i + 1);
  }

  /** Marking one cell: a preset whose digit one of the masks of its row, column or box
      already holds is a conflict; otherwise its bit is set in all three. */
  method MarkCell(puzzle: Board, rows: seq<bv16>, cols: seq<bv16>, squares: seq<bv16>, row: int, col: int)
    returns (conflict: bool, rows': seq<bv16>, cols': seq<bv16>, squares': seq<bv16>)
    requires 0 <= row < 9 && 0 <= col < 9
    requires MasksExact(rows, cols, squares, Upto(puzzle, row * 9 + col))
    ensures conflict <==> Conflicts(puzzle, row * 9 + col)
    ensures !conflict ==> MasksExact(rows', cols', squares', Upto(puzzle, row * 9 + col + 1))
  {
    var i := row * 9 + col;
    rows', cols', squares' := rows, cols, squares;
    var digit := puzzle[i];
    if digit == 0 {
      assert Upto(puzzle, i) == Upto(puzzle, i + 1);
      return false, rows', cols', squares';
    }
    var d := Pattern(digit);
    var sq := SquareOf[i];
    SquareOfIsBox(i);
    CellAt(row, col);
    MarkTest(puzzle, rows, cols, squares, i, row, col, sq, d);
    if squares[sq] & d != 0 || rows[row] & d != 0 || cols[col] & d != 0 {
      return true, rows', cols', squares';
    }
    MarkSet(puzzle, rows, cols, squares, i, row, col, sq, d);
    squares', rows', cols' := squares[sq := squares[sq] | d], rows[row := rows[row] | d], cols[col := cols[col] | d];
    conflict := false;
  }

  /** The preset-marking pass: visits the cells row by row and sets each preset's bit in
      the masks of its row, column and box, stopping at the first preset whose digit
      one of those masks already holds. */
  method MarkPresets(puzzle: Board) returns (m: Marking)
    ensures m.Conflict? <==> !Consistent(puzzle)
    ensures m.Conflict? ==>
      0 <= m.row < 9 && 0 <= m.col < 9 && FirstConflict(puzzle, m.row * 9 + m.col) &&
      m.digit == puzzle[m.row * 9 + m.col]
    ensures m.Marked? ==> MasksExact(m.rows, m.cols, m.squares, puzzle)
  {
    var rows, cols, squares: seq<bv16> := seq(9, _ => 0), seq(9, _ => 0), seq(9, _ => 0);
    EmptyMasks(puzzle);
    var i, row := 0, 0;
    while row < 9
      invariant 0 <= row <= 9 && i == row * 9
      invariant MasksExact(rows, cols, squares, Upto(puzzle, i))
      invariant forall k :: 0 <= k < i ==> !Conflicts(puzzle, k)
    {
      var col := 0;
      while col < 9
        invariant 0 <= col <= 9 && i == row * 9 + col
        invariant MasksExact(rows, cols, squares, Upto(puzzle, i))
        invariant forall k :: 0 <= k < i ==> !Conflicts(puzzle, k)
      {
        var conflict;
        conflict, rows, cols, squares := MarkCell(puzzle, rows, cols, squares, row, col);
        if conflict {
          ConsistentIffNoConflict(puzzle);
          return Conflict(row, col, puzzle[i]);
        }
        col, i := col + 1, i + 1;
      }
      row := row + 1;
    }
    assert Upto(puzzle, 81) == puzzle;
    ConsistentIffNoConflict(puzzle);
    m := Marked(rows, cols, squares);
  }

  /** No mask of the cell's row, column or box holds digit v. */
  predicate Free(rowMask: bv16, colMask: bv16, squareMask: bv16, v: Digit) {
    !Has(rowMask, v) && !Has(colMask, v) && !Has(squareMask, v)
  }

  /** Free unfolded to the bit tests of the scan, stated once for the solver to use. */
  lemma FreeIff(rowMask: bv16, colMask: bv16, squareMask: bv16, v: Digit)
    ensures Free(rowMask, colMask, squareMask, v) <==>
      rowMask & Bit(v) == 0 && colMask & Bit(v) == 0 && squareMask & Bit(v) == 0
  {
  }

  /** The candidate scan: the first digit above curr that none of the three masks holds,
      or 10 when every digit above curr is held. */
  method NextCandidate(rowMask: bv16, colMask: bv16, squareMask: bv16, curr: Digit) returns (val: bv8)
    ensures curr < val <= 10
    ensures forall v: Digit :: curr < v < val ==> !Free(rowMask, colMask, squareMask, v)
    ensures val <= 9 ==> Free(rowMask, colMask, squareMask, val as Digit)
  {
    val := curr + 1;
    while val <= 9
      invariant curr < val <= 10
      invariant forall v: Digit :: curr < v < val ==> !Free(rowMask, colMask, squareMask, v)
      decreases 10 - val
    {
      var d := Pattern(val as Digit);
      FreeIff(rowMask, colMask, squareMask, val as Digit);
      if rowMask & d == 0 && squareMask & d == 0 && colMask & d == 0 {
        return;
      }
      val := val + 1;
    }
  }

  /** The row and column of cell i, computed as the source does, and its box, read from
      the box table: they are the cell's row, column and box. */
  method CellCoords(i: int) returns (row: int, col: int, sq: int)
    requires 0 <= i < 81
    ensures row == RowOf(i) && col == ColOf(i) && sq == BoxOf(i)
    ensures 0 <= row < 9 && 0 <= col < 9 && 0 <= sq < 9
  {
    col := i % 9;
    row := (i - col) / 9;
    sq := SquareOf[i];
    SquareOfIsBox(i);
  }

  /** Emptying cell i and clearing its digit from the masks of its row, column and box
      (the source's "clear"), on a consistent board whose masks are exact. */
  method ClearCell(board: Board, rows: seq<bv16>, cols: seq<bv16>, squares: seq<bv16>, i: int, row: int, col: int, sq: int)
    returns (board': Board, rows': seq<bv16>, cols': seq<bv16>, squares': seq<bv16>)
    requires Consistent(board) && MasksExact(rows, cols, squares, board) && 0 <= i < 81 && board[i] != 0
    requires row == RowOf(i) && col == ColOf(i) && sq == BoxOf(i)
    ensures board' == board[i := 0] && MasksExact(rows', cols', squares', board')
  {
    var d := Pattern(board[i]);
    MasksAfterClear(rows, cols, squares, board, i, row, col, sq, d);
    board', squares', rows', cols' :=
      board[i := 0], squares[sq := squares[sq] & !d], rows[row := rows[row] & !d], cols[col := cols[col] & !d];
  }

  /** Writing v into empty cell i and setting its bit in the masks of the cell's row,
      column and box (the source's "set"), keeping the masks exact. */
  method PlaceDigit(board: Board, rows: seq<bv16>, cols: seq<bv16>, squares: seq<bv16>, i: int, row: int, col: int, sq: int, v: Digit)
    returns (board': Board, rows': seq<bv16>, cols': seq<bv16>, squares': seq<bv16>)
    requires MasksExact(rows, cols, squares, board) && 0 <= i < 81 && board[i] == 0 && v != 0
    requires row == RowOf(i) && col == ColOf(i) && sq == BoxOf(i)
    ensures board' == board[i := v] && MasksExact(rows', cols', squares', board')
  {
    var d := Pattern(v);
    MasksAfterPlace(rows, cols, squares, board, i, row, col, sq, v, d);
    board', squares', rows', cols' :=
      board[i := v], squares[sq := squares[sq] | d], rows[row := rows[row] | d], cols[col := cols[col] | d];
  }

  /** Every digit strictly between lo and hi is held by another cell sharing a unit with i. */
  ghost predicate BlockedBetween(b: Board, i: int, lo: int, hi: int) {
    forall v: Digit :: lo < v as int < hi ==> Blocked(b, i, v)
  }

  /** With exact masks and cell i empty, the candidate scan over the masks of i's row,
      column and box returns the first digit above curr that no other cell sharing a unit
      with i holds, or 10. */
  method CandidateFor(board: Board, rows: seq<bv16>, cols: seq<bv16>, squares: seq<bv16>, i: int, row: int, col: int, sq: int, curr: Digit)
    returns (val: bv8)
    requires MasksExact(rows, cols, squares, board) && 0 <= i < 81 && board[i] == 0
    requires row == RowOf(i) && col == ColOf(i) && sq == BoxOf(i)
    ensures curr < val <= 10
    ensures BlockedBetween(board, i, curr as int, val as int)
    ensures val <= 9 ==> !Blocked(board, i, val as Digit)
  {
    SquareOfIsBox(i);
    val := NextCandidate(rows[row], cols[col], squares[sq], curr);
    forall v: Digit | curr < v < val ensures Blocked(board, i, v) {
      assert !Free(rows[row], cols[col], squares[sq], v);
      BlockedIffMasked(rows, cols, squares, board, i, v);
    }
    if val <= 9 {
      BlockedIffMasked(rows, cols, squares, board, i, val as Digit);
    }
  }

  /** One turn of the search on free cell i: empty the cell if the search came back to it,
      write the next candidate digit and move forward, or move back when there is none. */
  method VisitFree(puzzle: Board, board: Board, rows: seq<bv16>, cols: seq<bv16>, squares: seq<bv16>, i: int, backtrack: int)
    returns (board': Board, rows': seq<bv16>, cols': seq<bv16>, squares': seq<bv16>, backtrack': int)
    requires 0 <= i < 81 && puzzle[i] == 0 && (backtrack == 1 || backtrack == -1)
    requires SearchState(puzzle, board, i, backtrack) && MasksExact(rows, cols, squares, board)
    ensures backtrack' == 1 || backtrack' == -1
    ensures forall j :: 0 <= j < 81 && j != i ==> board'[j] == board[j]
    ensures backtrack' == 1 <==> board'[i] != 0
    ensures board'[i] != 0 ==>
      board[i] < board'[i] && !Blocked(board[i := 0], i, board'[i]) &&
      BlockedBetween(board[i := 0], i, board[i] as int, board'[i] as int)
    ensures board'[i] == 0 ==> BlockedBetween(board[i := 0], i, board[i] as int, 10)
    ensures SearchState(puzzle, board', i + backtrack', backtrack') && MasksExact(rows', cols', squares', board')
    ensures Measure(puzzle, board', i + backtrack', backtrack') < Measure(puzzle, board, i, backtrack)
  {
    var row, col, sq := CellCoords(i);
    var curr := board[i];
    board', rows', cols', squares' := board, rows, cols, squares;
    if curr != 0 {
      board', rows', cols', squares' := ClearCell(board, rows, cols, squares, i, row, col, sq);
    } else {
      assert board' == board[i := 0];
    }
    ghost var cleared := board';
    var val := CandidateFor(board', rows', cols', squares', i, row, col, sq, curr);
    if val <= 9 {
      board', rows', cols', squares' := PlaceDigit(board', rows', cols', squares', i, row, col, sq, val as Digit);
    }
    if board'[i] == 0 {
      backtrack' := -1;
      assert board' == cleared && val == 10;
      Retreat(puzzle, board, cleared, i, backtrack);
      MeasureFail(puzzle, board, i, backtrack);
    } else {
      backtrack' := 1;
      assert board' == board[i := val];
      Advance(puzzle, board, cleared, i, backtrack, val as Digit);
      MeasurePlace(puzzle, board, i, backtrack, val as Digit);
    }
  }

  /** The backtracking search. Starting at cell 0 on the puzzle, each turn on a preset cell
      steps over it and each turn on a free cell goes forward with the next digit that fits
      or back when none is left. The search ends on the lexicographically least solution,
      or back on the puzzle when there is none. */
  method Search(puzzle: Board, rows0: seq<bv16>, cols0: seq<bv16>, squares0: seq<bv16>)
    returns (board: Board, iter: nat)
    requires Consistent(puzzle) && MasksExact(rows0, cols0, squares0, puzzle)
    ensures Complete(board) <==> Solvable(puzzle)
    ensures Complete(board) ==> IsSolution(board, puzzle)
    ensures forall s: Board :: IsSolution(s, puzzle) ==> !LexLess(s, board)
    ensures !Complete(board) ==> board == puzzle
    ensures iter == 0 <==> Complete(puzzle)
  {
    board := puzzle;
    var rows, cols, squares := rows0, cols0, squares0;
    var backtrack := 1;
    iter := 0;
    var i := 0;
    InitialState(puzzle);
    while 0 <= i < 81
      invariant -1 <= i <= 81 && (backtrack == 1 || backtrack == -1)
      invariant SearchState(puzzle, board, i, backtrack)
      invariant MasksExact(rows, cols, squares, board)
      invariant iter == 0 ==> backtrack == 1 && forall j :: 0 <= j < i ==> puzzle[j] != 0
      invariant Complete(puzzle) ==> iter == 0
      invariant backtrack == -1 ==> !Complete(puzzle)
      decreases Measure(puzzle, board, i, backtrack), if backtrack == 1 then 81 - i else i + 1
    {
      if puzzle[i] != 0 {
        SkipPreset(puzzle, board, i, backtrack);
        MeasureSkip(puzzle, board, i, backtrack);
      } else {
        iter := iter + 1;
        board, rows, cols, squares, backtrack := VisitFree(puzzle, board, rows, cols, squares, i, backtrack);
      }
      i := i + backtrack;
    }
    if i == 81 {
      FinishedForward(puzzle, board);
    } else {
      FinishedBack(puzzle, board);
    }
  }

  /** Solving a puzzle: an invalid puzzle is reported at its first conflicting preset;
      a valid one is searched, starting from a copy of the puzzle. */
  method SolvePuzzle(puzzle: Board) returns (out: Outcome)
    ensures out.Invalid? <==> !Consistent(puzzle)
    ensures out.Invalid? ==>
      0 <= out.row < 9 && 0 <= out.col < 9 && FirstConflict(puzzle, out.row * 9 + out.col) &&
      out.digit == puzzle[out.row * 9 + out.col]
    ensures out.Finished? ==> (Complete(out.board) <==> Solvable(puzzle))
    ensures out.Finished? && Complete(out.board) ==>
      IsSolution(out.board, puzzle) && forall s: Board :: IsSolution(s, puzzle) ==> !LexLess(s, out.board)
    ensures out.Finished? && !Complete(out.board) ==> out.board == puzzle
    ensures out.Finished? ==> (out.iter == 0 <==> Complete(puzzle))
  {
    var marking := MarkPresets(puzzle);
    if marking.Conflict? {
      return Invalid(marking.row, marking.col, marking.digit);
    }
    var board, iter := Search(puzzle, marking.rows, marking.cols, marking.squares);
    out := Finished(board, iter);
  }
}
