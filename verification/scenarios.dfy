/** Whole-run facts about the blank board: it has a solution, so every solver
    reports a completed grid for it, and the grid reported depends on which of
    the four rotated solvers reports first. */
module Scenarios {
  import opened Tables
  import opened Grid
  import opened Order
  import opened Rotation

  /** The digit with value n, for n in 1..9. */
  function DigitOf(n: int): (d: Digit)
    requires 1 <= n <= 9
    ensures d != 0
  {
    if n == 1 then 1 else if n == 2 then 2 else if n == 3 then 3 else if n == 4 then 4
    else if n == 5 then 5 else if n == 6 then 6 else if n == 7 then 7 else if n == 8 then 8 else 9
  }

  /** Different values give different digits. */
  lemma DigitOfInjective(m: int, n: int)
    requires 1 <= m <= 9 && 1 <= n <= 9 && m != n
    ensures DigitOf(m) != DigitOf(n)
  {
  }

  /** The shift of row r in the sample grid: rows 0, 1, 2 are shifted by 0, 3, 6, the next
      band by one more, the last band by two more. */
  function RowShift(r: int): (k: int)
    requires 0 <= r < 9
    ensures 0 <= k < 9
  {
    3 * (r % 3) + r / 3
  }

  /** The value (0..8) that the sample grid puts in row r, column c, one less than its digit:
      the row shift plus the column, wrapped around at 9. */
  function ValueAt(r: int, c: int): (v: int)
    requires 0 <= r < 9 && 0 <= c < 9
    ensures 0 <= v < 9
  {
    var x := RowShift(r) + c;
    if x < 9 then x else x - 9
  }

  /** The value of the sample grid at cell i. */
  function SampleValue(i: int): (v: int)
    requires 0 <= i < 81
    ensures 0 <= v < 9
  {
    Split(i);
    ValueAt(RowOf(i), ColOf(i))
  }

  /** A completed grid: row r holds 1..9 rotated left by RowShift(r). */
  function Sample(): (s: Board)
    ensures forall i :: 0 <= i < 81 ==> s[i] == DigitOf(SampleValue(i) + 1)
  {
    seq(81, i requires 0 <= i < 81 => DigitOf(SampleValue(i) + 1))
  }

  /** The row shifts of the nine rows are nine different values in 0..8. */
  lemma RowShiftInjective(r: int, r': int)
    requires 0 <= r < 9 && 0 <= r' < 9 && r != r'
    ensures RowShift(r) != RowShift(r')
  {
  }

  /** Within a row the values are all different. */
  lemma RowValuesDistinct(r: int, c: int, c': int)
    requires 0 <= r < 9 && 0 <= c < 9 && 0 <= c' < 9 && c != c'
    ensures ValueAt(r, c) != ValueAt(r, c')
  {
  }

  /** Within a column the values are all different. */
  lemma ColValuesDistinct(r: int, r': int, c: int)
    requires 0 <= r < 9 && 0 <= r' < 9 && 0 <= c < 9 && r != r'
    ensures ValueAt(r, c) != ValueAt(r', c)
  {
    RowShiftInjective(r, r');
  }

  /** Within a box the values are all different. */
  lemma BoxValuesDistinct(r: int, c: int, r': int, c': int)
    requires 0 <= r < 9 && 0 <= c < 9 && 0 <= r' < 9 && 0 <= c' < 9 && (r != r' || c != c')
    requires r / 3 == r' / 3 && c / 3 == c' / 3
    ensures ValueAt(r, c) != ValueAt(r', c')
  {
    var dr, dc := r % 3 - r' % 3, c - c';
    assert RowShift(r) - RowShift(r') == 3 * dr;
    assert -2 <= dc <= 2 && -2 <= dr <= 2 && (dr != 0 || dc != 0);
  }

  /** Two different cells sharing a unit get different values in the sample grid. */
  lemma SampleDistinct(i: int, j: int)
    requires 0 <= i < 81 && 0 <= j < 81 && i != j && SameUnit(i, j)
    ensures SampleValue(i) != SampleValue(j)
  {
    Split(i);
    Split(j);
    var r, c, r', c' := RowOf(i), ColOf(i), RowOf(j), ColOf(j);
    if r == r' {
      RowValuesDistinct(r, c, c');
    } else if c == c' {
      ColValuesDistinct(r, r', c);
    } else {
      SameBox(i, j);
      BoxValuesDistinct(r, c, r', c');
    }
  }

  /** The blank board has a solution: the sample grid. */
  lemma BlankSolvable()
    ensures IsSolution(Sample(), Empty()) && Solvable(Empty())
  {
    var s := Sample();
    forall i, j | 0 <= i < 81 && 0 <= j < 81 && i != j && SameUnit(i, j) && s[i] != 0
      ensures s[i] != s[j]
    {
      SampleDistinct(i, j);
      DigitOfInjective(SampleValue(i) + 1, SampleValue(j) + 1);
    }
    assert IsSolution(s, Empty());
  }

  /** No completed consistent grid is left unchanged by a quarter-turn: cell 0 would
      have to hold the same digit as cell 72, which is in the same column. */
  lemma NoGridFixedByRotation(b: Board)
    requires Complete(b) && Consistent(b)
    ensures Rotated(b) != b
  {
    RotatedAt(b, 0);
    assert RotIndex(0) == 72;
    FirstColumnEnds(b);
  }

  /** In a completed consistent grid, the top and bottom cells of column 0 differ. */
  lemma FirstColumnEnds(b: Board)
    requires Complete(b) && Consistent(b)
    ensures b[0] != b[72]
  {
    assert ColOf(72) == 0 == ColOf(0);
    assert SameUnit(0, 72);
  }

  /** The blank board is its own rotation. */
  lemma BlankRotated()
    ensures Rotated(Empty()) == Empty()
  {
    forall k | 0 <= k < 81 ensures Rotated(Empty())[k] == 0 {
      var i := UnrotIndex(k);
    }
  }

  /** On the blank board, the solver for the puzzle as given and the solver for its first
      rotation report different grids: each reports the least solution of its own
      orientation, and these two are not the same grid. */
  lemma WinnerMatters(b0: Board, b1: Board)
    requires LeastSolution(RotateTimes(Empty(), 0), RotateTimes(b0, 0))
    requires LeastSolution(RotateTimes(Empty(), 1), RotateTimes(b1, 1))
    ensures b0 != b1
  {
    BlankRotated();
    assert RotateTimes(Empty(), 1) == Empty() && RotateTimes(b1, 1) == Rotated(b1);
    LeastSolutionUnique(Empty(), b0, Rotated(b1));
    if b0 == b1 {
      NoGridFixedByRotation(b1);
    }
  }
}
