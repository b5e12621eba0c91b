/** Quarter-turn rotation of a board: the cell at (row, col) moves to
    (8 - col, row). Rotation maps rows to columns, columns to rows and boxes
    to boxes, so it preserves consistency, completeness and solutions. */
module Rotation {
  import opened Tables
  import opened Grid

  /** A cell index is determined by its row and column. */
  lemma SameCoords(x: int, y: int)
    requires 0 <= x < 81 && 0 <= y < 81 && RowOf(x) == RowOf(y) && ColOf(x) == ColOf(y)
    ensures x == y
  {
    Split(x);
    Split(y);
  }

  /** Where the cell at index i lands after one rotation. */
  function RotIndex(i: int): (k: int)
    requires 0 <= i < 81
    ensures 0 <= k < 81 && RowOf(k) == 8 - ColOf(i) && ColOf(k) == RowOf(i)
  {
    var col := i % 9;
    var row := (i - col) / 9;
    Split(i);
    CellAt(8 - col, row);
    (8 - col) * 9 + row
  }

  /** The cell whose value lands at index k after one rotation. */
  function UnrotIndex(k: int): (i: int)
    requires 0 <= k < 81
    ensures 0 <= i < 81 && RotIndex(i) == k
  {
    Split(k);
    CellAt(ColOf(k), 8 - RowOf(k));
    var i := 9 * ColOf(k) + (8 - RowOf(k));
    SameCoords(RotIndex(i), k);
    i
  }

  /** Reversing the columns reverses the column bands. */
  lemma ReversedThird(c: int)
    requires 0 <= c < 9
    ensures (8 - c) / 3 == 2 - c / 3
  {
  }

  /** Two cells share a box exactly when their rows share a band and their columns share a stack. */
  lemma SameBox(x: int, y: int)
    requires 0 <= x < 81 && 0 <= y < 81
    ensures BoxOf(x) == BoxOf(y) <==> RowOf(x) / 3 == RowOf(y) / 3 && ColOf(x) / 3 == ColOf(y) / 3
  {
  }

  /** Rotation is a bijection on the cell indices 0..80. */
  lemma RotIndexBijective(i: int, j: int)
    requires 0 <= i < 81 && 0 <= j < 81
    ensures RotIndex(i) == RotIndex(j) <==> i == j
    ensures UnrotIndex(RotIndex(i)) == i
  {
    if RotIndex(i) == RotIndex(j) {
      SameCoords(i, j);
    }
    SameCoords(UnrotIndex(RotIndex(i)), i);
  }

  /** The board rotated once: each cell takes the value of the cell that lands on it. */
  function Rotated(b: Board): Board {
    seq(81, k requires 0 <= k < 81 => b[UnrotIndex(k)])
  }

  /** After one rotation, the value of cell i is found at RotIndex(i). */
  lemma RotatedAt(b: Board, i: int)
    requires 0 <= i < 81
    ensures Rotated(b)[RotIndex(i)] == b[i]
  {
    RotIndexBijective(i, i);
  }

  /** Fills a fresh board cell by cell, writing each cell of the input at its rotated index. */
  method RotateBoard(board: Board) returns (rotated: Board)
    ensures rotated == Rotated(board)
  {
    rotated := Empty();
    for i := 0 to 81
      invariant forall j :: 0 <= j < i ==> rotated[RotIndex(j)] == board[j]
    {
      forall j | 0 <= j < i ensures RotIndex(j) != RotIndex(i) {
        RotIndexBijective(j, i);
      }
      rotated := rotated[RotIndex(i) := board[i]];
    }
    forall k | 0 <= k < 81 ensures rotated[k] == Rotated(board)[k] {
      RotatedAt(board, UnrotIndex(k));
    }
  }

  /** The board rotated n times. */
  function RotateTimes(b: Board, n: nat): (r: Board)
    ensures n == 0 ==> r == b
  {
    if n == 0 then b else Rotated(RotateTimes(b, n - 1))
  }

  /** Four quarter-turns bring every cell back to where it started. */
  lemma RotateFour(b: Board)
    ensures RotateTimes(b, 4) == b
  {
    var r1 := Rotated(b);
    var r2 := Rotated(r1);
    var r3 := Rotated(r2);
    var r4 := Rotated(r3);
    assert RotateTimes(b, 1) == r1;
    assert RotateTimes(b, 2) == r2;
    assert RotateTimes(b, 3) == r3;
    assert RotateTimes(b, 4) == r4;
    forall i | 0 <= i < 81 ensures r4[i] == b[i] {
      var i1 := RotIndex(i);
      var i2 := RotIndex(i1);
      var i3 := RotIndex(i2);
      var i4 := RotIndex(i3);
      RotatedAt(b, i);
      RotatedAt(r1, i1);
      RotatedAt(r2, i2);
      RotatedAt(r3, i3);
      SameCoords(i4, i);
    }
  }

  /** Rotating m times and then n times is rotating m + n times. */
  lemma {:induction false} RotateAdd(b: Board, m: nat, n: nat)
    ensures RotateTimes(RotateTimes(b, m), n) == RotateTimes(b, m + n)
  {
    if n > 0 {
      RotateAdd(b, m, n - 1);
    }
  }

  /** Rotating the k-th rotated variant by another 4 - k quarter-turns restores the board. */
  lemma RotateBack(b: Board, k: nat)
    requires k <= 4
    ensures RotateTimes(RotateTimes(b, k), 4 - k) == b
  {
    RotateAdd(b, k, 4 - k);
    RotateFour(b);
  }

  /** Two cells share a unit exactly when their rotated positions do. */
  lemma SameUnitRotated(i: int, j: int)
    requires 0 <= i < 81 && 0 <= j < 81
    ensures SameUnit(RotIndex(i), RotIndex(j)) <==> SameUnit(i, j)
  {
    var x, y := RotIndex(i), RotIndex(j);
    SameBox(x, y);
    SameBox(i, j);
    ReversedThird(ColOf(i));
    ReversedThird(ColOf(j));
  }

  /** A board is consistent exactly when its rotation is. */
  lemma ConsistentRotated(b: Board)
    ensures Consistent(Rotated(b)) <==> Consistent(b)
  {
    var r := Rotated(b);
    if Consistent(b) {
      forall x, y | 0 <= x < 81 && 0 <= y < 81 && x != y && SameUnit(x, y) && r[x] != 0
        ensures r[x] != r[y]
      {
        var i, j := UnrotIndex(x), UnrotIndex(y);
        SameUnitRotated(i, j);
        RotatedAt(b, i);
        RotatedAt(b, j);
      }
    }
    if Consistent(r) {
      forall i, j | 0 <= i < 81 && 0 <= j < 81 && i != j && SameUnit(i, j) && b[i] != 0
        ensures b[i] != b[j]
      {
        SameUnitRotated(i, j);
        RotIndexBijective(i, j);
        RotatedAt(b, i);
        RotatedAt(b, j);
      }
    }
  }

  /** A board is complete exactly when its rotation is. */
  lemma CompleteRotated(b: Board)
    ensures Complete(Rotated(b)) <==> Complete(b)
  {
    var r := Rotated(b);
    if Complete(b) {
      forall k | 0 <= k < 81 ensures r[k] != 0 {
        RotatedAt(b, UnrotIndex(k));
      }
    }
    if Complete(r) {
      forall i | 0 <= i < 81 ensures b[i] != 0 {
        RotatedAt(b, i);
      }
    }
  }

  /** s solves p exactly when the rotation of s solves the rotation of p. */
  lemma SolutionRotated(s: Board, p: Board)
    ensures IsSolution(Rotated(s), Rotated(p)) <==> IsSolution(s, p)
  {
    ConsistentRotated(s);
    CompleteRotated(s);
    var rs, rp := Rotated(s), Rotated(p);
    if KeepsPresets(p, s) {
      forall k | 0 <= k < 81 && rp[k] != 0 ensures rs[k] == rp[k] {
        var i := UnrotIndex(k);
        RotatedAt(s, i);
        RotatedAt(p, i);
      }
    }
    if KeepsPresets(rp, rs) {
      forall i | 0 <= i < 81 && p[i] != 0 ensures s[i] == p[i] {
        RotatedAt(s, i);
        RotatedAt(p, i);
      }
    }
  }

  /** Rotating n times keeps the solutions: s solves p exactly when its n-th rotation
      solves the n-th rotation of p. */
  lemma {:induction false} SolutionRotatedTimes(s: Board, p: Board, n: nat)
    ensures IsSolution(RotateTimes(s, n), RotateTimes(p, n)) <==> IsSolution(s, p)
  {
    if n > 0 {
      SolutionRotatedTimes(s, p, n - 1);
      SolutionRotated(RotateTimes(s, n - 1), RotateTimes(p, n - 1));
    }
  }

  /** Rotating n times keeps consistency. */
  lemma {:induction false} ConsistentRotatedTimes(b: Board, n: nat)
    ensures Consistent(RotateTimes(b, n)) <==> Consistent(b)
  {
    if n > 0 {
      ConsistentRotatedTimes(b, n - 1);
      ConsistentRotated(RotateTimes(b, n - 1));
    }
  }

  /** Rotating n times keeps completeness. */
  lemma {:induction false} CompleteRotatedTimes(b: Board, n: nat)
    ensures Complete(RotateTimes(b, n)) <==> Complete(b)
  {
    if n > 0 {
      CompleteRotatedTimes(b, n - 1);
      CompleteRotated(RotateTimes(b, n - 1));
    }
  }

  /** A puzzle has a solution exactly when its k-th rotation has one, and rotating a
      solution of the rotated puzzle back by 4 - k quarter-turns solves the puzzle. */
  lemma SolvableRotated(p: Board, k: nat)
    requires k <= 4
    ensures Solvable(RotateTimes(p, k)) <==> Solvable(p)
    ensures forall t: Board :: IsSolution(t, RotateTimes(p, k)) ==> IsSolution(RotateTimes(t, 4 - k), p)
  {
    forall t: Board | IsSolution(t, RotateTimes(p, k)) ensures IsSolution(RotateTimes(t, 4 - k), p) {
      SolutionRotatedTimes(t, RotateTimes(p, k), 4 - k);
      RotateBack(p, k);
    }
    if Solvable(p) {
      var s: Board :| IsSolution(s, p);
      SolutionRotatedTimes(s, p, k);
    }
    if Solvable(RotateTimes(p, k)) {
      var t: Board :| IsSolution(t, RotateTimes(p, k));
      assert IsSolution(RotateTimes(t, 4 - k), p);
    }
  }
}
