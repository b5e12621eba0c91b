/** Boards, the units of a board (rows, columns, boxes) and what makes a
    board consistent or a solution of a puzzle. */
module Grid {
  import opened Tables

  /** 81 cells in row-major order; index i is row i / 9, column i % 9. */
  type Board = b: seq<Digit> | |b| == 81 witness Empty()

  function Empty(): seq<Digit> { seq(81, _ => 0) }

  /** A row, a column or a 3x3 box, each numbered 0..8. */
  datatype Unit = Row(r: int) | Col(c: int) | Box(s: int)

  predicate InUnit(j: int, u: Unit) {
    match u
    case Row(r) => RowOf(j) == r
    case Col(c) => ColOf(j) == c
    case Box(s) => BoxOf(j) == s
  }

  /** Cells i and j share a row, a column or a box. */
  predicate SameUnit(i: int, j: int) {
    RowOf(i) == RowOf(j) || ColOf(i) == ColOf(j) || BoxOf(i) == BoxOf(j)
  }

  /** No two filled cells that share a unit hold the same digit. */
  predicate Consistent(b: Board) {
    forall i, j :: 0 <= i < 81 && 0 <= j < 81 && i != j && SameUnit(i, j) && b[i] != 0 ==> b[i] != b[j]
  }

  /** Every cell is filled. */
  predicate Complete(b: Board) {
    forall i :: 0 <= i < 81 ==> b[i] != 0
  }

  /** b holds every preset (non-zero) cell of puzzle p unchanged. */
  predicate KeepsPresets(p: Board, b: Board) {
    forall i :: 0 <= i < 81 && p[i] != 0 ==> b[i] == p[i]
  }

  /** s is a valid completed grid that extends the puzzle p. */
  predicate IsSolution(s: Board, p: Board) {
    Complete(s) && Consistent(s) && KeepsPresets(p, s)
  }

  ghost predicate Solvable(p: Board) {
    exists s: Board :: IsSolution(s, p)
  }

  /** s is the one and only solution of p. */
  ghost predicate UniqueSolution(p: Board, s: Board) {
    IsSolution(s, p) && forall t: Board :: IsSolution(t, p) ==> t == s
  }

  /** Preset cell i repeats a digit already preset earlier in one of its units. */
  predicate Conflicts(p: Board, i: int)
    requires 0 <= i < 81
  {
    p[i] != 0 && exists j :: 0 <= j < i && SameUnit(j, i) && p[j] == p[i]
  }

  /** A puzzle is consistent exactly when none of its cells conflicts with an earlier one. */
  lemma ConsistentIffNoConflict(p: Board)
    ensures Consistent(p) <==> forall k :: 0 <= k < 81 ==> !Conflicts(p, k)
  {
    if !Consistent(p) {
      var i, j :| 0 <= i < 81 && 0 <= j < 81 && i != j && SameUnit(i, j) && p[i] != 0 && p[i] == p[j];
      if i < j {
        assert SameUnit(j, i) && Conflicts(p, j);
      } else {
        assert Conflicts(p, i);
      }
    }
  }
}
