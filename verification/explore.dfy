/** What the backtracking search knows at the top of each turn of its loop, and
    why each kind of turn keeps it true. The search stands at cell i moving in
    direction step (1 forward, -1 back); b is the working board. */
module Explore {
  import opened Tables
  import opened Grid
  import opened Masks
  import opened Order

  /** Free cells before i are filled, free cells after i are empty, and free cell i
      is filled exactly when the search has just come back to it. */
  predicate Filled(p: Board, b: Board, i: int, step: int) {
    forall j :: 0 <= j < 81 && p[j] == 0 ==>
      (j < i ==> b[j] != 0) && (j > i ==> b[j] == 0) && (j == i ==> (b[j] != 0 <==> step == -1))
  }

  /** No solution has been skipped: moving forward, no solution comes before b on the
      cells before i; moving back, every solution comes after b on the cells up to i. */
  ghost predicate Explored(p: Board, b: Board, i: int, step: int) {
    (step == 1 && 0 <= i <= 81 && forall s: Board :: IsSolution(s, p) ==> !Before(s, b, i)) ||
    (step == -1 && -1 <= i <= 80 && forall s: Board :: IsSolution(s, p) ==> Ahead(s, b, i + 1))
  }

  /** Everything the search loop keeps true about its board. */
  ghost predicate SearchState(p: Board, b: Board, i: int, step: int) {
    Consistent(b) && KeepsPresets(p, b) && Filled(p, b, i, step) && Explored(p, b, i, step)
  }

  /** The search starts at cell 0 moving forward, on the puzzle itself. */
  lemma InitialState(p: Board)
    requires Consistent(p)
    ensures SearchState(p, p, 0, 1)
  {
  }

  /** A solution that agrees with b before i cannot use at i a digit held by another
      cell sharing a unit with i, once i and the free cells after it are empty. */
  lemma SolutionNotBlocked(p: Board, b: Board, s: Board, i: int)
    requires IsSolution(s, p) && KeepsPresets(p, b) && 0 <= i < 81 && b[i] == 0
    requires AgreeBelow(s, b, i)
    requires forall j :: i < j < 81 && p[j] == 0 ==> b[j] == 0
    ensures !Blocked(b, i, s[i])
  {
  }

  /** A solution that agrees with the board before free cell i holds there a digit the
      search has not yet passed: above the current value, and not blocked once i is emptied. */
  lemma SolutionAhead(p: Board, b: Board, s: Board, i: int, step: int)
    requires SearchState(p, b, i, step) && 0 <= i < 81 && p[i] == 0
    requires IsSolution(s, p) && AgreeBelow(s, b, i)
    ensures b[i] < s[i] && !Blocked(b[i := 0], i, s[i])
  {
    SolutionNotBlocked(p, b[i := 0], s, i);
    if step == -1 {
      var m :| 0 <= m < i + 1 && AgreeBelow(s, b, m) && s[m] > b[m];
      assert m == i;
    }
  }

  /** Turn on a preset cell: the search steps over it and everything it knew still holds. */
  lemma SkipPreset(p: Board, b: Board, i: int, step: int)
    requires SearchState(p, b, i, step) && 0 <= i < 81 && p[i] != 0
    ensures SearchState(p, b, i + step, step)
  {
    forall s: Board | IsSolution(s, p)
      ensures if step == 1 then !Before(s, b, i + 1) else Ahead(s, b, i)
    {
      if step == -1 {
        var m :| 0 <= m < i + 1 && AgreeBelow(s, b, m) && s[m] > b[m];
        assert m < i;
      }
    }
  }

  /** Emptying a cell keeps a board consistent. */
  lemma ConsistentAfterClear(b: Board, i: int)
    requires Consistent(b) && 0 <= i < 81
    ensures Consistent(b[i := 0])
  {
  }

  /** Writing into an empty cell a digit no cell sharing a unit holds keeps a board consistent. */
  lemma ConsistentAfterPlace(b: Board, i: int, v: Digit)
    requires Consistent(b) && 0 <= i < 81 && b[i] == 0 && !Blocked(b, i, v)
    ensures Consistent(b[i := v])
  {
    var b' := b[i := v];
    forall x, y | 0 <= x < 81 && 0 <= y < 81 && x != y && SameUnit(x, y) && b'[x] != 0
      ensures b'[x] != b'[y]
    {
      if x == i {
        assert SameUnit(i, y) && y != i;
      } else if y == i {
        assert SameUnit(i, x);
      }
    }
  }

  /** Turn on a free cell that finds a digit: the search writes the first digit above the
      cell's value that no unit blocks and moves forward, having skipped no solution. */
  lemma Advance(p: Board, b: Board, c: Board, i: int, step: int, val: Digit)
    requires SearchState(p, b, i, step) && 0 <= i < 81 && p[i] == 0 && c == b[i := 0]
    requires b[i] < val && !Blocked(c, i, val)
    requires forall v: Digit :: b[i] < v < val ==> Blocked(c, i, v)
    ensures SearchState(p, b[i := val], i + 1, 1)
  {
    var b' := b[i := val];
    assert b' == c[i := val];
    ConsistentAfterClear(b, i);
    ConsistentAfterPlace(c, i, val);
    forall s: Board | IsSolution(s, p) ensures !Before(s, b', i + 1) {
      if Before(s, b', i + 1) {
        var m :| 0 <= m < i + 1 && AgreeBelow(s, b', m) && s[m] < b'[m];
        if m < i {
          assert Before(s, b, i + 1);
          if step == -1 {
            NotBeforeAndAhead(s, b, i + 1);
          }
        } else {
          SolutionAhead(p, b, s, i, step);
        }
      }
    }
  }

  /** Turn on a free cell with no digit left to try: the search empties the cell and moves
      back, every solution now coming after the board on the cells before i. */
  lemma Retreat(p: Board, b: Board, c: Board, i: int, step: int)
    requires SearchState(p, b, i, step) && 0 <= i < 81 && p[i] == 0 && c == b[i := 0]
    requires forall v: Digit :: b[i] < v ==> Blocked(c, i, v)
    ensures SearchState(p, c, i - 1, -1)
  {
    ConsistentAfterClear(b, i);
    forall s: Board | IsSolution(s, p) ensures Ahead(s, c, i) {
      Trichotomy(s, b, i);
      if AgreeBelow(s, b, i) {
        SolutionAhead(p, b, s, i, step);
      } else if Before(s, b, i) {
        if step == -1 {
          var m :| 0 <= m < i && AgreeBelow(s, b, m) && s[m] < b[m];
          assert Before(s, b, i + 1);
          NotBeforeAndAhead(s, b, i + 1);
        }
      } else {
        var m :| 0 <= m < i && AgreeBelow(s, b, m) && s[m] > b[m];
        assert AgreeBelow(s, c, m);
      }
    }
  }

  /** The search ends at cell 81 on the lexicographically least solution. */
  lemma FinishedForward(p: Board, b: Board)
    requires SearchState(p, b, 81, 1)
    ensures IsSolution(b, p)
    ensures forall s: Board :: IsSolution(s, p) ==> !LexLess(s, b)
  {
  }

  /** The search ends at cell -1 with the puzzle restored and no solution anywhere. */
  lemma FinishedBack(p: Board, b: Board)
    requires SearchState(p, b, -1, -1)
    ensures b == p && !Solvable(p)
  {
    assert forall j :: 0 <= j < 81 ==> b[j] == p[j];
  }
}
