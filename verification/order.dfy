/** The order in which the backtracking search visits boards (lexicographic on
    the 81 cells in row-major order) and the measure that shows the search ends. */
module Order {
  import opened Tables
  import opened Grid

  /** s and b agree on every cell before k. */
  predicate AgreeBelow(s: Board, b: Board, k: int)
    requires 0 <= k <= 81
  {
    forall j :: 0 <= j < k ==> s[j] == b[j]
  }

  /** s comes before b on the cells before k: at the first cell where they differ, s is smaller. */
  predicate Before(s: Board, b: Board, k: int)
    requires 0 <= k <= 81
  {
    exists m :: 0 <= m < k && AgreeBelow(s, b, m) && s[m] < b[m]
  }

  /** s comes after b on the cells before k: at the first cell where they differ, s is larger. */
  predicate Ahead(s: Board, b: Board, k: int)
    requires 0 <= k <= 81
  {
    exists m :: 0 <= m < k && AgreeBelow(s, b, m) && s[m] > b[m]
  }

  /** The lexicographic order on whole boards. */
  predicate LexLess(s: Board, b: Board) {
    Before(s, b, 81)
  }

  /** Two boards have at most one first point of difference. */
  lemma FirstDifferenceUnique(s: Board, b: Board, m: int, m': int)
    requires 0 <= m < 81 && 0 <= m' < 81
    requires AgreeBelow(s, b, m) && s[m] != b[m] && AgreeBelow(s, b, m') && s[m'] != b[m']
    ensures m == m'
  {
  }

  /** On the cells before k, a board cannot come both before and after another. */
  lemma NotBeforeAndAhead(s: Board, b: Board, k: int)
    requires 0 <= k <= 81
    ensures !(Before(s, b, k) && Ahead(s, b, k))
  {
    if Before(s, b, k) && Ahead(s, b, k) {
      var m :| 0 <= m < k && AgreeBelow(s, b, m) && s[m] < b[m];
      var m' :| 0 <= m' < k && AgreeBelow(s, b, m') && s[m'] > b[m'];
      FirstDifferenceUnique(s, b, m, m');
    }
  }

  /** Two boards that agree below k, or one comes before the other there, or after it. */
  lemma {:induction false} Trichotomy(s: Board, b: Board, k: int)
    requires 0 <= k <= 81
    ensures AgreeBelow(s, b, k) || Before(s, b, k) || Ahead(s, b, k)
    decreases k
  {
    if k > 0 && !AgreeBelow(s, b, k) {
      Trichotomy(s, b, k - 1);
      if AgreeBelow(s, b, k - 1) {
        assert s[k - 1] != b[k - 1];
      } else if Before(s, b, k - 1) {
        var m :| 0 <= m < k - 1 && AgreeBelow(s, b, m) && s[m] < b[m];
        assert 0 <= m < k;
      } else {
        var m :| 0 <= m < k - 1 && AgreeBelow(s, b, m) && s[m] > b[m];
        assert 0 <= m < k;
      }
    }
  }

  /** LexLess is a strict total order on boards: irreflexive, asymmetric and total. */
  lemma LexTotal(s: Board, b: Board)
    ensures !LexLess(s, s)
    ensures !(LexLess(s, b) && LexLess(b, s))
    ensures s != b ==> LexLess(s, b) || LexLess(b, s)
  {
    NotBeforeAndAhead(s, b, 81);
    if LexLess(b, s) {
      var m :| 0 <= m < 81 && AgreeBelow(b, s, m) && b[m] < s[m];
      assert Ahead(s, b, 81);
    }
    if s != b {
      Trichotomy(s, b, 81);
      if Ahead(s, b, 81) {
        var m :| 0 <= m < 81 && AgreeBelow(s, b, m) && s[m] > b[m];
        assert Before(b, s, 81);
      }
    }
  }

  /** s is the lexicographically least solution of p. */
  ghost predicate LeastSolution(p: Board, s: Board) {
    IsSolution(s, p) && forall t: Board :: IsSolution(t, p) ==> !LexLess(t, s)
  }

  /** A puzzle has at most one lexicographically least solution. */
  lemma LeastSolutionUnique(p: Board, s: Board, s': Board)
    requires LeastSolution(p, s) && LeastSolution(p, s')
    ensures s == s'
  {
    LexTotal(s, s');
  }

  /** What is still to be tried at cell j when the search stands at cell i moving in
      direction step: nothing for a preset cell or for a cell beyond i when moving back,
      otherwise one more than the number of digits above the cell's value. */
  function Slack(p: Board, b: Board, i: int, step: int, j: int): (r: int)
    requires 0 <= j < 81
    ensures 0 <= r <= 10
  {
    if p[j] != 0 || (step == -1 && j > i) then 0 else 10 - b[j] as int
  }

  function Slacks(p: Board, b: Board, i: int, step: int): (w: seq<int>)
    ensures |w| == 81 && forall j :: 0 <= j < 81 ==> w[j] == Slack(p, b, i, step, j)
  {
    seq(81, j requires 0 <= j < 81 => Slack(p, b, i, step, j))
  }

  predicate Digits10(w: seq<int>) {
    forall j :: 0 <= j < |w| ==> 0 <= w[j] <= 10
  }

  /** The first n entries of w read as a number in base 11, w[0] most significant. */
  function Horner(w: seq<int>, n: nat): nat
    requires n <= |w| && Digits10(w)
  {
    if n == 0 then 0 else Horner(w, n - 1) * 11 + w[n - 1]
  }

  lemma {:induction false} HornerAgree(w: seq<int>, w': seq<int>, n: nat)
    requires n <= |w| && n <= |w'| && Digits10(w) && Digits10(w')
    requires forall j :: 0 <= j < n ==> w[j] == w'[j]
    ensures Horner(w, n) == Horner(w', n)
  {
    if n > 0 {
      HornerAgree(w, w', n - 1);
    }
  }

  /** Lowering one entry lowers the number, whatever the less significant entries do. */
  lemma {:induction false} LexDecrease(w: seq<int>, w': seq<int>, k: nat, n: nat)
    requires |w| == |w'| && k < n <= |w| && Digits10(w) && Digits10(w')
    requires forall j :: 0 <= j < k ==> w[j] == w'[j]
    requires w'[k] < w[k]
    ensures Horner(w', n) < Horner(w, n)
  {
    if n == k + 1 {
      HornerAgree(w, w', k);
    } else {
      LexDecrease(w, w', k, n - 1);
      var a, a' := Horner(w, n - 1), Horner(w', n - 1);
      assert a' * 11 + 10 <= a * 11;
    }
  }

  /** The search's progress measure: the slack of every cell, as one number. */
  function Measure(p: Board, b: Board, i: int, step: int): nat {
    Horner(Slacks(p, b, i, step), 81)
  }

  /** Stepping over a preset cell leaves the measure unchanged. */
  lemma MeasureSkip(p: Board, b: Board, i: int, step: int)
    requires 0 <= i < 81 && p[i] != 0 && (step == 1 || step == -1)
    ensures Measure(p, b, i + step, step) == Measure(p, b, i, step)
  {
    assert Slacks(p, b, i + step, step) == Slacks(p, b, i, step);
  }

  /** Moving forward after raising free cell i to a larger digit lowers the measure. */
  lemma MeasurePlace(p: Board, b: Board, i: int, step: int, v: Digit)
    requires 0 <= i < 81 && p[i] == 0 && b[i] < v && (step == 1 || step == -1)
    ensures Measure(p, b[i := v], i + 1, 1) < Measure(p, b, i, step)
  {
    LexDecrease(Slacks(p, b, i, step), Slacks(p, b[i := v], i + 1, 1), i, 81);
  }

  /** Moving back after emptying free cell i, with no digit left to try there, lowers the measure. */
  lemma MeasureFail(p: Board, b: Board, i: int, step: int)
    requires 0 <= i < 81 && p[i] == 0 && (step == 1 || step == -1)
    ensures Measure(p, b[i := 0], i - 1, -1) < Measure(p, b, i, step)
  {
    LexDecrease(Slacks(p, b, i, step), Slacks(p, b[i := 0], i - 1, -1), i, 81);
  }
}
