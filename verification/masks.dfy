/** The constraint tracker: one 16-bit mask per row, column and box, with
    bit d set exactly when digit d is placed in that unit. */
module Masks {
  import opened Tables
  import opened Grid

  /** Bit d of mask m is set (the source's "has" test). */
  predicate Has(m: bv16, d: Digit) {
    m & Bit(d) != 0
  }

  /** The bits of a mask that stand for no digit: bit 0 and bits 10..15. */
  const Unused: bv16 := 0xFC01

  /** Digit d is placed in some cell of unit u. */
  predicate Placed(b: Board, u: Unit, d: Digit) {
    exists j :: 0 <= j < 81 && InUnit(j, u) && b[j] == d
  }

  /** Mask m is exactly the set of digits placed in unit u of board b. */
  ghost predicate Summarises(m: bv16, b: Board, u: Unit) {
    m & Unused == 0 && Tracks(m, b, u)
  }

  /** Bit d of m is set exactly when digit d is placed in unit u, for every digit 1..9. */
  ghost predicate Tracks(m: bv16, b: Board, u: Unit) {
    forall d: Digit :: d != 0 ==> (Has(m, d) <==> Placed(b, u, d))
  }

  /** The three mask arrays summarise board b exactly, unit by unit. */
  ghost predicate MasksExact(rows: seq<bv16>, cols: seq<bv16>, squares: seq<bv16>, b: Board) {
    FamilyExact(rows, b, Rows) && FamilyExact(cols, b, Cols) && FamilyExact(squares, b, Boxes)
  }

  /** Some cell other than i that shares a unit with i holds v. */
  predicate Blocked(b: Board, i: int, v: Digit) {
    exists j :: 0 <= j < 81 && j != i && SameUnit(i, j) && b[j] == v
  }

  /** Setting bit v (the source's "set") adds digit v and nothing else. */
  lemma HasAfterSet(m: bv16, v: Digit, d: Digit)
    requires v != 0 && d != 0
    ensures Has(m | Bit(v), d) <==> Has(m, d) || d == v
  {
  }

  lemma SetKeepsUnused(m: bv16, v: Digit)
    requires m & Unused == 0
    ensures (m | Bit(v)) & Unused == 0
  {
  }

  /** Clearing bit c (the source's "clear") removes digit c and nothing else. */
  lemma HasAfterClear(m: bv16, c: Digit, d: Digit)
    requires c != 0 && d != 0
    ensures Has(m & !Bit(c), d) <==> Has(m, d) && d != c
  {
  }

  lemma ClearKeepsUnused(m: bv16, c: bv16)
    requires m & Unused == 0
    ensures (m & !c) & Unused == 0
  {
  }

  /** The empty mask summarises a unit with no digit placed in it. */
  lemma EmptyMask(b: Board, u: Unit)
    requires forall j :: 0 <= j < 81 && InUnit(j, u) ==> b[j] == 0
    ensures Summarises(0, b, u)
  {
    forall d: Digit | d != 0 ensures !Has(0, d) {
    }
  }

  /** Writing v into an empty cell i places v in the units of i and changes no other unit. */
  lemma PlacedAfterWrite(b: Board, i: int, v: Digit, u: Unit, d: Digit)
    requires 0 <= i < 81 && b[i] == 0 && d != 0
    ensures Placed(b[i := v], u, d) <==> Placed(b, u, d) || (InUnit(i, u) && d == v)
  {
    if Placed(b[i := v], u, d) {
      var j :| 0 <= j < 81 && InUnit(j, u) && b[i := v][j] == d;
      assert j != i ==> b[j] == d;
    }
    if Placed(b, u, d) {
      var j :| 0 <= j < 81 && InUnit(j, u) && b[j] == d;
      assert b[i := v][j] == d;
    }
  }

  /** Setting bit v of the masks of i's units while writing v into empty cell i keeps them exact. */
  lemma SummarisesAfterPlace(m: bv16, b: Board, u: Unit, i: int, v: Digit)
    requires Summarises(m, b, u) && 0 <= i < 81 && b[i] == 0 && v != 0 && InUnit(i, u)
    ensures Summarises(m | Bit(v), b[i := v], u)
  {
    SetKeepsUnused(m, v);
    var m' := m | Bit(v);
    forall d: Digit | d != 0 ensures Has(m', d) <==> Placed(b[i := v], u, d) {
      HasAfterSet(m, v, d);
      PlacedAfterWrite(b, i, v, u, d);
    }
  }

  /** Clearing bit c of the masks of i's units while emptying cell i (holding c) keeps them exact,
      provided no other cell of the unit holds c. */
  lemma SummarisesAfterClear(m: bv16, b: Board, u: Unit, i: int, c: Digit)
    requires Summarises(m, b, u) && 0 <= i < 81 && b[i] == c && c != 0 && InUnit(i, u)
    requires forall j :: 0 <= j < 81 && j != i && InUnit(j, u) ==> b[j] != c
    ensures Summarises(m & !Bit(c), b[i := 0], u)
  {
    ClearKeepsUnused(m, Bit(c));
    TracksAfterClear(m, b, u, i, c);
  }

  lemma TracksAfterClear(m: bv16, b: Board, u: Unit, i: int, c: Digit)
    requires Tracks(m, b, u) && 0 <= i < 81 && b[i] == c && c != 0 && InUnit(i, u)
    requires forall j :: 0 <= j < 81 && j != i && InUnit(j, u) ==> b[j] != c
    ensures Tracks(m & !Bit(c), b[i := 0], u)
  {
    var m', cleared := m & !Bit(c), b[i := 0];
    forall d: Digit | d != 0 ensures Has(m', d) <==> Placed(cleared, u, d) {
      ClearedDigit(m, b, u, i, d);
    }
  }

  lemma ClearedDigit(m: bv16, b: Board, u: Unit, i: int, d: Digit)
    requires 0 <= i < 81 && b[i] != 0 && InUnit(i, u) && d != 0
    requires Has(m, d) <==> Placed(b, u, d)
    requires forall j :: 0 <= j < 81 && j != i && InUnit(j, u) ==> b[j] != b[i]
    ensures Has(m & !Bit(b[i]), d) <==> Placed(b[i := 0], u, d)
  {
    HasAfterClear(m, b[i], d);
    PlacedAfterClear(b, u, i, d);
  }

  /** Emptying cell i, whose digit no other cell of u holds, removes exactly that digit from u. */
  lemma PlacedAfterClear(b: Board, u: Unit, i: int, d: Digit)
    requires 0 <= i < 81 && b[i] != 0 && InUnit(i, u) && d != 0
    requires forall j :: 0 <= j < 81 && j != i && InUnit(j, u) ==> b[j] != b[i]
    ensures Placed(b[i := 0], u, d) <==> Placed(b, u, d) && d != b[i]
  {
    if Placed(b[i := 0], u, d) {
      var j :| 0 <= j < 81 && InUnit(j, u) && b[i := 0][j] == d;
      assert j != i && b[j] == d;
    }
    if Placed(b, u, d) && d != b[i] {
      var j :| 0 <= j < 81 && InUnit(j, u) && b[j] == d;
      assert b[i := 0][j] == d;
    }
  }

  /** A unit that does not contain i summarises the same digits after cell i is written. */
  lemma SummarisesElsewhere(m: bv16, b: Board, u: Unit, i: int, v: Digit)
    requires Summarises(m, b, u) && 0 <= i < 81 && !InUnit(i, u)
    ensures Summarises(m, b[i := v], u)
  {
    forall d: Digit | d != 0 ensures Placed(b[i := v], u, d) <==> Placed(b, u, d) {
      if Placed(b[i := v], u, d) {
        var j :| 0 <= j < 81 && InUnit(j, u) && b[i := v][j] == d;
        assert j != i;
      }
      if Placed(b, u, d) {
        var j :| 0 <= j < 81 && InUnit(j, u) && b[j] == d;
        assert j != i;
      }
    }
  }

  /** The three families of masks: one per row, one per column, one per box. */
  datatype Kind = Rows | Cols | Boxes

  /** Unit number r of family k. */
  function UnitAt(k: Kind, r: int): Unit {
    match k
    case Rows => Row(r)
    case Cols => Col(r)
    case Boxes => Box(r)
  }

  /** The number of the unit of family k that holds cell i. */
  function IndexOf(k: Kind, i: int): (r: int)
    requires 0 <= i < 81
    ensures 0 <= r < 9
  {
    match k
    case Rows => RowOf(i)
    case Cols => ColOf(i)
    case Boxes => BoxOf(i)
  }

  /** Cell i lies in unit r of family k exactly when r is the index of i's unit. */
  lemma InUnitAt(k: Kind, i: int, r: int)
    requires 0 <= i < 81
    ensures InUnit(i, UnitAt(k, r)) <==> r == IndexOf(k, i)
  {
  }

  /** The nine masks ms summarise the nine units of family k exactly. */
  ghost predicate FamilyExact(ms: seq<bv16>, b: Board, k: Kind) {
    |ms| == 9 && forall r :: 0 <= r < 9 ==> Summarises(ms[r], b, UnitAt(k, r))
  }

  /** Replacing mask x of a family by a mask that summarises the new board
      keeps the family exact when every other unit is untouched by the change. */
  lemma FamilyAfterUpdate(ms: seq<bv16>, b: Board, b': Board, k: Kind, i: int, m': bv16)
    requires FamilyExact(ms, b, k) && 0 <= i < 81
    requires forall j :: 0 <= j < 81 && j != i ==> b'[j] == b[j]
    requires Summarises(m', b', UnitAt(k, IndexOf(k, i)))
    ensures FamilyExact(ms[IndexOf(k, i) := m'], b', k)
  {
    var x := IndexOf(k, i);
    forall r | 0 <= r < 9 && r != x ensures Summarises(ms[r], b', UnitAt(k, r)) {
      InUnitAt(k, i, r);
      assert b' == b[i := b'[i]];
      SummarisesElsewhere(ms[r], b, UnitAt(k, r), i, b'[i]);
    }
  }

  lemma FamilyAfterPlace(ms: seq<bv16>, b: Board, k: Kind, i: int, v: Digit)
    requires FamilyExact(ms, b, k) && 0 <= i < 81 && b[i] == 0 && v != 0
    ensures FamilyExact(ms[IndexOf(k, i) := ms[IndexOf(k, i)] | Bit(v)], b[i := v], k)
  {
    var x := IndexOf(k, i);
    InUnitAt(k, i, x);
    SummarisesAfterPlace(ms[x], b, UnitAt(k, x), i, v);
    FamilyAfterUpdate(ms, b, b[i := v], k, i, ms[x] | Bit(v));
  }

  /** In a consistent board no other cell of a unit of i holds the digit of i. */
  lemma DigitUniqueInUnit(b: Board, k: Kind, i: int)
    requires Consistent(b) && 0 <= i < 81 && b[i] != 0
    ensures forall j :: 0 <= j < 81 && j != i && InUnit(j, UnitAt(k, IndexOf(k, i))) ==> b[j] != b[i]
  {
    forall j | 0 <= j < 81 && j != i && InUnit(j, UnitAt(k, IndexOf(k, i))) ensures b[j] != b[i] {
      assert SameUnit(i, j);
    }
  }

  lemma FamilyAfterClear(ms: seq<bv16>, b: Board, k: Kind, i: int, c: Digit)
    requires FamilyExact(ms, b, k) && 0 <= i < 81 && b[i] == c && c != 0
    requires forall j :: 0 <= j < 81 && j != i && InUnit(j, UnitAt(k, IndexOf(k, i))) ==> b[j] != c
    ensures FamilyExact(ms[IndexOf(k, i) := ms[IndexOf(k, i)] & !Bit(c)], b[i := 0], k)
  {
    var x := IndexOf(k, i);
    InUnitAt(k, i, x);
    SummarisesAfterClear(ms[x], b, UnitAt(k, x), i, c);
    FamilyAfterUpdate(ms, b, b[i := 0], k, i, ms[x] & !Bit(c));
  }

  /** Writing v into empty cell i and setting bit v in the masks of the row,
      column and box of i keeps all 27 masks exact. */
  lemma MasksAfterPlace(rows: seq<bv16>, cols: seq<bv16>, squares: seq<bv16>, b: Board, i: int,
                        row: int, col: int, sq: int, v: Digit, d: bv16)
    requires MasksExact(rows, cols, squares, b) && 0 <= i < 81 && b[i] == 0 && v != 0
    requires row == RowOf(i) && col == ColOf(i) && sq == BoxOf(i) && d == Bit(v)
    ensures 0 <= row < 9 && 0 <= col < 9 && 0 <= sq < 9
    ensures MasksExact(rows[row := rows[row] | d], cols[col := cols[col] | d], squares[sq := squares[sq] | d], b[i := v])
  {
    FamilyAfterPlace(rows, b, Rows, i, v);
    FamilyAfterPlace(cols, b, Cols, i, v);
    FamilyAfterPlace(squares, b, Boxes, i, v);
  }

  /** Emptying filled cell i of a consistent board and clearing its digit's bit in the
      masks of the row, column and box of i keeps all 27 masks exact. */
  lemma MasksAfterClear(rows: seq<bv16>, cols: seq<bv16>, squares: seq<bv16>, b: Board, i: int,
                        row: int, col: int, sq: int, d: bv16)
    requires MasksExact(rows, cols, squares, b) && Consistent(b) && 0 <= i < 81 && b[i] != 0
    requires row == RowOf(i) && col == ColOf(i) && sq == BoxOf(i) && d == Bit(b[i])
    ensures 0 <= row < 9 && 0 <= col < 9 && 0 <= sq < 9
    ensures MasksExact(rows[row := rows[row] & !d], cols[col := cols[col] & !d], squares[sq := squares[sq] & !d], b[i := 0])
  {
    DigitUniqueInUnit(b, Rows, i);
    FamilyAfterClear(rows, b, Rows, i, b[i]);
    DigitUniqueInUnit(b, Cols, i);
    FamilyAfterClear(cols, b, Cols, i, b[i]);
    DigitUniqueInUnit(b, Boxes, i);
    FamilyAfterClear(squares, b, Boxes, i, b[i]);
  }

  /** With exact masks and cell i empty, digit v is set in one of the masks of
      i's row, column or box exactly when some other cell sharing a unit with i holds v. */
  lemma BlockedIffMasked(rows: seq<bv16>, cols: seq<bv16>, squares: seq<bv16>, b: Board, i: int, v: Digit)
    requires MasksExact(rows, cols, squares, b) && 0 <= i < 81 && b[i] == 0 && v != 0
    ensures 0 <= RowOf(i) < 9 && 0 <= ColOf(i) < 9 && 0 <= BoxOf(i) < 9
    ensures Has(rows[RowOf(i)], v) || Has(cols[ColOf(i)], v) || Has(squares[BoxOf(i)], v) <==> Blocked(b, i, v)
  {
    assert Has(rows[RowOf(i)], v) <==> Placed(b, Row(RowOf(i)), v);
    assert Has(cols[ColOf(i)], v) <==> Placed(b, Col(ColOf(i)), v);
    assert Has(squares[BoxOf(i)], v) <==> Placed(b, Box(BoxOf(i)), v);
    if Blocked(b, i, v) {
      var j :| 0 <= j < 81 && j != i && SameUnit(i, j) && b[j] == v;
      if RowOf(i) == RowOf(j) { assert InUnit(j, Row(RowOf(i))); }
      else if ColOf(i) == ColOf(j) { assert InUnit(j, Col(ColOf(i))); }
      else { assert InUnit(j, Box(BoxOf(i))); }
    }
  }
}
