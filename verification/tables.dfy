/** The constant tables of the solver: the digit-to-bit table and the
    cell-to-box table, and the row/column/box arithmetic they encode. */
module Tables {

  /** A cell value, a byte: 0 for an empty cell, 1..9 for a placed digit. */
  type Digit = x: bv8 | x <= 9

  /** The digit-to-pattern table: digit 0 has the empty pattern and digit d
      in 1..9 the single bit d. */
  const Digits: seq<bv16> := [0, 1 << 1, 1 << 2, 1 << 3, 1 << 4, 1 << 5, 1 << 6, 1 << 7, 1 << 8, 1 << 9]

  /** The 3x3 box of each of the 81 cells, written out row by row. */
  const SquareOf: seq<int> :=
    [0, 0, 0, 1, 1, 1, 2, 2, 2] +
    [0, 0, 0, 1, 1, 1, 2, 2, 2] +
    [0, 0, 0, 1, 1, 1, 2, 2, 2] +
    [3, 3, 3, 4, 4, 4, 5, 5, 5] +
    [3, 3, 3, 4, 4, 4, 5, 5, 5] +
    [3, 3, 3, 4, 4, 4, 5, 5, 5] +
    [6, 6, 6, 7, 7, 7, 8, 8, 8] +
    [6, 6, 6, 7, 7, 7, 8, 8, 8] +
    [6, 6, 6, 7, 7, 7, 8, 8, 8]

  function RowOf(i: int): int { i / 9 }
  function ColOf(i: int): int { i % 9 }
  function BoxOf(i: int): int { RowOf(i) / 3 * 3 + ColOf(i) / 3 }

  /** The pattern of digit d: empty for 0, the single bit d otherwise. */
  function Bit(d: Digit): bv16 {
    if d == 0 then 0 else 1 << d
  }

  /** Looking digit d up in the table gives the empty pattern for 0 and bit d for 1..9. */
  function Pattern(d: Digit): (r: bv16)
    ensures r == Bit(d)
    ensures d != 0 ==> r != 0 && r & (r - 1) == 0
  {
    Digits[d]
  }

  // The table is read band by band (three rows of boxes at a time).

  lemma {:induction false} TopBandEntry(r: int, c: int)
    requires 0 <= r < 3 && 0 <= c < 9
    ensures SquareOf[9 * r + c] == c / 3
  {
    if r == 0 { assert SquareOf[c] == c / 3; }
    else if r == 1 { assert SquareOf[9 + c] == c / 3; }
    else { assert SquareOf[18 + c] == c / 3; }
  }

  lemma {:induction false} MiddleBandEntry(r: int, c: int)
    requires 3 <= r < 6 && 0 <= c < 9
    ensures SquareOf[9 * r + c] == 3 + c / 3
  {
    if r == 3 { assert SquareOf[27 + c] == 3 + c / 3; }
    else if r == 4 { assert SquareOf[36 + c] == 3 + c / 3; }
    else { assert SquareOf[45 + c] == 3 + c / 3; }
  }

  lemma {:induction false} BottomBandEntry(r: int, c: int)
    requires 6 <= r < 9 && 0 <= c < 9
    ensures SquareOf[9 * r + c] == 6 + c / 3
  {
    if r == 6 { assert SquareOf[54 + c] == 6 + c / 3; }
    else if r == 7 { assert SquareOf[63 + c] == 6 + c / 3; }
    else { assert SquareOf[72 + c] == 6 + c / 3; }
  }

  /** The box table agrees with the box formula on every cell. */
  lemma SquareOfIsBox(i: int)
    requires 0 <= i < 81
    ensures SquareOf[i] == BoxOf(i)
    ensures 0 <= RowOf(i) < 9 && 0 <= ColOf(i) < 9 && 0 <= BoxOf(i) < 9
  {
    var r, c := i / 9, i % 9;
    assert i == 9 * r + c;
    if r < 3 {
      TopBandEntry(r, c);
    } else if r < 6 {
      MiddleBandEntry(r, c);
    } else {
      BottomBandEntry(r, c);
    }
  }

  /** Cell (r, c) is at index 9 * r + c. */
  lemma CellAt(r: int, c: int)
    requires 0 <= r < 9 && 0 <= c < 9
    ensures RowOf(9 * r + c) == r && ColOf(9 * r + c) == c
  {
  }

  /** Every index splits into its row and column, and the row is also (i - col) / 9. */
  lemma Split(i: int)
    requires 0 <= i < 81
    ensures i == 9 * RowOf(i) + ColOf(i) && 0 <= RowOf(i) < 9 && 0 <= ColOf(i) < 9
    ensures (i - i % 9) / 9 == RowOf(i)
  {
  }
}
