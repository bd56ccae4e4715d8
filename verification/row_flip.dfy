/** The vertical flip of a flat buffer made of `height` rows of `rowLen`
    elements each: row `i` of the result is row `height - 1 - i` of the
    input, and the elements of a row keep their order. */
module RowFlip {

  /** Offset of element `col` of row `row`. */
  function Cell(rowLen: nat, height: nat, row: nat, col: nat): (k: nat)
    requires row < height && col < rowLen
    ensures k < height * rowLen
  {
    MulMono(row + 1, height, rowLen);
    row * rowLen + col
  }

  lemma {:induction false} MulMono(a: nat, b: nat, n: nat)
    requires a <= b
    ensures a * n <= b * n
    decreases b - a
  {
    if a < b {
      MulMono(a + 1, b, n);
    }
  }

  /** Different (row, column) pairs have different offsets. */
  lemma CellsDistinct(rowLen: nat, height: nat)
    ensures forall r1: nat, c1: nat, r2: nat, c2: nat ::
              r1 < height && c1 < rowLen && r2 < height && c2 < rowLen &&
              Cell(rowLen, height, r1, c1) == Cell(rowLen, height, r2, c2) ==>
              r1 == r2 && c1 == c2
  {
    forall r1: nat, c1: nat, r2: nat, c2: nat |
      r1 < height && c1 < rowLen && r2 < height && c2 < rowLen &&
      Cell(rowLen, height, r1, c1) == Cell(rowLen, height, r2, c2)
      ensures r1 == r2 && c1 == c2
    {
      if r1 < r2 {
        MulMono(r1 + 1, r2, rowLen);
      } else if r2 < r1 {
        MulMono(r2 + 1, r1, rowLen);
      }
    }
  }

  /** Every offset inside the buffer is the offset of some cell. */
  lemma CellOf(rowLen: nat, height: nat, k: nat)
    requires k < height * rowLen
    ensures rowLen > 0 && k / rowLen < height
    ensures Cell(rowLen, height, k / rowLen, k % rowLen) == k
  {
    if rowLen > 0 && k / rowLen >= height {
      MulMono(height, k / rowLen, rowLen);
    }
  }

  lemma RowSplit(rowLen: nat, height: nat)
    requires height > 0
    ensures height * rowLen == rowLen + (height - 1) * rowLen
  {
  }

  /** The buffer with its rows in reverse order. */
  function FlipRows<T>(s: seq<T>, rowLen: nat, height: nat): (t: seq<T>)
    requires |s| == height * rowLen
    ensures |t| == |s|
    decreases height
  {
    if height == 0 then []
    else
      RowSplit(rowLen, height);
      FlipRows(s[rowLen..], rowLen, height - 1) + s[..rowLen]
  }

  /** Row `row` of the flipped buffer is row `height - 1 - row` of the
      input, element by element. */
  lemma {:induction false} FlipRowsAt<T>(s: seq<T>, rowLen: nat, height: nat, row: nat, col: nat)
    requires |s| == height * rowLen && row < height && col < rowLen
    ensures FlipRows(s, rowLen, height)[Cell(rowLen, height, row, col)]
            == s[Cell(rowLen, height, height - 1 - row, col)]
    decreases height
  {
    RowSplit(rowLen, height);
    var rest := s[rowLen..];
    if row < height - 1 {
      FlipRowsAt(rest, rowLen, height - 1, row, col);
      RowSplit(rowLen, height - 1 - row);
      assert Cell(rowLen, height, height - 1 - row, col)
             == rowLen + Cell(rowLen, height - 1, height - 2 - row, col);
    } else {
      RowSplit(rowLen, height);
    }
  }

  /** Conversely, a buffer whose every row is the mirrored row of `s` is
      the flip of `s`. */
  lemma FlipRowsUnique<T>(t: seq<T>, s: seq<T>, rowLen: nat, height: nat)
    requires |t| == |s| == height * rowLen
    requires forall r: nat, c: nat :: r < height && c < rowLen ==>
               t[Cell(rowLen, height, r, c)] == s[Cell(rowLen, height, height - 1 - r, c)]
    ensures t == FlipRows(s, rowLen, height)
  {
    forall k | 0 <= k < |t|
      ensures t[k] == FlipRows(s, rowLen, height)[k]
    {
      CellOf(rowLen, height, k);
      FlipRowsAt(s, rowLen, height, k / rowLen, k % rowLen);
    }
  }

  /** Flipping `x` with one more row appended puts that row first. */
  lemma {:induction false} FlipAppendRow<T>(x: seq<T>, row: seq<T>, rowLen: nat, height: nat)
    requires |x| == height * rowLen && |row| == rowLen
    ensures |x + row| == (height + 1) * rowLen
    ensures FlipRows(x + row, rowLen, height + 1) == row + FlipRows(x, rowLen, height)
    decreases height
  {
    RowSplit(rowLen, height + 1);
    if height == 0 {
      assert x + row == row;
    } else {
      RowSplit(rowLen, height);
      FlipAppendRow(x[rowLen..], row, rowLen, height - 1);
      assert (x + row)[rowLen..] == x[rowLen..] + row;
      assert (x + row)[..rowLen] == x[..rowLen];
    }
  }

  /** Flipping twice gives back the original buffer. */
  lemma {:induction false} FlipRowsTwice<T>(s: seq<T>, rowLen: nat, height: nat)
    requires |s| == height * rowLen
    ensures FlipRows(FlipRows(s, rowLen, height), rowLen, height) == s
    decreases height
  {
    if height > 0 {
      RowSplit(rowLen, height);
      var rest := s[rowLen..];
      FlipRowsTwice(rest, rowLen, height - 1);
      FlipAppendRow(FlipRows(rest, rowLen, height - 1), s[..rowLen], rowLen, height - 1);
      assert s[..rowLen] + rest == s;
    }
  }

  /** The flip only moves elements around. */
  lemma {:induction false} FlipRowsPermutes<T>(s: seq<T>, rowLen: nat, height: nat)
    requires |s| == height * rowLen
    ensures multiset(FlipRows(s, rowLen, height)) == multiset(s)
    decreases height
  {
    if height > 0 {
      RowSplit(rowLen, height);
      FlipRowsPermutes(s[rowLen..], rowLen, height - 1);
      assert s == s[..rowLen] + s[rowLen..];
    }
  }

  /** With an odd number of rows the middle row stays where it is. */
  lemma MiddleRowFixed<T>(s: seq<T>, rowLen: nat, height: nat, col: nat)
    requires |s| == height * rowLen && height % 2 == 1 && col < rowLen
    ensures FlipRows(s, rowLen, height)[Cell(rowLen, height, height / 2, col)]
            == s[Cell(rowLen, height, height / 2, col)]
  {
    FlipRowsAt(s, rowLen, height, height / 2, col);
  }
}
