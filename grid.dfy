/**
 * The `BitMatrix` class of lib/BitMatrix.js: a square of modules that the
 * placement functions change in place.
 *
 * Each row of the source is a byte buffer whose first `offset` bits are
 * padding, so that a row fills whole bytes; every access adds `offset` to
 * the column. The model keeps the `size` x `size` cells in an `array2` and
 * records `offset` without storing the padding bits, which nothing reads
 * back except the penalty score (lib/BitMatrix.js:431-499), where
 * `Penalty.RowBits` puts them back.
 *
 * `Snapshot()` is the value of the cells. Every method that changes cells
 * states the new snapshot as a function of the old one: `Put`, `FillRow`
 * and `Paint` below.
 */
module Matrix {
  import opened Bits
  import opened Patterns
  import opened Penalty

  type Grid = seq<seq<Cell>>

  /** The cells of a two-dimensional array, row by row. */
  ghost function Contents(cells: array2<Cell>): (g: Grid)
    reads cells
    ensures |g| == cells.Length0 && forall r :: 0 <= r < |g| ==> |g[r]| == cells.Length1
  {
    seq(cells.Length0, r requires 0 <= r < cells.Length0 reads cells =>
      seq(cells.Length1, c requires 0 <= c < cells.Length1 reads cells => cells[r, c]))
  }

  lemma ContentsAre(cells: array2<Cell>, g: Grid)
    requires |g| == cells.Length0 && forall r :: 0 <= r < |g| ==> |g[r]| == cells.Length1
    requires forall r, c :: 0 <= r < cells.Length0 && 0 <= c < cells.Length1 ==> cells[r, c] == g[r][c]
    ensures Contents(cells) == g
  {
    var h := Contents(cells);
    forall r | 0 <= r < |g|
      ensures h[r] == g[r]
    {
    }
  }

  // ---------------------------------------------------------------------
  // The updates, on values

  /** `g` with the cell at (`row`, `column`) set to `value`. */
  function Put(g: Grid, row: nat, column: nat, value: Cell): (h: Grid)
    requires row < |g| && column < |g[row]|
    ensures |h| == |g| && forall r :: 0 <= r < |g| ==> |h[r]| == |g[r]|
    ensures h[row][column] == value
    ensures forall r, c :: 0 <= r < |g| && 0 <= c < |g[r]| && (r != row || c != column) ==> h[r][c] == g[r][c]
  {
    var line: seq<Cell> := g[row][column := value];
    g[row := line]
  }

  function Min(a: nat, b: nat): nat {
    if a < b then a else b
  }

  /**
   * `g` after `fill(row, value, start)`: the first `k` values of `value`
   * copied into `row` from column `start` on.
   */
  function FillPrefix(g: Grid, row: nat, value: seq<Cell>, start: nat, k: nat): (h: Grid)
    requires row < |g| && k <= |value| && start + k <= |g[row]|
    ensures |h| == |g| && forall r :: 0 <= r < |g| ==> |h[r]| == |g[r]|
  {
    g[row := seq(|g[row]|, c requires 0 <= c < |g[row]| => if start <= c < start + k then value[c - start] else g[row][c])]
  }

  /** `fill` copies as many values as the row has cells, and no more. */
  function FillRow(g: Grid, row: nat, value: seq<Cell>, start: nat): (h: Grid)
    requires row < |g| && start + Min(|value|, |g[row]|) <= |g[row]|
    ensures |h| == |g| && forall r :: 0 <= r < |g| ==> |h[r]| == |g[r]|
  {
    FillPrefix(g, row, value, start, Min(|value|, |g[row]|))
  }

  /** `g` with the `width` x `height` rectangle whose top left cell is (`row`, `column`) set to `fill`. */
  function Paint(g: Grid, row: nat, column: nat, width: nat, height: nat, fill: Cell): (h: Grid)
    ensures |h| == |g| && forall r :: 0 <= r < |g| ==> |h[r]| == |g[r]|
  {
    seq(|g|, r requires 0 <= r < |g| =>
      seq(|g[r]|, c requires 0 <= c < |g[r]| =>
        if row <= r < row + height && column <= c < column + width then fill else g[r][c]))
  }

  lemma FillPrefixStep(g: Grid, row: nat, value: seq<Cell>, start: nat, k: nat)
    requires row < |g| && k < |value| && start + k < |g[row]|
    ensures Put(FillPrefix(g, row, value, start, k), row, start + k, value[k]) == FillPrefix(g, row, value, start, k + 1)
  {
    var a := Put(FillPrefix(g, row, value, start, k), row, start + k, value[k]);
    var b := FillPrefix(g, row, value, start, k + 1);
    assert a[row] == b[row];
  }

  lemma FillPrefixNone(g: Grid, row: nat, value: seq<Cell>, start: nat)
    requires row < |g| && start <= |g[row]|
    ensures FillPrefix(g, row, value, start, 0) == g
  {
    assert FillPrefix(g, row, value, start, 0)[row] == g[row];
  }

  lemma PaintStep(g: Grid, row: nat, column: nat, width: nat, height: nat, fill: Cell)
    requires row + height < |g| && forall r :: 0 <= r < |g| ==> column + width <= |g[r]|
    ensures FillRow(Paint(g, row, column, width, height, fill), row + height, seq(width, _ => fill), column)
         == Paint(g, row, column, width, height + 1, fill)
  {
    var p := Paint(g, row, column, width, height, fill);
    var a := FillRow(p, row + height, seq(width, _ => fill), column);
    var b := Paint(g, row, column, width, height + 1, fill);
    forall r | 0 <= r < |g|
      ensures a[r] == b[r]
    {
    }
  }

  lemma PaintNone(g: Grid, row: nat, column: nat, width: nat, fill: Cell)
    ensures Paint(g, row, column, width, 0, fill) == g
  {
    var p := Paint(g, row, column, width, 0, fill);
    forall r | 0 <= r < |g|
      ensures p[r] == g[r]
    {
    }
  }

  // ---------------------------------------------------------------------
  // The class

  class BitMatrix {
    const size: nat
    const offset: nat
    const cells: array2<Cell>
    /** Computed once, by the constructor, from the cells it is given. */
    const penaltyScore: nat

    ghost predicate Valid()
      reads this
    {
      cells.Length0 == size && cells.Length1 == size && 0 < size && offset < 8
    }

    ghost function Snapshot(): (g: Grid)
      reads this, cells
      requires Valid()
      ensures Square(g, size)
    {
      Contents(cells)
    }

    /**
     * The constructor (lib/BitMatrix.js:108-119) keeps the rows it is given
     * and scores them at once; the score is never recomputed.
     */
    constructor (cells: array2<Cell>, offset: nat)
      requires cells.Length0 == cells.Length1 && 0 < cells.Length0 && offset < 8
      ensures this.cells == cells && this.offset == offset && size == cells.Length0 && Valid()
      ensures penaltyScore == Score(Contents(cells), cells.Length0, offset)
    {
      var m := Read(cells);
      var score := GetPenaltyScore(m, cells.Length0, offset);
      this.cells := cells;
      this.offset := offset;
      size := cells.Length0;
      penaltyScore := score;
    }

    /**
     * `alloc` (lib/BitMatrix.js:68-90): a light square of side `4 * version + 17`
     * whose rows are padded to whole bytes with fewer than 8 bits.
     */
    static method Alloc(version: nat) returns (matrix: BitMatrix)
      ensures fresh(matrix) && fresh(matrix.cells) && matrix.Valid()
      ensures matrix.size == Size(version) && matrix.Snapshot() == Blank(matrix.size)
      ensures matrix.offset < 8 && WholeBytes(matrix.size + matrix.offset) && matrix.offset == PaddingBits(matrix.size)
      ensures matrix.penaltyScore == BlankPenalty(matrix.size)
    {
      var length := Size(version);
      var offset := Padding(length);
      matrix := Light(length, offset);
    }

    /** The second half of `alloc` (lib/BitMatrix.js:83-89): `length` light rows, scored. */
    static method Light(length: nat, offset: nat) returns (matrix: BitMatrix)
      requires 5 <= length && offset < 8
      ensures fresh(matrix) && fresh(matrix.cells) && matrix.Valid()
      ensures matrix.size == length && matrix.offset == offset && matrix.Snapshot() == Blank(length)
      ensures matrix.penaltyScore == BlankPenalty(length)
    {
      var cells := new Cell[length, length]((r, c) => 0);
      ContentsAre(cells, Blank(length));
      matrix := new BitMatrix(cells, offset);
      BlankScore(length, offset);
    }

    /** `getBit` (lib/BitMatrix.js:152-154). */
    function Get(row: nat, column: nat): (bit: Cell)
      reads this, cells
      requires Valid() && row < size && column < size
      ensures bit == Snapshot()[row][column]
    {
      cells[row, column]
    }

    /** `setBit` (lib/BitMatrix.js:147-150): one cell changes. */
    method SetBit(row: nat, column: nat, value: Cell)
      requires Valid() && row < size && column < size
      modifies cells
      ensures Snapshot() == Put(old(Snapshot()), row, column, value)
    {
      ghost var before := Snapshot();
      cells[row, column] := value;
      ContentsAre(cells, Put(before, row, column, value));
    }

    /** `fill` (lib/BitMatrix.js:137-145): `value` copied into `row` from `start` on, cut at `size` values. */
    method Fill(row: nat, value: seq<Cell>, start: nat)
      requires Valid() && row < size && start + Min(|value|, size) <= size
      modifies cells
      ensures Snapshot() == FillRow(old(Snapshot()), row, value, start)
    {
      ghost var before := Snapshot();
      var end := if |value| > size then size else |value|;
      var count := 0;
      FillPrefixNone(before, row, value, start);
      while count < end
        invariant count <= end && Valid()
        invariant Snapshot() == FillPrefix(before, row, value, start, count)
      {
        SetBit(row, start + count, value[count]);
        FillPrefixStep(before, row, value, start, count);
        count := count + 1;
      }
    }
  }

  predicate WholeBytes(bits: nat) {
    bits % 8 == 0
  }

  /** The number of bits that pad a row of `length` bits to whole bytes. */
  function PaddingBits(length: nat): nat {
    (8 - length % 8) % 8
  }

  /** Fewer than 8 padding bits that make whole bytes are the padding bits. */
  lemma PaddingUnique(length: nat, offset: nat)
    requires offset < 8 && WholeBytes(length + offset)
    ensures offset == PaddingBits(length)
  {
    DivModUnique(length, 8, length / 8, length % 8);
    DivModUnique(length + offset, 8, (length + offset) / 8, 0);
  }

  /**
   * The loop of `alloc` (lib/BitMatrix.js:70-81): the fewest bits that pad
   * a row of `length` bits to whole bytes.
   */
  method Padding(length: nat) returns (offset: nat)
    ensures offset < 8 && WholeBytes(length + offset) && offset == PaddingBits(length)
  {
    var rem := 1;
    var outSize := length;
    offset := 0;
    ghost var whole := length + (8 - length % 8) % 8;
    while rem != 0
      invariant length <= outSize <= whole
      invariant rem == 0 ==> outSize % 8 == 0 && offset == outSize - length
      decreases 2 * (whole - outSize) + (if rem == 0 then 0 else 1)
    {
      rem := outSize % 8;
      if rem == 0 {
        offset := outSize - length;
      } else {
        outSize := outSize + 1;
      }
    }
    PaddingUnique(length, offset);
  }

  /** The cells of an array, read row by row into a value. */
  method Read(cells: array2<Cell>) returns (m: Grid)
    ensures m == Contents(cells)
  {
    m := [];
    var r := 0;
    while r < cells.Length0
      invariant r <= cells.Length0 && |m| == r
      invariant forall i :: 0 <= i < r ==> m[i] == Contents(cells)[i]
    {
      var row := [];
      var c := 0;
      while c < cells.Length1
        invariant c <= cells.Length1 && |row| == c
        invariant forall j :: 0 <= j < c ==> row[j] == cells[r, j]
      {
        row := row + [cells[r, c]];
        c := c + 1;
      }
      assert row == Contents(cells)[r];
      m := m + [row];
      r := r + 1;
    }
  }

  /**
   * `fillBitArea` (lib/BitMatrix.js:196-202): one `fill` per row of the
   * rectangle, each with a row of `width` copies of `fill`.
   */
  method FillBitArea(matrix: BitMatrix, row: nat, column: nat, width: nat, height: nat, fill: Cell)
    requires matrix.Valid() && row + height <= matrix.size && column + width <= matrix.size
    modifies matrix.cells
    ensures matrix.Snapshot() == Paint(old(matrix.Snapshot()), row, column, width, height, fill)
  {
    ghost var before := matrix.Snapshot();
    var fillRow := seq(width, _ => fill);
    var index := row;
    PaintNone(before, row, column, width, fill);
    while index < row + height
      invariant row <= index <= row + height
      invariant matrix.Snapshot() == Paint(before, row, column, width, index - row, fill)
    {
      matrix.Fill(index, fillRow, column);
      PaintStep(before, row, column, width, index - row, fill);
      index := index + 1;
    }
  }
}
