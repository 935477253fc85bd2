/**
 * The penalty score of lib/BitMatrix.js:372-499 (section 7.8.3.1 of
 * ISO/IEC 18004), computed as the code computes it on a square grid given
 * row by row.
 *
 * Two of its terms read bit positions rather than cells. The column term
 * packs one cell per byte and then reads single bits of those bytes, so
 * only every eighth bit it reads is a cell and the rest are 0
 * (`ColumnBitsRead`). The dark-module count reads raw row positions
 * `offset .. size - 1`, which are the columns `0 .. size - offset - 1`
 * (`DarkCountRead`). Rule 4's floating-point arithmetic is stated in
 * integers.
 */
module Penalty {
  import opened Bits
  import opened Patterns
  import Bitstream

  /** A `size` x `size` grid, row by row. */
  predicate Square(m: seq<seq<Cell>>, size: nat) {
    |m| == size && forall r :: 0 <= r < size ==> |m[r]| == size
  }

  /** The grid with every module light. */
  function Blank(size: nat): (m: seq<seq<Cell>>)
    ensures Square(m, size)
  {
    seq(size, _ => seq(size, _ => 0))
  }

  // ---------------------------------------------------------------------
  // Rule 1 along one line (getLinePenalty)

  /** How many equal cells end at position `i`, that one included. */
  function RunLength(line: seq<Cell>, i: nat): (r: nat)
    requires i < |line|
    ensures 1 <= r <= i + 1
  {
    if i > 0 && line[i - 1] == line[i] then RunLength(line, i - 1) + 1 else 1
  }

  /** What the cell that brings its run to `run` cells adds: 3 at five, 1 beyond. */
  function Contribution(run: nat): nat {
    if run == 5 then 3 else if run > 5 then 1 else 0
  }

  /** Rule 1 along a line: the contributions of its cells, first to last. */
  function LineScore(line: seq<Cell>): nat
    decreases |line|
  {
    if line == [] then 0 else LineScore(line[..|line| - 1]) + Contribution(RunLength(line, |line| - 1))
  }

  lemma {:induction false} RunLengthPrefix(line: seq<Cell>, n: nat, i: nat)
    requires i < n <= |line|
    ensures RunLength(line[..n], i) == RunLength(line, i)
    decreases i
  {
    if i > 0 {
      RunLengthPrefix(line, n, i - 1);
    }
  }

  /**
   * `getLinePenalty` (lib/BitMatrix.js:372-393): the line is the `size` bits
   * of `bits` from position `offset` on; the run counter starts at 0 against
   * the value 0 and restarts at every change of value.
   */
  method GetLinePenalty(bits: seq<Cell>, size: nat, offset: nat) returns (penalty: nat)
    requires offset + size <= |bits|
    ensures penalty == LineScore(bits[offset..offset + size])
  {
    ghost var line := bits[offset..offset + size];
    var count := 0;
    var counting := 0;
    penalty := 0;
    var index := offset;
    var num := 0;
    while num < size
      invariant 0 <= num <= size && index == offset + num
      invariant penalty == LineScore(line[..num])
      invariant num == 0 ==> count == 0 && counting == 0
      invariant num > 0 ==> counting == line[num - 1] && count == RunLength(line, num - 1)
    {
      var cell := bits[index];
      assert cell == line[num];
      if cell != counting {
        counting := cell;
        count := 1;
      } else {
        count := count + 1;
        if count == 5 {
          penalty := penalty + 3;
        } else if count > 5 {
          penalty := penalty + 1;
        }
      }
      assert line[..num + 1][..num] == line[..num];
      RunLengthPrefix(line, num + 1, num);
      index := index + 1;
      num := num + 1;
    }
    assert line[..size] == line;
  }

  lemma {:induction false} UniformRun(line: seq<Cell>, i: nat)
    requires i < |line| && forall j :: 0 <= j < |line| ==> line[j] == line[0]
    ensures RunLength(line, i) == i + 1
    decreases i
  {
    if i > 0 {
      UniformRun(line, i - 1);
    }
  }

  /** A run of `n` equal cells scores 3 once it reaches five and 1 for every cell beyond. */
  lemma {:induction false} UniformLine(n: nat, v: Cell)
    ensures LineScore(seq(n, _ => v)) == if n >= 5 then n - 2 else 0
  {
    if n > 0 {
      var line := seq(n, _ => v);
      assert line[..n - 1] == seq(n - 1, _ => v);
      UniformLine(n - 1, v);
      UniformRun(line, n - 1);
    }
  }

  lemma {:induction false} RunLengthAfter(a: seq<Cell>, b: seq<Cell>, i: nat)
    requires a != [] && i < |b| && a[|a| - 1] != b[0]
    ensures RunLength(a + b, |a| + i) == RunLength(b, i)
    decreases i
  {
    if i > 0 {
      RunLengthAfter(a, b, i - 1);
    }
  }

  /** Runs never reach across a change of value: the scores of the two sides add up. */
  lemma {:induction false} LineScoreSplit(a: seq<Cell>, b: seq<Cell>)
    requires a != [] && b != [] && a[|a| - 1] != b[0]
    ensures LineScore(a + b) == LineScore(a) + LineScore(b)
    decreases |b|
  {
    var n := |b| - 1;
    RunLengthAfter(a, b, n);
    if n == 0 {
      assert (a + b)[..|a|] == a;
      assert b[..0] == [];
    } else {
      assert (a + b)[..|a| + n] == a + b[..n];
      LineScoreSplit(a, b[..n]);
    }
  }

  // ---------------------------------------------------------------------
  // Rule 1 over rows and columns

  /** The bits of a row's byte buffer: `offset` padding bits, then the cells. */
  function RowBits(row: seq<Cell>, offset: nat): seq<Cell> {
    seq(offset, _ => 0) + row
  }

  /** Rule 1 summed over a list of lines, first to last. */
  function LinesScore(lines: seq<seq<Cell>>): nat
    decreases |lines|
  {
    if lines == [] then 0 else LinesScore(lines[..|lines| - 1]) + LineScore(lines[|lines| - 1])
  }

  /** Column `c` packed one cell per byte, as `ByteView.from` packs it (lib/BitMatrix.js:441-443). */
  function ColumnBytes(m: seq<seq<Cell>>, c: nat): (r: seq<Byte>)
    requires forall i :: 0 <= i < |m| ==> c < |m[i]|
    ensures |r| == |m|
  {
    seq(|m|, i requires 0 <= i < |m| => m[i][c])
  }

  /** The bits of that byte buffer, most significant bit of each byte first. */
  function ColumnBits(m: seq<seq<Cell>>, c: nat): (r: seq<Cell>)
    requires forall i :: 0 <= i < |m| ==> c < |m[i]|
    ensures |r| == 8 * |m|
  {
    var bytes := ColumnBytes(m, c);
    seq(8 * |m|, p requires 0 <= p < 8 * |m| => Bitstream.BitAt(bytes, p))
  }

  /** The columns as getLinePenalty reads them: `size` bits of each packed column from bit `offset` on. */
  function Columns(m: seq<seq<Cell>>, size: nat, offset: nat): (r: seq<seq<Cell>>)
    requires Square(m, size) && offset < 8
    ensures |r| == size
  {
    seq(size, c requires 0 <= c < size => ColumnBits(m, c)[offset..offset + size])
  }

  /** Bit `p` of the packed column is cell `p / 8` when `p` is the last bit of its byte, and 0 otherwise. */
  lemma ColumnBitsRead(m: seq<seq<Cell>>, c: nat, p: nat)
    requires forall i :: 0 <= i < |m| ==> c < |m[i]|
    requires p < 8 * |m|
    ensures ColumnBits(m, c)[p] == if p % 8 == 7 then m[p / 8][c] else 0
  {
    var b := m[p / 8][c];
    if p % 8 != 7 {
      BitOfZero(7 - p % 8 - 1);
      assert b / 2 == 0;
    }
  }

  // ---------------------------------------------------------------------
  // Rule 2

  /** The 2 x 2 block whose top left module is (r, c) is of one colour. */
  predicate IsBlock(m: seq<seq<Cell>>, size: nat, r: nat, c: nat)
    requires Square(m, size) && r + 1 < size && c + 1 < size
  {
    m[r][c + 1] == m[r][c] && m[r + 1][c] == m[r][c] && m[r + 1][c + 1] == m[r][c]
  }

  function BlocksInRow(m: seq<seq<Cell>>, size: nat, r: nat, k: nat): nat
    requires Square(m, size) && r + 1 < size && k + 1 <= size
  {
    if k == 0 then 0 else BlocksInRow(m, size, r, k - 1) + (if IsBlock(m, size, r, k - 1) then 1 else 0)
  }

  function Blocks(m: seq<seq<Cell>>, size: nat, k: nat): nat
    requires Square(m, size) && k + 1 <= size
  {
    if k == 0 then 0 else Blocks(m, size, k - 1) + BlocksInRow(m, size, k - 1, size - 1)
  }

  // ---------------------------------------------------------------------
  // Rule 3

  const Rule3Pattern: seq<Cell> := [1, 0, 1, 1, 1, 0, 1, 0, 0, 0, 0]
  const Rule3Reversed: seq<Cell> := [0, 0, 0, 0, 1, 0, 1, 1, 1, 0, 1]

  /** The positions the rule 3 loops try: `size - 11` of them, none when that is negative. */
  function Starts(size: nat): nat {
    if size >= 11 then size - 11 else 0
  }

  /** The 11 modules of row `r` from column `c` on spell the pattern or its reverse. */
  predicate RowMatch(m: seq<seq<Cell>>, size: nat, r: nat, c: nat)
    requires Square(m, size) && r < size && c + 11 <= size
  {
    (forall ptr :: 0 <= ptr < 11 ==> Rule3Pattern[ptr] == m[r][c + ptr]) ||
    (forall ptr :: 0 <= ptr < 11 ==> Rule3Reversed[ptr] == m[r][c + ptr])
  }

  /** The 11 modules of column `c` from row `r` on spell the pattern or its reverse. */
  predicate ColumnMatch(m: seq<seq<Cell>>, size: nat, r: nat, c: nat)
    requires Square(m, size) && c < size && r + 11 <= size
  {
    (forall ptr :: 0 <= ptr < 11 ==> Rule3Pattern[ptr] == m[r + ptr][c]) ||
    (forall ptr :: 0 <= ptr < 11 ==> Rule3Reversed[ptr] == m[r + ptr][c])
  }

  function RowMatches(m: seq<seq<Cell>>, size: nat, r: nat, k: nat): nat
    requires Square(m, size) && r < size && k <= Starts(size)
  {
    if k == 0 then 0 else RowMatches(m, size, r, k - 1) + (if RowMatch(m, size, r, k - 1) then 1 else 0)
  }

  function ColumnMatches(m: seq<seq<Cell>>, size: nat, c: nat, k: nat): nat
    requires Square(m, size) && c < size && k <= Starts(size)
  {
    if k == 0 then 0 else ColumnMatches(m, size, c, k - 1) + (if ColumnMatch(m, size, k - 1, c) then 1 else 0)
  }

  /** Rule 3 over the first `k` values of the outer index: row `index` and column `index`. */
  function PatternMatches(m: seq<seq<Cell>>, size: nat, k: nat): nat
    requires Square(m, size) && k <= size
  {
    if k == 0 then 0
    else PatternMatches(m, size, k - 1) + RowMatches(m, size, k - 1, Starts(size)) + ColumnMatches(m, size, k - 1, Starts(size))
  }

  // ---------------------------------------------------------------------
  // Rule 4

  /** The sum of `bits[lo..hi]`. */
  function Ones(bits: seq<Cell>, lo: nat, hi: nat): nat
    requires hi <= |bits|
    decreases hi
  {
    if hi <= lo then 0 else Ones(bits, lo, hi - 1) + bits[hi - 1]
  }

  /** The dark count of lib/BitMatrix.js:492-494 over the first `k` rows: raw positions `offset .. size - 1`. */
  function Dark(m: seq<seq<Cell>>, size: nat, offset: nat, k: nat): nat
    requires Square(m, size) && k <= size
  {
    if k == 0 then 0 else Dark(m, size, offset, k - 1) + Ones(RowBits(m[k - 1], offset), offset, size)
  }

  /** The number of modules of the grid. */
  function Area(size: nat): (t: nat)
    ensures size > 0 ==> t >= size
  {
    if size == 0 then 0 else MulLe(1, size, size); size * size
  }

  function Abs(x: int): nat {
    if x < 0 then -x else x
  }

  /**
   * `Math.abs(Math.trunc(dark * 100 / total / 5 - 10)) * 10`: ten points for
   * every whole 5 % that the dark share lies away from 50 %.
   */
  function Mix(dark: nat, total: nat): nat
    requires total > 0
  {
    10 * Quot(Abs(20 * dark - 10 * total), total)
  }

  /** No points while the dark share is strictly within 5 % of one half; 100 points when nothing is dark. */
  lemma MixBand(dark: nat, total: nat)
    requires total > 0
    ensures Mix(dark, total) == 0 <==> 9 * total < 20 * dark < 11 * total
    ensures dark == 0 ==> Mix(dark, total) == 100
  {
    if dark == 0 {
      QuotRemOf(10, 0, total);
    }
  }

  // ---------------------------------------------------------------------
  // The whole score

  function Score(m: seq<seq<Cell>>, size: nat, offset: nat): nat
    requires Square(m, size) && 0 < size && offset < 8
  {
    LinesScore(m) + LinesScore(Columns(m, size, offset)) + 3 * Blocks(m, size, size - 1) +
    40 * PatternMatches(m, size, size) + Mix(Dark(m, size, offset, size), Area(size))
  }

  // ---------------------------------------------------------------------
  // getPenaltyScore, loop by loop

  /** Rule 1 over the rows (lib/BitMatrix.js:435-437): each row is read from bit `offset` of its buffer. */
  method RowsPenalty(m: seq<seq<Cell>>, size: nat, offset: nat) returns (sum: nat)
    requires Square(m, size)
    ensures sum == LinesScore(m)
  {
    sum := 0;
    var index := 0;
    while index < size
      invariant index <= size && sum == LinesScore(m[..index])
    {
      var bits := RowBits(m[index], offset);
      var penalty := GetLinePenalty(bits, size, offset);
      assert bits[offset..offset + size] == m[index];
      assert m[..index + 1][..index] == m[..index];
      sum := sum + penalty;
      index := index + 1;
    }
    assert m[..size] == m;
  }

  /** `mapMatrix` over the rows, taking cell `c` of each (lib/BitMatrix.js:395-405, 441-443). */
  method MapColumn(m: seq<seq<Cell>>, size: nat, c: nat) returns (column: seq<Byte>)
    requires Square(m, size) && c < size
    ensures column == ColumnBytes(m, c)
  {
    var response := new Byte[size];
    var index := 0;
    while index < size
      invariant index <= size
      invariant forall i :: 0 <= i < index ==> response[i] == m[i][c]
    {
      response[index] := m[index][c];
      index := index + 1;
    }
    column := response[..];
  }

  /** Column `c` as getLinePenalty sees it: the bits of the byte buffer `MapColumn` fills. */
  method ColumnView(m: seq<seq<Cell>>, size: nat, c: nat) returns (bits: seq<Cell>)
    requires Square(m, size) && c < size
    ensures bits == ColumnBits(m, c)
  {
    var column := MapColumn(m, size, c);
    bits := seq(8 * size, p requires 0 <= p < 8 * size => Bitstream.BitAt(column, p));
  }

  /** Rule 1 along one column (lib/BitMatrix.js:441-444). */
  method ColumnPenalty(m: seq<seq<Cell>>, size: nat, offset: nat, c: nat) returns (penalty: nat)
    requires Square(m, size) && c < size && offset < 8
    ensures penalty == LineScore(ColumnBits(m, c)[offset..offset + size])
  {
    var bits := ColumnView(m, size, c);
    penalty := GetLinePenalty(bits, size, offset);
  }

  /** Rule 1 over the columns (lib/BitMatrix.js:440-445), each packed one cell per byte first. */
  method ColumnsPenalty(m: seq<seq<Cell>>, size: nat, offset: nat) returns (sum: nat)
    requires Square(m, size) && offset < 8
    ensures sum == LinesScore(Columns(m, size, offset))
  {
    ghost var columns := Columns(m, size, offset);
    sum := 0;
    var columnIndex := 0;
    while columnIndex < size
      invariant columnIndex <= size && sum == LinesScore(columns[..columnIndex])
    {
      var penalty := ColumnPenalty(m, size, offset, columnIndex);
      assert columns[..columnIndex + 1][..columnIndex] == columns[..columnIndex];
      sum := sum + penalty;
      columnIndex := columnIndex + 1;
    }
    assert columns[..size] == columns;
  }

  method RowBlocks(m: seq<seq<Cell>>, size: nat, row: nat) returns (blocks: nat)
    requires Square(m, size) && row + 1 < size
    ensures blocks == BlocksInRow(m, size, row, size - 1)
  {
    blocks := 0;
    var column := 0;
    while column < size - 1
      invariant column <= size - 1 && blocks == BlocksInRow(m, size, row, column)
    {
      var cell := m[row][column];
      if m[row][column + 1] == cell && m[row + 1][column] == cell && m[row + 1][column + 1] == cell {
        blocks := blocks + 1;
      }
      column := column + 1;
    }
  }

  /** Rule 2 (lib/BitMatrix.js:449-462): the 2 x 2 blocks of one colour, overlapping ones counted apart. */
  method CountBlocks(m: seq<seq<Cell>>, size: nat) returns (blocks: nat)
    requires Square(m, size) && size > 0
    ensures blocks == Blocks(m, size, size - 1)
  {
    blocks := 0;
    var row := 0;
    while row < size - 1
      invariant row <= size - 1 && blocks == Blocks(m, size, row)
    {
      var inRow := RowBlocks(m, size, row);
      blocks := blocks + inRow;
      row := row + 1;
    }
  }

  method LineMatches(m: seq<seq<Cell>>, size: nat, index: nat) returns (patterns: nat)
    requires Square(m, size) && index < size
    ensures patterns == RowMatches(m, size, index, Starts(size)) + ColumnMatches(m, size, index, Starts(size))
  {
    var inRow := 0;
    var columnIndex := 0;
    while columnIndex < Starts(size)
      invariant columnIndex <= Starts(size) && inRow == RowMatches(m, size, index, columnIndex)
    {
      if RowMatch(m, size, index, columnIndex) {
        inRow := inRow + 1;
      }
      columnIndex := columnIndex + 1;
    }
    var inColumn := 0;
    var rowIndex := 0;
    while rowIndex < Starts(size)
      invariant rowIndex <= Starts(size) && inColumn == ColumnMatches(m, size, index, rowIndex)
    {
      if ColumnMatch(m, size, rowIndex, index) {
        inColumn := inColumn + 1;
      }
      rowIndex := rowIndex + 1;
    }
    patterns := inRow + inColumn;
  }

  /** Rule 3 (lib/BitMatrix.js:466-487): finder-like runs along rows and columns. */
  method CountPatterns(m: seq<seq<Cell>>, size: nat) returns (patterns: nat)
    requires Square(m, size)
    ensures patterns == PatternMatches(m, size, size)
  {
    patterns := 0;
    var index := 0;
    while index < size
      invariant index <= size && patterns == PatternMatches(m, size, index)
    {
      var found := LineMatches(m, size, index);
      patterns := patterns + found;
      index := index + 1;
    }
  }

  /** `reduceColumn` summing the cells (lib/BitMatrix.js:416-424): raw positions `offset .. size - 1` of a row. */
  method RowDark(bits: seq<Cell>, size: nat, offset: nat) returns (lineSum: nat)
    requires size <= |bits|
    ensures lineSum == Ones(bits, offset, size)
  {
    lineSum := 0;
    var count := offset;
    while count < size
      invariant offset <= size ==> offset <= count <= size && lineSum == Ones(bits, offset, count)
      invariant offset > size ==> count == offset && lineSum == 0
    {
      lineSum := lineSum + bits[count];
      count := count + 1;
    }
  }

  /** The dark count of rule 4 (lib/BitMatrix.js:492-494). */
  method CountDark(m: seq<seq<Cell>>, size: nat, offset: nat) returns (dark: nat)
    requires Square(m, size)
    ensures dark == Dark(m, size, offset, size)
  {
    dark := 0;
    var row := 0;
    while row < size
      invariant row <= size && dark == Dark(m, size, offset, row)
    {
      var lineSum := RowDark(RowBits(m[row], offset), size, offset);
      dark := dark + lineSum;
      row := row + 1;
    }
  }

  /** `getPenaltyScore` (lib/BitMatrix.js:431-499). */
  method GetPenaltyScore(m: seq<seq<Cell>>, size: nat, offset: nat) returns (score: nat)
    requires Square(m, size) && 0 < size && offset < 8
    ensures score == Score(m, size, offset)
  {
    var rowPenalty := RowsPenalty(m, size, offset);
    var columnPenalty := ColumnsPenalty(m, size, offset);
    var blocks := CountBlocks(m, size);
    var patterns := CountPatterns(m, size);
    var darkModules := CountDark(m, size, offset);
    score := rowPenalty + columnPenalty + blocks * 3 + patterns * 40 + Mix(darkModules, Area(size));
  }

  // ---------------------------------------------------------------------
  // What the quirks mean

  /** The dark count covers the cells of columns `0 .. size - offset - 1` only. */
  lemma {:induction false} DarkCountRead(row: seq<Cell>, offset: nat, hi: nat)
    requires offset <= hi <= offset + |row|
    ensures Ones(RowBits(row, offset), offset, hi) == Ones(row, 0, hi - offset)
    decreases hi
  {
    if hi > offset {
      DarkCountRead(row, offset, hi - 1);
    }
  }

  // ---------------------------------------------------------------------
  // The all-light grid

  /** One more term `x` in a sum of `k - 1` terms `x` makes `k * x`. */
  lemma MulStep(k: nat, x: nat, sum: nat, previous: nat)
    requires k > 0 && previous == (k - 1) * x && sum == previous + x
    ensures sum == k * x
  {
  }

  /** Lines that each score `x` score `x` times their number together. */
  lemma {:induction false} LinesOfEqualScore(lines: seq<seq<Cell>>, x: nat)
    requires forall i :: 0 <= i < |lines| ==> LineScore(lines[i]) == x
    ensures LinesScore(lines) == |lines| * x
    decreases |lines|
  {
    if lines != [] {
      var k := |lines|;
      LinesOfEqualScore(lines[..k - 1], x);
      MulStep(k, x, LinesScore(lines), LinesScore(lines[..k - 1]));
    }
  }

  lemma BlankRows(size: nat)
    requires size >= 5
    ensures LinesScore(Blank(size)) == size * (size - 2)
  {
    var m := Blank(size);
    UniformLine(size, 0);
    forall r | 0 <= r < size
      ensures LineScore(m[r]) == size - 2
    {
      assert m[r] == seq(size, _ => 0);
    }
    LinesOfEqualScore(m, size - 2);
  }

  lemma BlankColumn(size: nat, offset: nat, c: nat)
    requires size >= 5 && offset < 8 && c < size
    ensures LineScore(Columns(Blank(size), size, offset)[c]) == size - 2
  {
    var m := Blank(size);
    var line := ColumnBits(m, c)[offset..offset + size];
    forall n | 0 <= n < size
      ensures line[n] == 0
    {
      ColumnBitsRead(m, c, offset + n);
    }
    assert line == seq(size, _ => 0);
    UniformLine(size, 0);
  }

  lemma BlankColumns(size: nat, offset: nat)
    requires size >= 5 && offset < 8
    ensures LinesScore(Columns(Blank(size), size, offset)) == size * (size - 2)
  {
    forall c | 0 <= c < size
      ensures LineScore(Columns(Blank(size), size, offset)[c]) == size - 2
    {
      BlankColumn(size, offset, c);
    }
    LinesOfEqualScore(Columns(Blank(size), size, offset), size - 2);
  }

  lemma {:induction false} BlankBlocksInRow(size: nat, r: nat, k: nat)
    requires r + 1 < size && k + 1 <= size
    ensures BlocksInRow(Blank(size), size, r, k) == k
  {
    if k > 0 {
      BlankBlocksInRow(size, r, k - 1);
    }
  }

  lemma {:induction false} BlankBlocks(size: nat, k: nat)
    requires k + 1 <= size
    ensures Blocks(Blank(size), size, k) == k * (size - 1)
  {
    if k > 0 {
      BlankBlocks(size, k - 1);
      BlankBlocksInRow(size, k - 1, size - 1);
      MulStep(k, size - 1, Blocks(Blank(size), size, k), Blocks(Blank(size), size, k - 1));
    }
  }

  lemma {:induction false} BlankRowMatches(size: nat, r: nat, k: nat)
    requires r < size && k <= Starts(size)
    ensures RowMatches(Blank(size), size, r, k) == 0
  {
    if k > 0 {
      BlankRowMatches(size, r, k - 1);
      var m := Blank(size);
      assert Rule3Pattern[0] != m[r][k - 1 + 0];
      assert Rule3Reversed[4] != m[r][k - 1 + 4];
    }
  }

  lemma {:induction false} BlankColumnMatches(size: nat, c: nat, k: nat)
    requires c < size && k <= Starts(size)
    ensures ColumnMatches(Blank(size), size, c, k) == 0
  {
    if k > 0 {
      BlankColumnMatches(size, c, k - 1);
      var m := Blank(size);
      assert Rule3Pattern[0] != m[k - 1 + 0][c];
      assert Rule3Reversed[4] != m[k - 1 + 4][c];
    }
  }

  lemma {:induction false} BlankPatterns(size: nat, k: nat)
    requires k <= size
    ensures PatternMatches(Blank(size), size, k) == 0
  {
    if k > 0 {
      BlankPatterns(size, k - 1);
      BlankRowMatches(size, k - 1, Starts(size));
      BlankColumnMatches(size, k - 1, Starts(size));
    }
  }

  lemma {:induction false} BlankDark(size: nat, offset: nat, k: nat)
    requires k <= size
    ensures Dark(Blank(size), size, offset, k) == 0
  {
    if k > 0 {
      BlankDark(size, offset, k - 1);
      if offset <= size {
        DarkCountRead(Blank(size)[k - 1], offset, size);
        BlankOnes(Blank(size)[k - 1], size - offset);
      }
    }
  }

  lemma {:induction false} BlankOnes(row: seq<Cell>, hi: nat)
    requires hi <= |row| && forall i :: 0 <= i < |row| ==> row[i] == 0
    ensures Ones(row, 0, hi) == 0
  {
    if hi > 0 {
      BlankOnes(row, hi - 1);
    }
  }

  /** The score of an all-light grid of side `size`. */
  function BlankPenalty(size: nat): nat {
    2 * (size * (size - 2)) + 3 * ((size - 1) * (size - 1)) + 100
  }

  /**
   * An all-light grid of side `size` scores `size - 2` on every row and
   * column, 3 for each of its `(size - 1)^2` blocks, and 100 for being
   * entirely light.
   */
  lemma BlankScore(size: nat, offset: nat)
    requires size >= 5 && offset < 8
    ensures Score(Blank(size), size, offset) == BlankPenalty(size)
  {
    BlankParts(size, offset);
    MixBand(0, Area(size));
  }

  lemma BlankParts(size: nat, offset: nat)
    requires size >= 5 && offset < 8
    ensures LinesScore(Blank(size)) == size * (size - 2)
    ensures LinesScore(Columns(Blank(size), size, offset)) == size * (size - 2)
    ensures Blocks(Blank(size), size, size - 1) == (size - 1) * (size - 1)
    ensures PatternMatches(Blank(size), size, size) == 0
    ensures Dark(Blank(size), size, offset, size) == 0
  {
    BlankRows(size);
    BlankColumns(size, offset);
    BlankBlocks(size, size - 1);
    BlankPatterns(size, size);
    BlankDark(size, offset, size);
  }
}
