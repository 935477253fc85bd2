/**
 * The first two things `BitMatrix.from` does to a fresh matrix
 * (lib/BitMatrix.js:45-61, 301-313): every module of the module sequence
 * receives one bit of the codewords, inverted where the data mask says so,
 * then the fifteen format modules are written twice, once around the top
 * left finder pattern and once split between the other two.
 */
module Placement {
  import opened Bits
  import opened Patterns
  import opened Penalty
  import opened Matrix
  import opened Areas
  import Bitstream

  // ---------------------------------------------------------------------
  // Data modules

  /**
   * Bit `7 - (index & 7)` of codeword `index >> 3`, most significant bit
   * first. Past the last codeword JavaScript reads `undefined`, and
   * `undefined >> s & 1` is 0.
   */
  function CodewordBit(codewords: seq<Byte>, index: nat): (b: Cell)
  {
    if index / 8 < |codewords| then Bitstream.BitAt(codewords, index) else 0
  }

  lemma CodewordBitAt(codewords: seq<Byte>, k: nat, i: nat)
    requires k < |codewords| && i < 8
    ensures CodewordBit(codewords, 8 * k + i) == Bit(codewords[k], 7 - i)
  {
    DivModUnique(8 * k + i, 8, k, i);
  }

  /** The eight modules of codeword `k` spell it in binary, most significant bit first. */
  lemma CodewordBits(codewords: seq<Byte>, k: nat)
    requires k < |codewords|
    ensures seq(8, i requires 0 <= i < 8 => CodewordBit(codewords, 8 * k + i) as nat) == Bitstream.FieldBits(codewords[k], 8)
  {
    var spelled := seq(8, i requires 0 <= i < 8 => CodewordBit(codewords, 8 * k + i) as nat);
    var field := Bitstream.FieldBits(codewords[k], 8);
    forall i | 0 <= i < 8
      ensures spelled[i] == field[i]
    {
      CodewordBitAt(codewords, k, i);
    }
  }

  /** Every module past the codewords stays light before masking. */
  lemma CodewordBitBeyond(codewords: seq<Byte>, index: nat)
    requires index >= 8 * |codewords|
    ensures CodewordBit(codewords, index) == 0
  {
    DivModUnique(index, 8, index / 8, index % 8);
  }

  /** What the mask makes of a bit at (row, column): inverted where `MASK_FNS[maskIndex]` holds. */
  function Masked(maskIndex: nat, cell: (nat, nat), bit: Cell): Cell
    requires maskIndex < 8
  {
    if Mask(maskIndex, cell.0, cell.1) then 1 - bit else bit
  }

  /** Masking twice restores the bit: a reader unmasks with the same pattern. */
  lemma MaskedTwice(maskIndex: nat, cell: (nat, nat), bit: Cell)
    requires maskIndex < 8
    ensures Masked(maskIndex, cell, Masked(maskIndex, cell, bit)) == bit
  {
  }

  /** The value `from` gives the module at position `index` of the sequence. */
  function ModuleValue(codewords: seq<Byte>, maskIndex: nat, index: nat, cell: (nat, nat)): Cell
    requires maskIndex < 8
  {
    Masked(maskIndex, cell, CodewordBit(codewords, index))
  }

  /** Every module of the sequence lies in the grid. */
  predicate InSquare(s: seq<(nat, nat)>, size: nat) {
    forall j :: 0 <= j < |s| ==> s[j].0 < size && s[j].1 < size
  }

  /** No module appears twice. */
  predicate Distinct(s: seq<(nat, nat)>) {
    forall j, l :: 0 <= j < l < |s| ==> s[j] != s[l]
  }

  /** The grid after the first `n` modules of `s` have been written. */
  function DataPlaced(g: Grid, s: seq<(nat, nat)>, codewords: seq<Byte>, maskIndex: nat, n: nat): (h: Grid)
    requires IsSquare(g) && InSquare(s, |g|) && n <= |s| && maskIndex < 8
    ensures IsSquare(h) && |h| == |g|
  {
    if n == 0 then g
    else Put(DataPlaced(g, s, codewords, maskIndex, n - 1), s[n - 1].0, s[n - 1].1, ModuleValue(codewords, maskIndex, n - 1, s[n - 1]))
  }

  /** A module outside the first `n` of the sequence keeps its value. */
  lemma {:induction false} DataPlacedMiss(g: Grid, s: seq<(nat, nat)>, codewords: seq<Byte>, maskIndex: nat, n: nat, r: nat, c: nat)
    requires IsSquare(g) && InSquare(s, |g|) && n <= |s| && maskIndex < 8 && r < |g| && c < |g|
    requires (r, c) !in s[..n]
    ensures DataPlaced(g, s, codewords, maskIndex, n)[r][c] == g[r][c]
  {
    if n > 0 {
      assert s[..n - 1] == s[..n][..n - 1];
      assert s[n - 1] in s[..n];
      DataPlacedMiss(g, s, codewords, maskIndex, n - 1, r, c);
    }
  }

  /** When no module repeats, module `j` of the sequence holds its masked data bit. */
  lemma {:induction false} DataPlacedHit(g: Grid, s: seq<(nat, nat)>, codewords: seq<Byte>, maskIndex: nat, n: nat, j: nat)
    requires IsSquare(g) && InSquare(s, |g|) && n <= |s| && maskIndex < 8 && Distinct(s) && j < n
    ensures DataPlaced(g, s, codewords, maskIndex, n)[s[j].0][s[j].1] == ModuleValue(codewords, maskIndex, j, s[j])
  {
    if j < n - 1 {
      DataPlacedHit(g, s, codewords, maskIndex, n - 1, j);
    }
  }

  /** The data loop of `from` (lib/BitMatrix.js:47-58). */
  method PlaceData(matrix: BitMatrix, sequence: seq<(nat, nat)>, codewords: seq<Byte>, maskIndex: nat)
    requires matrix.Valid() && InSquare(sequence, matrix.size) && maskIndex < 8
    modifies matrix.cells
    ensures matrix.Snapshot() == DataPlaced(old(matrix.Snapshot()), sequence, codewords, maskIndex, |sequence|)
  {
    ghost var start := matrix.Snapshot();
    var index := 0;
    while index < |sequence|
      invariant index <= |sequence|
      invariant matrix.Snapshot() == DataPlaced(start, sequence, codewords, maskIndex, index)
    {
      PlaceModule(matrix, sequence, codewords, maskIndex, index);
      index := index + 1;
    }
  }

  /** One turn of the data loop: the bit of module `index`, XORed with the mask. */
  method PlaceModule(matrix: BitMatrix, sequence: seq<(nat, nat)>, codewords: seq<Byte>, maskIndex: nat, index: nat)
    requires matrix.Valid() && InSquare(sequence, matrix.size) && maskIndex < 8 && index < |sequence|
    modifies matrix.cells
    ensures matrix.Snapshot() == Put(old(matrix.Snapshot()), sequence[index].0, sequence[index].1,
                                     ModuleValue(codewords, maskIndex, index, sequence[index]))
  {
    var (row, column) := sequence[index];
    var codeword := if index / 8 < |codewords| then codewords[index / 8] else 0;
    var bitShift := 7 - index % 8;
    var moduleBit := Bit(codeword, bitShift);
    if index / 8 >= |codewords| {
      BitOfZero(bitShift);
    }
    var maskBit := if Mask(maskIndex, row, column) then 1 else 0;
    matrix.SetBit(row, column, (moduleBit + maskBit) % 2);
  }

  // ---------------------------------------------------------------------
  // Format modules

  /** The format word as module values. */
  function FormatCells(errorLevel: char, maskIndex: nat): (w: seq<Cell>)
    requires errorLevel in EdcOrder && maskIndex < 8
    ensures |w| == 15 && w == FormatModules(errorLevel, maskIndex)
  {
    var m := FormatModules(errorLevel, maskIndex);
    seq(15, i requires 0 <= i < 15 => m[i])
  }

  /** Row 8 and the module above it (lib/BitMatrix.js:303-306). */
  function FormatRow(g: Grid, w: seq<Cell>): (h: Grid)
    requires IsSquare(g) && |g| >= 21 && |w| == 15
    ensures IsSquare(h) && |h| == |g|
  {
    Put(FillRow(FillRow(FillRow(g, 8, w[..6], 0), 8, w[6..8], 7), 8, w[7..], |g| - 8), 7, 8, w[8])
  }

  /** The first `n` of modules 0-6 down column 8 from the bottom (lib/BitMatrix.js:307-309). */
  function LowerColumn(g: Grid, w: seq<Cell>, n: nat): (h: Grid)
    requires IsSquare(g) && |g| >= 21 && |w| == 15 && n <= 7
    ensures IsSquare(h) && |h| == |g|
  {
    if n == 0 then g else Put(LowerColumn(g, w, n - 1), |g| - (n - 1) - 1, 8, w[n - 1])
  }

  /** The first `n` of modules 9-14 up column 8 from row 5 (lib/BitMatrix.js:310-312). */
  function UpperColumn(g: Grid, w: seq<Cell>, n: nat): (h: Grid)
    requires IsSquare(g) && |g| >= 21 && |w| == 15 && n <= 6
    ensures IsSquare(h) && |h| == |g|
  {
    if n == 0 then g else Put(UpperColumn(g, w, n - 1), 5 - (n - 1), 8, w[9 + n - 1])
  }

  function FormatPlaced(g: Grid, w: seq<Cell>): (h: Grid)
    requires IsSquare(g) && |g| >= 21 && |w| == 15
    ensures IsSquare(h) && |h| == |g|
  {
    UpperColumn(LowerColumn(FormatRow(g, w), w, 7), w, 6)
  }

  /**
   * Where format module `i` goes, twice: (8, 0-5), (8, 7), (8, 8), (7, 8),
   * (5-0, 8) for the first copy; column 8 from the bottom and row 8 from
   * column `size - 8` for the second.
   */
  function FormatIndex(size: nat, r: nat, c: nat): (i: int)
    ensures -1 <= i < 15
  {
    if r == 8 && c < 6 then c
    else if r == 8 && c == 7 then 6
    else if r == 8 && c == 8 then 7
    else if r == 8 && size >= 21 && size - 8 <= c < size then 7 + c - (size - 8)
    else if r == 7 && c == 8 then 8
    else if c == 8 && size >= 21 && size - 7 <= r < size then size - 1 - r
    else if c == 8 && r <= 5 then 9 + 5 - r
    else -1
  }

  lemma FormatRowAt(g: Grid, w: seq<Cell>, r: nat, c: nat)
    requires IsSquare(g) && |g| >= 21 && |w| == 15 && r < |g| && c < |g|
    ensures FormatRow(g, w)[r][c] ==
      if r == 8 && c < 6 then w[c]
      else if r == 8 && c == 7 then w[6]
      else if r == 8 && c == 8 then w[7]
      else if r == 8 && |g| - 8 <= c then w[7 + c - (|g| - 8)]
      else if r == 7 && c == 8 then w[8]
      else g[r][c]
  {
  }

  lemma {:induction false} LowerColumnAt(g: Grid, w: seq<Cell>, n: nat, r: nat, c: nat)
    requires IsSquare(g) && |g| >= 21 && |w| == 15 && n <= 7 && r < |g| && c < |g|
    ensures LowerColumn(g, w, n)[r][c] == if c == 8 && |g| - n <= r then w[|g| - 1 - r] else g[r][c]
  {
    if n > 0 {
      LowerColumnAt(g, w, n - 1, r, c);
    }
  }

  lemma {:induction false} UpperColumnAt(g: Grid, w: seq<Cell>, n: nat, r: nat, c: nat)
    requires IsSquare(g) && |g| >= 21 && |w| == 15 && n <= 6 && r < |g| && c < |g|
    ensures UpperColumn(g, w, n)[r][c] == if c == 8 && 6 - n <= r <= 5 then w[9 + 5 - r] else g[r][c]
  {
    if n > 0 {
      UpperColumnAt(g, w, n - 1, r, c);
    }
  }

  /** Format placement writes module `FormatIndex` where there is one and nothing else. */
  lemma FormatPlacedAt(g: Grid, w: seq<Cell>, r: nat, c: nat)
    requires IsSquare(g) && |g| >= 21 && |w| == 15 && r < |g| && c < |g|
    ensures FormatPlaced(g, w)[r][c] == if FormatIndex(|g|, r, c) >= 0 then w[FormatIndex(|g|, r, c)] else g[r][c]
  {
    var row := FormatRow(g, w);
    FormatRowAt(g, w, r, c);
    var lower := LowerColumn(row, w, 7);
    LowerColumnAt(row, w, 7, r, c);
    UpperColumnAt(lower, w, 6, r, c);
  }

  /** `placeFormatModules` (lib/BitMatrix.js:301-313); `matrix.length` is the size. */
  method PlaceFormatModules(matrix: BitMatrix, errorLevel: char, maskIndex: nat)
    requires matrix.Valid() && matrix.size >= 21 && errorLevel in EdcOrder && maskIndex < 8
    modifies matrix.cells
    ensures matrix.Snapshot() == FormatPlaced(old(matrix.Snapshot()), FormatCells(errorLevel, maskIndex))
  {
    var formatModules := FormatCells(errorLevel, maskIndex);
    PlaceFormatRow(matrix, formatModules);
    PlaceLowerColumn(matrix, formatModules);
    PlaceUpperColumn(matrix, formatModules);
  }

  /** Lines 307-309: modules 0-6 up column 8 from the bottom row. */
  method PlaceLowerColumn(matrix: BitMatrix, formatModules: seq<Cell>)
    requires matrix.Valid() && matrix.size >= 21 && |formatModules| == 15
    modifies matrix.cells
    ensures matrix.Snapshot() == LowerColumn(old(matrix.Snapshot()), formatModules, 7)
  {
    var size := matrix.size;
    ghost var row := matrix.Snapshot();
    var index := 0;
    while index < 7
      invariant index <= 7
      invariant matrix.Snapshot() == LowerColumn(row, formatModules, index)
    {
      matrix.SetBit(size - index - 1, 8, formatModules[index]);
      index := index + 1;
    }
  }

  /** Lines 310-312: modules 9-14 up column 8 from row 5. */
  method PlaceUpperColumn(matrix: BitMatrix, formatModules: seq<Cell>)
    requires matrix.Valid() && matrix.size >= 21 && |formatModules| == 15
    modifies matrix.cells
    ensures matrix.Snapshot() == UpperColumn(old(matrix.Snapshot()), formatModules, 6)
  {
    ghost var lower := matrix.Snapshot();
    var index := 0;
    while index < 6
      invariant index <= 6
      invariant matrix.Snapshot() == UpperColumn(lower, formatModules, index)
    {
      matrix.SetBit(5 - index, 8, formatModules[9 + index]);
      index := index + 1;
    }
  }

  method PlaceFormatRow(matrix: BitMatrix, formatModules: seq<Cell>)
    requires matrix.Valid() && matrix.size >= 21 && |formatModules| == 15
    modifies matrix.cells
    ensures matrix.Snapshot() == FormatRow(old(matrix.Snapshot()), formatModules)
  {
    matrix.Fill(8, formatModules[..6], 0);
    matrix.Fill(8, formatModules[6..8], 7);
    matrix.Fill(8, formatModules[7..], matrix.size - 8);
    matrix.SetBit(7, 8, formatModules[8]);
  }

  /** The first copy of the format word, read in module order. */
  function FirstCopy(g: Grid): (w: seq<nat>)
    requires IsSquare(g) && |g| >= 21
    ensures |w| == 15
  {
    seq(15, i requires 0 <= i < 15 =>
      if i < 6 then g[8][i] else if i == 6 then g[8][7] else if i == 7 then g[8][8] else if i == 8 then g[7][8] else g[5 - (i - 9)][8])
  }

  /** The second copy: column 8 upwards from the bottom, then row 8 from column `size - 8`. */
  function SecondCopy(g: Grid): (w: seq<nat>)
    requires IsSquare(g) && |g| >= 21
    ensures |w| == 15
  {
    seq(15, i requires 0 <= i < 15 => if i < 7 then g[|g| - 1 - i][8] else g[8][|g| - 8 + i - 7])
  }

  /** Every module of both copies is the one `FormatIndex` assigns to it. */
  lemma CopiesAreFormatModules(size: nat, i: nat)
    requires size >= 21 && i < 15
    ensures i < 6 ==> FormatIndex(size, 8, i) == i
    ensures i == 6 ==> FormatIndex(size, 8, 7) == 6
    ensures i == 7 ==> FormatIndex(size, 8, 8) == 7
    ensures i == 8 ==> FormatIndex(size, 7, 8) == 8
    ensures i >= 9 ==> FormatIndex(size, 5 - (i - 9), 8) == i
    ensures i < 7 ==> FormatIndex(size, size - 1 - i, 8) == i
    ensures i >= 7 ==> FormatIndex(size, 8, size - 8 + i - 7) == i
  {
  }

  lemma FirstCopyPlaced(g: Grid, w: seq<Cell>)
    requires IsSquare(g) && |g| >= 21 && |w| == 15
    ensures FirstCopy(FormatPlaced(g, w)) == w
  {
    var h := FormatPlaced(g, w);
    forall i | 0 <= i < 15
      ensures FirstCopy(h)[i] == w[i]
    {
      CopiesAreFormatModules(|g|, i);
      if i < 6 {
        FormatPlacedAt(g, w, 8, i);
      } else if i == 6 {
        FormatPlacedAt(g, w, 8, 7);
      } else if i == 7 {
        FormatPlacedAt(g, w, 8, 8);
      } else if i == 8 {
        FormatPlacedAt(g, w, 7, 8);
      } else {
        FormatPlacedAt(g, w, 5 - (i - 9), 8);
      }
    }
  }

  lemma SecondCopyPlaced(g: Grid, w: seq<Cell>)
    requires IsSquare(g) && |g| >= 21 && |w| == 15
    ensures SecondCopy(FormatPlaced(g, w)) == w
  {
    var h := FormatPlaced(g, w);
    forall i | 0 <= i < 15
      ensures SecondCopy(h)[i] == w[i]
    {
      CopiesAreFormatModules(|g|, i);
      if i < 7 {
        FormatPlacedAt(g, w, |g| - 1 - i, 8);
      } else {
        FormatPlacedAt(g, w, 8, |g| - 8 + i - 7);
      }
    }
  }

  /** After placement both copies hold the format word, so either decodes to the level and mask. */
  lemma FormatPlacedCopies(g: Grid, errorLevel: char, maskIndex: nat)
    requires IsSquare(g) && |g| >= 21 && errorLevel in EdcOrder && maskIndex < 8
    ensures var h := FormatPlaced(g, FormatCells(errorLevel, maskIndex));
            FirstCopy(h) == FormatModules(errorLevel, maskIndex) && SecondCopy(h) == FormatModules(errorLevel, maskIndex) &&
            DecodeFormat(FirstCopy(h)) == (errorLevel, maskIndex) && DecodeFormat(SecondCopy(h)) == (errorLevel, maskIndex)
  {
    var w := FormatCells(errorLevel, maskIndex);
    FirstCopyPlaced(g, w);
    SecondCopyPlaced(g, w);
    FormatRoundTrip(errorLevel, maskIndex);
  }
}
