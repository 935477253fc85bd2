/**
 * `placeVersionModules` (lib/BitMatrix.js:279-291): from version 7 on,
 * the 18-bit version information is written twice, as a 6 x 3 block left
 * of the upper right finder pattern's separator and as a 3 x 6 block above
 * the lower left one. Bit `i` goes to row `5 - i / 3`, column
 * `size - 9 - i % 3` in the first block and to row `size - 11 + i % 3`,
 * column `i / 3` in the second.
 */
module VersionModules {
  import opened Patterns
  import opened Penalty
  import opened Matrix
  import opened Areas
  import Bits
  import Bitstream

  /** The version information word is made of 0s and 1s, whatever the version. */
  lemma VersionBinary(version: nat)
    ensures Binary(VersionInformation(version))
  {
    var data := Bitstream.FieldBits(version, 6);
    assert Binary(data) by {
      forall j | 0 <= j < 6
        ensures data[j] < 2
      {
        assert data[j] == Bits.Bit(version, 5 - j);
      }
    }
    assert Binary(data + Zeros(12));
    assert Binary(VersionDivisor);
    RestBinary(data + Zeros(12), VersionDivisor);
  }

  /** The version information word as module values. */
  function VersionCells(version: nat): (w: seq<Cell>)
    ensures |w| == 18 && w == VersionInformation(version)
  {
    var word := VersionInformation(version);
    VersionBinary(version);
    seq(18, i requires 0 <= i < 18 => word[i])
  }

  /** The version the side of the grid stands for: `(size - 17) >> 2`, rounded down as an arithmetic shift does. */
  function SideVersion(size: nat): int {
    (size - 17) / 4
  }

  /** One turn of the `forEach`: bit `index` in both blocks. */
  function VersionStep(g: Grid, w: seq<Cell>, index: nat): (h: Grid)
    requires IsSquare(g) && |g| >= 17 && |w| == 18 && index < 18
    ensures IsSquare(h) && |h| == |g|
  {
    var size := |g|;
    var row := index / 3;
    var column := index % 3;
    Put(Put(g, 5 - row, size - 9 - column, w[index]), size - 11 + column, row, w[index])
  }

  /** The first `n` turns. */
  function VersionLoop(g: Grid, w: seq<Cell>, n: nat): (h: Grid)
    requires IsSquare(g) && |g| >= 17 && |w| == 18 && n <= 18
    ensures IsSquare(h) && |h| == |g|
  {
    if n == 0 then g else VersionStep(VersionLoop(g, w, n - 1), w, n - 1)
  }

  /** The whole of `placeVersionModules`. */
  function VersionPlaced(g: Grid): (h: Grid)
    requires IsSquare(g)
    ensures IsSquare(h) && |h| == |g|
  {
    var version := SideVersion(|g|);
    if version < 7 then g else VersionLoop(g, VersionCells(version), 18)
  }

  /** The bit of the word held by (r, c) in the block left of the upper right finder pattern, or -1. */
  function UpperIndex(size: nat, r: nat, c: nat): int {
    if r < 6 && size >= 11 && size - 11 <= c < size - 8 then 3 * (5 - r) + (size - 9 - c) else -1
  }

  /** The bit of the word held by (r, c) in the block above the lower left finder pattern, or -1. */
  function LowerIndex(size: nat, r: nat, c: nat): int {
    if size >= 11 && size - 11 <= r < size - 8 && c < 6 then 3 * c + (r - (size - 11)) else -1
  }

  /** Bit `index` lands on (r, c) in the first block exactly when `UpperIndex` names it there; likewise for the second. */
  lemma StepIndex(size: nat, index: nat, r: nat, c: nat)
    requires size >= 17 && index < 18
    ensures (r == 5 - index / 3 && c == size - 9 - index % 3) <==> UpperIndex(size, r, c) == index
    ensures (r == size - 11 + index % 3 && c == index / 3) <==> LowerIndex(size, r, c) == index
  {
    if UpperIndex(size, r, c) == index {
      Bits.DivModUnique(index, 3, 5 - r, size - 9 - c);
    }
    if LowerIndex(size, r, c) == index {
      Bits.DivModUnique(index, 3, c, r - (size - 11));
    }
  }

  lemma VersionStepAt(g: Grid, w: seq<Cell>, index: nat, r: nat, c: nat)
    requires IsSquare(g) && |g| >= 17 && |w| == 18 && index < 18 && r < |g| && c < |g|
    ensures VersionStep(g, w, index)[r][c] ==
      if UpperIndex(|g|, r, c) == index || LowerIndex(|g|, r, c) == index then w[index] else g[r][c]
  {
    StepIndex(|g|, index, r, c);
  }

  /** After `n` turns, the modules of bits `0 .. n - 1` of both blocks hold those bits and nothing else changed. */
  lemma {:induction false} VersionLoopAt(g: Grid, w: seq<Cell>, n: nat, r: nat, c: nat)
    requires IsSquare(g) && |g| >= 17 && |w| == 18 && n <= 18 && r < |g| && c < |g|
    ensures VersionLoop(g, w, n)[r][c] ==
      if 0 <= UpperIndex(|g|, r, c) < n then w[UpperIndex(|g|, r, c)]
      else if 0 <= LowerIndex(|g|, r, c) < n then w[LowerIndex(|g|, r, c)]
      else g[r][c]
  {
    if n > 0 {
      var previous := VersionLoop(g, w, n - 1);
      VersionLoopAt(g, w, n - 1, r, c);
      VersionStepAt(previous, w, n - 1, r, c);
      VersionTurn(|g|, n - 1, UpperIndex(|g|, r, c), LowerIndex(|g|, r, c), w, g[r][c], previous[r][c], VersionLoop(g, w, n)[r][c]);
    }
  }

  /** One more turn of the loop, on the value of a single module. */
  lemma VersionTurn(size: nat, k: nat, upper: int, lower: int, w: seq<Cell>, initial: Cell, before: Cell, after: Cell)
    requires |w| == 18 && k < 18 && (upper < 0 || lower < 0)
    requires before == if 0 <= upper < k then w[upper] else if 0 <= lower < k then w[lower] else initial
    requires after == if upper == k || lower == k then w[k] else before
    ensures after == if 0 <= upper < k + 1 then w[upper] else if 0 <= lower < k + 1 then w[lower] else initial
  {
  }

  /** The blocks are disjoint: no module is in both. */
  lemma BlocksDisjoint(size: nat, r: nat, c: nat)
    requires size >= 17
    ensures UpperIndex(size, r, c) < 0 || LowerIndex(size, r, c) < 0
  {
  }

  /** The first block read back, bit 0 first. */
  function UpperBlock(g: Grid): (w: seq<nat>)
    requires IsSquare(g) && |g| >= 17
    ensures |w| == 18
  {
    seq(18, i requires 0 <= i < 18 => g[5 - i / 3][|g| - 9 - i % 3])
  }

  /** The second block read back, bit 0 first. */
  function LowerBlock(g: Grid): (w: seq<nat>)
    requires IsSquare(g) && |g| >= 17
    ensures |w| == 18
  {
    seq(18, i requires 0 <= i < 18 => g[|g| - 11 + i % 3][i / 3])
  }

  /**
   * From version 7 on, both blocks read back the version information word,
   * whose first six bits spell the version and which the version generator
   * divides; every other module is left as it was.
   */
  lemma VersionPlacedAt(g: Grid, r: nat, c: nat)
    requires IsSquare(g) && |g| >= 45 && r < |g| && c < |g|
    ensures var w := VersionInformation(SideVersion(|g|));
            VersionPlaced(g)[r][c] ==
              if UpperIndex(|g|, r, c) >= 0 then w[UpperIndex(|g|, r, c)]
              else if LowerIndex(|g|, r, c) >= 0 then w[LowerIndex(|g|, r, c)]
              else g[r][c]
  {
    BlocksDisjoint(|g|, r, c);
    VersionLoopAt(g, VersionCells(SideVersion(|g|)), 18, r, c);
  }

  /** Modules outside both blocks keep their value, and before version 7 every module does. */
  lemma VersionPlacedOutside(g: Grid, r: nat, c: nat)
    requires IsSquare(g) && r < |g| && c < |g|
    requires |g| < 45 || (UpperIndex(|g|, r, c) < 0 && LowerIndex(|g|, r, c) < 0)
    ensures VersionPlaced(g)[r][c] == g[r][c]
  {
    if |g| >= 45 {
      VersionPlacedAt(g, r, c);
    }
  }

  /** Two grids that agree on a module still agree there once the version information is written. */
  lemma VersionPlacedAgree(a: Grid, b: Grid, r: nat, c: nat)
    requires IsSquare(a) && IsSquare(b) && |a| == |b| && r < |a| && c < |a| && a[r][c] == b[r][c]
    ensures VersionPlaced(a)[r][c] == VersionPlaced(b)[r][c]
  {
    if |a| >= 45 {
      VersionPlacedAt(a, r, c);
      VersionPlacedAt(b, r, c);
    }
  }

  lemma VersionBlocksRead(g: Grid)
    requires IsSquare(g) && |g| >= 45
    ensures UpperBlock(VersionPlaced(g)) == VersionInformation(SideVersion(|g|))
    ensures LowerBlock(VersionPlaced(g)) == VersionInformation(SideVersion(|g|))
  {
    UpperBlockRead(g);
    LowerBlockRead(g);
  }

  lemma UpperBlockRead(g: Grid)
    requires IsSquare(g) && |g| >= 45
    ensures UpperBlock(VersionPlaced(g)) == VersionInformation(SideVersion(|g|))
  {
    var h := VersionPlaced(g);
    var w := VersionInformation(SideVersion(|g|));
    forall i | 0 <= i < 18
      ensures UpperBlock(h)[i] == w[i]
    {
      UpperBitRead(g, i);
    }
  }

  lemma LowerBlockRead(g: Grid)
    requires IsSquare(g) && |g| >= 45
    ensures LowerBlock(VersionPlaced(g)) == VersionInformation(SideVersion(|g|))
  {
    var h := VersionPlaced(g);
    var w := VersionInformation(SideVersion(|g|));
    forall i | 0 <= i < 18
      ensures LowerBlock(h)[i] == w[i]
    {
      LowerBitRead(g, i);
    }
  }

  lemma UpperBitRead(g: Grid, i: nat)
    requires IsSquare(g) && |g| >= 45 && i < 18
    ensures VersionPlaced(g)[5 - i / 3][|g| - 9 - i % 3] == VersionInformation(SideVersion(|g|))[i]
  {
    StepIndex(|g|, i, 5 - i / 3, |g| - 9 - i % 3);
    VersionPlacedAt(g, 5 - i / 3, |g| - 9 - i % 3);
  }

  lemma LowerBitRead(g: Grid, i: nat)
    requires IsSquare(g) && |g| >= 45 && i < 18
    ensures VersionPlaced(g)[|g| - 11 + i % 3][i / 3] == VersionInformation(SideVersion(|g|))[i]
  {
    StepIndex(|g|, i, |g| - 11 + i % 3, i / 3);
    VersionPlacedAt(g, |g| - 11 + i % 3, i / 3);
  }

  /** Before version 7 nothing is written. */
  lemma VersionPlacedSmall(g: Grid)
    requires IsSquare(g) && |g| < 45
    ensures VersionPlaced(g) == g
  {
  }

  /** For a symbol of version 7 to 40, each block decodes to the symbol's version. */
  lemma VersionBlocksDecode(g: Grid, version: nat)
    requires 7 <= version <= 40 && IsSquare(g) && |g| == Size(version)
    ensures var w := UpperBlock(VersionPlaced(g));
            32 * w[0] + 16 * w[1] + 8 * w[2] + 4 * w[3] + 2 * w[4] + w[5] == version && PolyRest(w, VersionDivisor) == Zeros(12)
    ensures var w := LowerBlock(VersionPlaced(g));
            32 * w[0] + 16 * w[1] + 8 * w[2] + 4 * w[3] + 2 * w[4] + w[5] == version && PolyRest(w, VersionDivisor) == Zeros(12)
  {
    assert SideVersion(|g|) == version;
    VersionBlocksRead(g);
    VersionInformationMeaning(version);
  }

  /** One turn of the `forEach`. */
  method PlaceVersionStep(matrix: BitMatrix, w: seq<Cell>, index: nat)
    requires matrix.Valid() && matrix.size >= 17 && |w| == 18 && index < 18
    modifies matrix.cells
    ensures matrix.Snapshot() == VersionStep(old(matrix.Snapshot()), w, index)
  {
    var size := matrix.size;
    var row := index / 3;
    var column := index % 3;
    matrix.SetBit(5 - row, size - 9 - column, w[index]);
    matrix.SetBit(size - 11 + column, row, w[index]);
  }

  /** The `forEach` over the 18 bits of the word. */
  method PlaceVersionLoop(matrix: BitMatrix, w: seq<Cell>)
    requires matrix.Valid() && matrix.size >= 17 && |w| == 18
    modifies matrix.cells
    ensures matrix.Snapshot() == VersionLoop(old(matrix.Snapshot()), w, 18)
  {
    ghost var start := matrix.Snapshot();
    var index := 0;
    while index < 18
      invariant index <= 18
      invariant matrix.Snapshot() == VersionLoop(start, w, index)
    {
      PlaceVersionStep(matrix, w, index);
      index := index + 1;
    }
  }

  method PlaceVersionModules(matrix: BitMatrix)
    requires matrix.Valid()
    modifies matrix.cells
    ensures matrix.Snapshot() == VersionPlaced(old(matrix.Snapshot()))
  {
    ghost var g := matrix.Snapshot();
    var size: int := matrix.size;
    var version: int := (size - 17) / 4;
    assert |g| == size && version == SideVersion(|g|);
    if version < 7 {
      VersionPlacedSmall(g);
      return;
    }
    PlaceVersionLoop(matrix, VersionCells(version));
  }
}
