/**
 * `placeFixedPatterns` (lib/BitMatrix.js:317-366) and `placeVersionModules`
 * (lib/BitMatrix.js:279-291): the function patterns drawn over the data
 * and format modules, then the version information blocks.
 *
 * Two steps of `placeFixedPatterns` are modelled twice. As written, the
 * code draws a light 3 x 3 square with a dark centre at rows and columns
 * `size - 8` to `size - 6`, and closes the timing patterns by darkening
 * (6, size - 7) and (size - 7, 6). `FixedPlacedAsWritten` keeps both;
 * `FixedPlaced`, which the encoder model uses, leaves the square out and
 * darkens (6, size - 9) and (size - 9, 6) instead.
 */
module Fixed {
  import opened Patterns
  import opened Penalty
  import opened Matrix
  import opened Areas
  import opened Walk
  import Placement

  // ---------------------------------------------------------------------
  // Finder patterns (lib/BitMatrix.js:320-328)

  /** The position detection pattern: a dark 7 x 7 ring, a light ring inside it, a dark 3 x 3 core. */
  function FinderModule(i: nat, j: nat): Cell {
    if 1 <= i <= 5 && 1 <= j <= 5 && !(2 <= i <= 4 && 2 <= j <= 4) then 0 else 1
  }

  function Finder(g: Grid, row: nat, column: nat): (h: Grid)
    requires IsSquare(g) && row + 7 <= |g| && column + 7 <= |g|
    ensures IsSquare(h) && |h| == |g|
  {
    Paint(Paint(Paint(g, row, column, 7, 7, 1), row + 1, column + 1, 5, 5, 0), row + 2, column + 2, 3, 3, 1)
  }

  /** One finder pattern covers its 7 x 7 square with the position detection pattern and nothing else. */
  lemma FinderAt(g: Grid, row: nat, column: nat, r: nat, c: nat)
    requires IsSquare(g) && row + 7 <= |g| && column + 7 <= |g| && r < |g| && c < |g|
    ensures Finder(g, row, column)[r][c] ==
      if row <= r < row + 7 && column <= c < column + 7 then FinderModule(r - row, c - column) else g[r][c]
  {
  }

  function Finders(g: Grid): (h: Grid)
    requires IsSquare(g) && |g| >= 7
    ensures IsSquare(h) && |h| == |g|
  {
    Finder(Finder(Finder(g, 0, 0), |g| - 7, 0), 0, |g| - 7)
  }

  /** The corner of the finder pattern that holds (r, c), if any, as its top left module. */
  predicate InFinder(size: nat, r: nat, c: nat) {
    (r < 7 && c < 7) || (size >= 7 && size - 7 <= r && c < 7) || (size >= 7 && r < 7 && size - 7 <= c)
  }

  lemma FindersAt(g: Grid, r: nat, c: nat)
    requires IsSquare(g) && |g| >= 14 && r < |g| && c < |g|
    ensures Finders(g)[r][c] ==
      if r < 7 && c < 7 then FinderModule(r, c)
      else if |g| - 7 <= r && c < 7 then FinderModule(r - (|g| - 7), c)
      else if r < 7 && |g| - 7 <= c then FinderModule(r, c - (|g| - 7))
      else g[r][c]
  {
    var size := |g|;
    var first := Finder(g, 0, 0);
    FinderAt(g, 0, 0, r, c);
    var second := Finder(first, size - 7, 0);
    FinderAt(first, size - 7, 0, r, c);
    FinderAt(second, 0, size - 7, r, c);
  }

  method PlaceFinder(matrix: BitMatrix, row: nat, column: nat)
    requires matrix.Valid() && row + 7 <= matrix.size && column + 7 <= matrix.size
    modifies matrix.cells
    ensures matrix.Snapshot() == Finder(old(matrix.Snapshot()), row, column)
  {
    FillBitArea(matrix, row, column, 7, 7, 1);
    PlaceFinderInside(matrix, row + 1, column + 1);
  }

  /** The light 5 x 5 ring and the dark 3 x 3 core inside a finder pattern. */
  method PlaceFinderInside(matrix: BitMatrix, row: nat, column: nat)
    requires matrix.Valid() && row + 5 <= matrix.size && column + 5 <= matrix.size
    modifies matrix.cells
    ensures matrix.Snapshot() == Paint(Paint(old(matrix.Snapshot()), row, column, 5, 5, 0), row + 1, column + 1, 3, 3, 1)
  {
    FillBitArea(matrix, row, column, 5, 5, 0);
    FillBitArea(matrix, row + 1, column + 1, 3, 3, 1);
  }

  /** The `forEach` over the three corners. */
  method PlaceFinders(matrix: BitMatrix)
    requires matrix.Valid() && matrix.size >= 7
    modifies matrix.cells
    ensures matrix.Snapshot() == Finders(old(matrix.Snapshot()))
  {
    PlaceFinder(matrix, 0, 0);
    PlaceLowerFinders(matrix);
  }

  /** The bottom left and top right finder patterns. */
  method PlaceLowerFinders(matrix: BitMatrix)
    requires matrix.Valid() && matrix.size >= 7
    modifies matrix.cells
    ensures matrix.Snapshot() == Finder(Finder(old(matrix.Snapshot()), matrix.size - 7, 0), 0, matrix.size - 7)
  {
    var size := matrix.size;
    PlaceFinder(matrix, size - 7, 0);
    PlaceFinder(matrix, 0, size - 7);
  }

  // ---------------------------------------------------------------------
  // Separators (lib/BitMatrix.js:330-335)

  /** The light strips beside one finder pattern: 8 modules along row `row`, 7 along column `column`. */
  function SeparatorPair(g: Grid, row: nat, rowStart: nat, column: nat, columnStart: nat): (h: Grid)
    requires IsSquare(g) && row < |g| && rowStart + 8 <= |g| && column < |g| && columnStart + 7 <= |g|
    ensures IsSquare(h) && |h| == |g|
  {
    Paint(Paint(g, row, rowStart, 8, 1, 0), columnStart, column, 1, 7, 0)
  }

  function Separators(g: Grid): (h: Grid)
    requires IsSquare(g) && |g| >= 8
    ensures IsSquare(h) && |h| == |g|
  {
    var size := |g|;
    SeparatorPair(SeparatorPair(SeparatorPair(g, 7, 0, 7, 0), size - 8, 0, size - 8, 0), 7, size - 8, 7, size - 7)
  }

  /** The light strips that separate each finder pattern from the rest of the symbol. */
  predicate SeparatorModule(size: nat, r: nat, c: nat) {
    (r == 7 && c < 8) || (c == 7 && r < 7) ||
    (size >= 8 && r == size - 8 && c < 8) || (size >= 8 && c == size - 8 && r < 7) ||
    (r == 7 && size >= 8 && size - 8 <= c) || (c == 7 && size >= 7 && size - 7 <= r)
  }

  lemma SeparatorsAt(g: Grid, r: nat, c: nat)
    requires IsSquare(g) && |g| >= 8 && r < |g| && c < |g|
    ensures Separators(g)[r][c] == if SeparatorModule(|g|, r, c) then 0 else g[r][c]
  {
  }

  method PlaceSeparatorPair(matrix: BitMatrix, row: nat, rowStart: nat, column: nat, columnStart: nat)
    requires matrix.Valid() && row < matrix.size && rowStart + 8 <= matrix.size
    requires column < matrix.size && columnStart + 7 <= matrix.size
    modifies matrix.cells
    ensures matrix.Snapshot() == SeparatorPair(old(matrix.Snapshot()), row, rowStart, column, columnStart)
  {
    FillBitArea(matrix, row, rowStart, 8, 1, 0);
    FillBitArea(matrix, columnStart, column, 1, 7, 0);
  }

  method PlaceSeparators(matrix: BitMatrix)
    requires matrix.Valid() && matrix.size >= 8
    modifies matrix.cells
    ensures matrix.Snapshot() == Separators(old(matrix.Snapshot()))
  {
    var size := matrix.size;
    PlaceSeparatorPair(matrix, 7, 0, 7, 0);
    PlaceSeparatorPair(matrix, size - 8, 0, size - 8, 0);
    PlaceSeparatorPair(matrix, 7, size - 8, 7, size - 7);
  }

  // ---------------------------------------------------------------------
  // The square at size - 8 (lib/BitMatrix.js:353-354), as written

  function Stray(g: Grid): (h: Grid)
    requires IsSquare(g) && |g| >= 8
    ensures IsSquare(h) && |h| == |g|
  {
    Put(Paint(g, |g| - 8, |g| - 8, 3, 3, 0), |g| - 7, |g| - 7, 1)
  }

  lemma StrayAt(g: Grid, r: nat, c: nat)
    requires IsSquare(g) && |g| >= 8 && r < |g| && c < |g|
    ensures Stray(g)[r][c] ==
      if r == |g| - 7 && c == |g| - 7 then 1
      else if |g| - 8 <= r <= |g| - 6 && |g| - 8 <= c <= |g| - 6 then 0
      else g[r][c]
  {
  }

  method PlaceStray(matrix: BitMatrix)
    requires matrix.Valid() && matrix.size >= 8
    modifies matrix.cells
    ensures matrix.Snapshot() == Stray(old(matrix.Snapshot()))
  {
    var size := matrix.size;
    FillBitArea(matrix, size - 8, size - 8, 3, 3, 0);
    matrix.SetBit(size - 7, size - 7, 1);
  }

  // ---------------------------------------------------------------------
  // Timing patterns (lib/BitMatrix.js:356-363) and the dark module (365)

  /** One turn of the timing loop at `pos`: dark, light along row 6 and along column 6. */
  function TimingStep(g: Grid, pos: nat): (h: Grid)
    requires IsSquare(g) && 7 <= pos + 1 < |g|
    ensures IsSquare(h) && |h| == |g|
  {
    Put(Put(Put(Put(g, 6, pos, 1), 6, pos + 1, 0), pos, 6, 1), pos + 1, 6, 0)
  }

  /** The first `n` turns, at `pos` = 8, 10, ... */
  function TimingLoop(g: Grid, n: nat): (h: Grid)
    requires IsSquare(g) && 8 + 2 * n <= |g|
    ensures IsSquare(h) && |h| == |g|
  {
    if n == 0 then g else TimingStep(TimingLoop(g, n - 1), 8 + 2 * (n - 1))
  }

  /** The turns run while `pos < size - 9`: `(size - 16) / 2` of them. */
  function Timing(g: Grid): (h: Grid)
    requires IsSquare(g) && |g| >= 17
    ensures IsSquare(h) && |h| == |g|
  {
    TimingLoop(g, (|g| - 16) / 2)
  }

  /** `n` turns fit in the square grid `g` and (r, c) is one of its cells. */
  predicate TimingFits(g: Grid, n: nat, r: nat, c: nat) {
    IsSquare(g) && 8 + 2 * n <= |g| && r < |g| && c < |g|
  }

  /** The timing patterns alternate, dark on even indices. */
  function TimingBit(index: nat): Cell {
    if index % 2 == 0 then 1 else 0
  }

  /** After `n` turns, modules 8 to `7 + 2n` of row 6 and of column 6 alternate. */
  lemma {:induction false} TimingLoopAt(g: Grid, n: nat, r: nat, c: nat)
    requires TimingFits(g, n, r, c)
    ensures TimingLoop(g, n)[r][c] ==
      if r == 6 && 8 <= c < 8 + 2 * n then TimingBit(c)
      else if c == 6 && 8 <= r < 8 + 2 * n then TimingBit(r)
      else g[r][c]
  {
    if n > 0 {
      var pos := 8 + 2 * (n - 1);
      var previous := TimingLoop(g, n - 1);
      TimingLoopAt(g, n - 1, r, c);
      TimingStepAt(previous, pos, r, c);
      TimingTurn(n - 1, r, c, g[r][c], previous[r][c], TimingLoop(g, n)[r][c]);
    }
  }

  /** One more turn of the timing loop, on the value of a single module. */
  lemma TimingTurn(k: nat, r: nat, c: nat, initial: Cell, before: Cell, after: Cell)
    requires before ==
      if r == 6 && 8 <= c < 8 + 2 * k then TimingBit(c)
      else if c == 6 && 8 <= r < 8 + 2 * k then TimingBit(r)
      else initial
    requires after ==
      if r == 6 && c == 9 + 2 * k then 0 else if r == 6 && c == 8 + 2 * k then 1
      else if c == 6 && r == 9 + 2 * k then 0 else if c == 6 && r == 8 + 2 * k then 1
      else before
    ensures after ==
      if r == 6 && 8 <= c < 10 + 2 * k then TimingBit(c)
      else if c == 6 && 8 <= r < 10 + 2 * k then TimingBit(r)
      else initial
  {
    Parity(k);
  }

  lemma TimingStepAt(g: Grid, pos: nat, r: nat, c: nat)
    requires IsSquare(g) && 7 <= pos + 1 < |g| && r < |g| && c < |g|
    ensures TimingStep(g, pos)[r][c] ==
      if r == 6 && c == pos + 1 then 0 else if r == 6 && c == pos then 1
      else if c == 6 && r == pos + 1 then 0 else if c == 6 && r == pos then 1
      else g[r][c]
  {
  }

  method PlaceTimingStep(matrix: BitMatrix, pos: nat)
    requires matrix.Valid() && 7 <= pos + 1 < matrix.size
    modifies matrix.cells
    ensures matrix.Snapshot() == TimingStep(old(matrix.Snapshot()), pos)
  {
    matrix.SetBit(6, pos, 1);
    matrix.SetBit(6, pos + 1, 0);
    matrix.SetBit(pos, 6, 1);
    matrix.SetBit(pos + 1, 6, 0);
  }

  method PlaceTiming(matrix: BitMatrix)
    requires matrix.Valid() && matrix.size >= 17
    modifies matrix.cells
    ensures matrix.Snapshot() == Timing(old(matrix.Snapshot()))
  {
    var size := matrix.size;
    ghost var start := matrix.Snapshot();
    ghost var n := 0;
    var pos := 8;
    while pos < size - 9
      invariant pos == 8 + 2 * n && pos <= size - 8
      invariant matrix.Snapshot() == TimingLoop(start, n)
    {
      PlaceTimingStep(matrix, pos);
      TimingLoopNext(start, n);
      pos := pos + 2;
      n := n + 1;
    }
    TimingTurns(size, n);
  }

  lemma Parity(k: nat)
    ensures TimingBit(8 + 2 * k) == 1 && TimingBit(9 + 2 * k) == 0
  {
  }

  lemma TimingLoopNext(g: Grid, n: nat)
    requires IsSquare(g) && 8 + 2 * (n + 1) <= |g|
    ensures TimingLoop(g, n + 1) == TimingStep(TimingLoop(g, n), 8 + 2 * n)
  {
  }

  /** The loop stops after `(size - 16) / 2` turns. */
  lemma TimingTurns(size: nat, n: nat)
    requires 8 + 2 * n >= size - 9 && 8 + 2 * n <= size - 8
    ensures n == (size - 16) / 2
  {
  }

  /** The closing modules as written: (6, size - 7) and (size - 7, 6), both inside finder patterns. */
  function TimingEndsAsWritten(g: Grid): (h: Grid)
    requires IsSquare(g) && |g| >= 8
    ensures IsSquare(h) && |h| == |g|
  {
    Put(Put(g, 6, |g| - 7, 1), |g| - 7, 6, 1)
  }

  /** The closing modules the loop leaves out: (6, size - 9) and (size - 9, 6). */
  function TimingEnds(g: Grid): (h: Grid)
    requires IsSquare(g) && |g| >= 10
    ensures IsSquare(h) && |h| == |g|
  {
    Put(Put(g, 6, |g| - 9, 1), |g| - 9, 6, 1)
  }

  method PlaceTimingEndsAsWritten(matrix: BitMatrix)
    requires matrix.Valid() && matrix.size >= 8
    modifies matrix.cells
    ensures matrix.Snapshot() == TimingEndsAsWritten(old(matrix.Snapshot()))
  {
    var size := matrix.size;
    matrix.SetBit(6, size - 7, 1);
    matrix.SetBit(size - 7, 6, 1);
  }

  method PlaceTimingEnds(matrix: BitMatrix)
    requires matrix.Valid() && matrix.size >= 10
    modifies matrix.cells
    ensures matrix.Snapshot() == TimingEnds(old(matrix.Snapshot()))
  {
    var size := matrix.size;
    matrix.SetBit(6, size - 9, 1);
    matrix.SetBit(size - 9, 6, 1);
  }

  function DarkModule(g: Grid): (h: Grid)
    requires IsSquare(g) && |g| >= 9
    ensures IsSquare(h) && |h| == |g|
  {
    Put(g, |g| - 8, 8, 1)
  }

  // ---------------------------------------------------------------------
  // placeFixedPatterns

  /** Finder patterns, separators and alignment patterns: the part both versions share. */
  function Drawn(g: Grid, version: nat, tracks: seq<int>): (h: Grid)
    requires AlignmentLayout(version, tracks) && IsSquare(g) && |g| == Size(version)
    ensures IsSquare(h) && |h| == |g|
  {
    AlignFrom(Separators(Finders(g)), tracks, 0, true)
  }

  function FixedPlacedAsWritten(g: Grid, version: nat, tracks: seq<int>): (h: Grid)
    requires AlignmentLayout(version, tracks) && IsSquare(g) && |g| == Size(version)
    ensures IsSquare(h) && |h| == |g|
  {
    DarkModule(TimingEndsAsWritten(Timing(Stray(Drawn(g, version, tracks)))))
  }

  function FixedPlaced(g: Grid, version: nat, tracks: seq<int>): (h: Grid)
    requires AlignmentLayout(version, tracks) && IsSquare(g) && |g| == Size(version)
    ensures IsSquare(h) && |h| == |g|
  {
    DarkModule(TimingEnds(Timing(Drawn(g, version, tracks))))
  }

  method PlaceDrawn(matrix: BitMatrix, version: nat, alignmentTracks: seq<int>)
    requires matrix.Valid() && AlignmentLayout(version, alignmentTracks) && matrix.size == Size(version)
    modifies matrix.cells
    ensures matrix.Snapshot() == Drawn(old(matrix.Snapshot()), version, alignmentTracks)
  {
    PlaceFinders(matrix);
    PlaceSeparators(matrix);
    PlaceAlignments(matrix, alignmentTracks, true);
  }

  /** Lines 353-354 and 356-365 as written: the stray square, the timing patterns and their ends, the dark module. */
  method PlaceTailAsWritten(matrix: BitMatrix)
    requires matrix.Valid() && matrix.size >= 17
    modifies matrix.cells
    ensures matrix.Snapshot() == DarkModule(TimingEndsAsWritten(Timing(Stray(old(matrix.Snapshot())))))
  {
    PlaceStray(matrix);
    PlaceTiming(matrix);
    PlaceTimingEndsAsWritten(matrix);
    matrix.SetBit(matrix.size - 8, 8, 1);
  }

  /** Lines 356-365 with the timing patterns closed at `size - 9`. */
  method PlaceTail(matrix: BitMatrix)
    requires matrix.Valid() && matrix.size >= 17
    modifies matrix.cells
    ensures matrix.Snapshot() == DarkModule(TimingEnds(Timing(old(matrix.Snapshot()))))
  {
    PlaceTiming(matrix);
    PlaceTimingEnds(matrix);
    matrix.SetBit(matrix.size - 8, 8, 1);
  }

  /** `placeFixedPatterns` as written. */
  method PlaceFixedPatternsAsWritten(matrix: BitMatrix, version: nat, alignmentTracks: seq<int>)
    requires matrix.Valid() && AlignmentLayout(version, alignmentTracks) && matrix.size == Size(version)
    modifies matrix.cells
    ensures matrix.Snapshot() == FixedPlacedAsWritten(old(matrix.Snapshot()), version, alignmentTracks)
  {
    PlaceDrawn(matrix, version, alignmentTracks);
    PlaceTailAsWritten(matrix);
  }

  /** `placeFixedPatterns` without the stray square and with the timing patterns closed at `size - 9`. */
  method PlaceFixedPatterns(matrix: BitMatrix, version: nat, alignmentTracks: seq<int>)
    requires matrix.Valid() && AlignmentLayout(version, alignmentTracks) && matrix.size == Size(version)
    modifies matrix.cells
    ensures matrix.Snapshot() == FixedPlaced(old(matrix.Snapshot()), version, alignmentTracks)
  {
    PlaceDrawn(matrix, version, alignmentTracks);
    PlaceTail(matrix);
  }
}

module FixedLayout {
  import opened Patterns
  import opened Penalty
  import opened Matrix
  import opened Areas
  import opened Walk
  import opened Fixed
  import Placement

  /** The three 8 x 8 corners that hold a finder pattern and its separators. */
  predicate Corner(size: nat, r: nat, c: nat) {
    (r < 8 && c < 8) || (r < 8 && size - 8 <= c) || (size - 8 <= r && c < 8)
  }

  /** What a corner holds: the finder pattern in its 7 x 7 square, light separators around it. */
  function CornerModule(size: nat, r: nat, c: nat): Cell {
    if r < 8 && c < 8 then (if r < 7 && c < 7 then FinderModule(r, c) else 0)
    else if r < 8 && size >= 8 && size - 8 <= c then (if r < 7 && size - 7 <= c then FinderModule(r, c - (size - 7)) else 0)
    else if size >= 8 && size - 8 <= r && c < 8 then (if size - 7 <= r && c < 7 then FinderModule(r - (size - 7), c) else 0)
    else 0
  }

  /** The modules `placeFixedPatterns` writes, for the corrected drawing. */
  predicate FixedArea(version: nat, tracks: seq<int>, r: nat, c: nat)
    requires AlignmentLayout(version, tracks)
  {
    var size := Size(version);
    Corner(size, r, c) || CoveredFrom(tracks, 0, r, c) ||
    (r == 6 && 8 <= c <= size - 9) || (c == 6 && 8 <= r <= size - 9) || (r == size - 8 && c == 8)
  }

  // ---------------------------------------------------------------------
  // No alignment pattern reaches the corners

  /** The 9 x 9, 9 x 8 and 8 x 9 areas by the finder patterns, format information included. */
  predicate NearFinder(size: nat, r: nat, c: nat) {
    (r <= 8 && c <= 8) || (r <= 8 && size - 8 <= c) || (size - 8 <= r && c <= 8)
  }

  lemma {:induction false} RowMissesFinders(tracks: seq<int>, size: nat, ri: nat, ci: nat, r: nat, c: nat)
    requires ClearOfFinders(tracks, size) && ri < |tracks| && ci <= |tracks| && NearFinder(size, r, c)
    ensures !RowCovers(tracks, ri, ci, r, c)
    decreases |tracks| - ci
  {
    if ci < |tracks| {
      RowMissesFinders(tracks, size, ri, ci + 1, r, c);
    }
  }

  /** The skipped pairs are exactly those whose patterns would reach the finder patterns. */
  lemma {:induction false} AlignmentsMissFinders(tracks: seq<int>, size: nat, ri: nat, r: nat, c: nat)
    requires ClearOfFinders(tracks, size) && NearFinder(size, r, c)
    ensures !CoveredFrom(tracks, ri, r, c)
    decreases |tracks| - ri
  {
    if ri < |tracks| {
      RowMissesFinders(tracks, size, ri, 0, r, c);
      AlignmentsMissFinders(tracks, size, ri + 1, r, c);
    }
  }

  lemma NotCoveredNearFinders(version: nat, tracks: seq<int>, r: nat, c: nat)
    requires AlignmentLayout(version, tracks) && NearFinder(Size(version), r, c)
    ensures !CoveredFrom(tracks, 0, r, c)
  {
    AlignmentsMissFinders(tracks, Size(version), 0, r, c);
  }

  // ---------------------------------------------------------------------
  // What the corrected drawing leaves in each module

  /** An odd side of 21 or more, as every symbol has. */
  predicate SymbolSide(g: Grid) {
    IsSquare(g) && |g| >= 21 && |g| % 2 == 1
  }

  lemma SymbolSides(version: nat)
    requires Supported(version)
    ensures Size(version) >= 21 && Size(version) % 2 == 1 && (Size(version) - 16) / 2 == 2 * version
    ensures TimingBit(Size(version) - 9) == 1
  {
  }

  /** The timing patterns, their closing modules and the dark module. */
  lemma TailAt(g: Grid, r: nat, c: nat)
    requires SymbolSide(g) && r < |g| && c < |g|
    ensures DarkModule(TimingEnds(Timing(g)))[r][c] ==
      if r == |g| - 8 && c == 8 then 1
      else if r == 6 && 8 <= c <= |g| - 9 then TimingBit(c)
      else if c == 6 && 8 <= r <= |g| - 9 then TimingBit(r)
      else g[r][c]
  {
    var n := (|g| - 16) / 2;
    assert 8 + 2 * n == |g| - 9;
    assert TimingBit(|g| - 9) == 1;
    TimingLoopAt(g, n, r, c);
  }

  lemma DrawnCorner(g: Grid, version: nat, tracks: seq<int>, r: nat, c: nat)
    requires AlignmentLayout(version, tracks) && IsSquare(g) && |g| == Size(version) && r < |g| && c < |g|
    requires Corner(|g|, r, c)
    ensures Drawn(g, version, tracks)[r][c] == CornerModule(|g|, r, c)
  {
    var finders := Finders(g);
    FindersAt(g, r, c);
    SeparatorsAt(finders, r, c);
    NotCoveredNearFinders(version, tracks, r, c);
    AlignFromOutside(Separators(finders), tracks, 0, true, r, c);
  }

  lemma DrawnOutside(g: Grid, version: nat, tracks: seq<int>, r: nat, c: nat)
    requires AlignmentLayout(version, tracks) && IsSquare(g) && |g| == Size(version) && r < |g| && c < |g|
    requires !Corner(|g|, r, c) && !CoveredFrom(tracks, 0, r, c)
    ensures Drawn(g, version, tracks)[r][c] == g[r][c]
  {
    var finders := Finders(g);
    FindersAt(g, r, c);
    SeparatorsAt(finders, r, c);
    AlignFromOutside(Separators(finders), tracks, 0, true, r, c);
  }

  /** The corrected drawing writes nothing outside the fixed area. */
  lemma FixedOutside(g: Grid, version: nat, tracks: seq<int>, r: nat, c: nat)
    requires AlignmentLayout(version, tracks) && IsSquare(g) && |g| == Size(version) && r < |g| && c < |g|
    requires !FixedArea(version, tracks, r, c)
    ensures FixedPlaced(g, version, tracks)[r][c] == g[r][c]
  {
    SymbolSides(version);
    TailAt(Drawn(g, version, tracks), r, c);
    DrawnOutside(g, version, tracks, r, c);
  }

  /** The module at (r, c) of `h` is the one its corner pattern puts there. */
  predicate CornerHolds(h: Grid, r: nat, c: nat)
    requires IsSquare(h) && r < |h| && c < |h|
  {
    h[r][c] == CornerModule(|h|, r, c)
  }

  /** Each corner holds a complete finder pattern and its separators, whatever was there before. */
  lemma FixedCorners(g: Grid, version: nat, tracks: seq<int>, r: nat, c: nat)
    requires AlignmentLayout(version, tracks) && IsSquare(g) && |g| == Size(version) && r < |g| && c < |g|
    requires Corner(|g|, r, c)
    ensures CornerHolds(FixedPlaced(g, version, tracks), r, c)
  {
    SymbolSides(version);
    TailAt(Drawn(g, version, tracks), r, c);
    DrawnCorner(g, version, tracks, r, c);
  }

  /** Row 6 and column 6 alternate from 8 to `size - 9`, dark on even indices, and the dark module is set. */
  lemma FixedTiming(g: Grid, version: nat, tracks: seq<int>, r: nat, c: nat)
    requires AlignmentLayout(version, tracks) && IsSquare(g) && |g| == Size(version) && r < |g| && c < |g|
    ensures r == 6 && 8 <= c <= |g| - 9 ==> FixedPlaced(g, version, tracks)[r][c] == TimingBit(c)
    ensures c == 6 && 8 <= r <= |g| - 9 ==> FixedPlaced(g, version, tracks)[r][c] == TimingBit(r)
    ensures r == |g| - 8 && c == 8 ==> FixedPlaced(g, version, tracks)[r][c] == 1
  {
    SymbolSides(version);
    TailAt(Drawn(g, version, tracks), r, c);
  }

  /** Every module the drawing writes was reserved before the module sequence was walked. */
  lemma FixedAreaReserved(version: nat, tracks: seq<int>, r: nat, c: nat)
    requires AlignmentLayout(version, tracks) && FixedArea(version, tracks, r, c)
    ensures ReservedModule(version, tracks, r, c)
  {
  }

  /** No function pattern covers a format module. */
  lemma FixedSparesFormat(version: nat, tracks: seq<int>, r: nat, c: nat)
    requires AlignmentLayout(version, tracks) && Placement.FormatIndex(Size(version), r, c) >= 0
    ensures !FixedArea(version, tracks, r, c)
  {
    NotCoveredNearFinders(version, tracks, r, c);
  }

  // ---------------------------------------------------------------------
  // The drawing as written

  /** Over the last alignment pattern, centred at (size - 7, size - 7), the stray square changes nothing. */
  lemma StrayOverDraw(h: Grid, t: nat)
    requires IsSquare(h) && |h| >= 9 && t == |h| - 7
    ensures Stray(Draw(h, t, t)) == Draw(h, t, t)
  {
    var d := Draw(h, t, t);
    var s := Stray(d);
    forall r | 0 <= r < |h|
      ensures s[r] == d[r]
    {
      forall c | 0 <= c < |h|
        ensures s[r][c] == d[r][c]
      {
        StrayAt(d, r, c);
        DrawShape(h, t, t, r, c);
      }
    }
  }

  /** The stray square would leave `h` as it is. */
  predicate StrayRedundant(h: Grid)
    requires IsSquare(h) && |h| >= 8
  {
    Stray(h) == h
  }

  /** The pairs from `ci` on, on the last row index, leave a grid the stray square does not change. */
  predicate RowRedundant(g: Grid, tracks: seq<int>, ci: nat)
    requires IsSquare(g) && |g| >= 9 && TracksFit(tracks, |g|) && |tracks| >= 2 && ci <= |tracks| - 1
  {
    StrayRedundant(RowFrom(g, tracks, |tracks| - 1, ci, true))
  }

  lemma {:induction false} StrayOverRow(g: Grid, tracks: seq<int>, ci: nat)
    requires IsSquare(g) && |g| >= 9 && TracksFit(tracks, |g|) && |tracks| >= 2 && ci <= |tracks| - 1
    requires tracks[|tracks| - 1] == |g| - 7
    ensures RowRedundant(g, tracks, ci)
    decreases |tracks| - ci
  {
    if ci == |tracks| - 1 {
      StrayOverLastPair(g, tracks);
    } else {
      var next := ci + 1;
      StrayOverRow(Pattern(g, tracks, |tracks| - 1, ci, true), tracks, next);
      StrayOverPair(g, tracks, ci, next);
    }
  }

  lemma StrayOverPair(g: Grid, tracks: seq<int>, ci: nat, next: nat)
    requires IsSquare(g) && |g| >= 9 && TracksFit(tracks, |g|) && |tracks| >= 2 && ci < |tracks| - 1 && next == ci + 1
    ensures RowRedundant(g, tracks, ci) == RowRedundant(Pattern(g, tracks, |tracks| - 1, ci, true), tracks, next)
  {
    RowFromUnfold(g, tracks, |tracks| - 1, ci, true);
  }

  lemma RowFromUnfold(g: Grid, tracks: seq<int>, ri: nat, ci: nat, draw: bool)
    requires IsSquare(g) && TracksFit(tracks, |g|) && ri < |tracks| && ci < |tracks|
    ensures RowFrom(g, tracks, ri, ci, draw) == RowFrom(Pattern(g, tracks, ri, ci, draw), tracks, ri, ci + 1, draw)
  {
  }

  lemma AlignFromUnfold(g: Grid, tracks: seq<int>, ri: nat, draw: bool)
    requires IsSquare(g) && TracksFit(tracks, |g|) && ri < |tracks|
    ensures AlignFrom(g, tracks, ri, draw) == AlignFrom(RowFrom(g, tracks, ri, 0, draw), tracks, ri + 1, draw)
    ensures ri + 1 == |tracks| ==> AlignFrom(g, tracks, ri, draw) == RowFrom(g, tracks, ri, 0, draw)
  {
  }

  lemma StrayOverRowIndex(g: Grid, tracks: seq<int>, ri: nat, next: nat)
    requires IsSquare(g) && |g| >= 9 && TracksFit(tracks, |g|) && |tracks| >= 2 && ri <= |tracks| - 1 && next == ri + 1
    ensures ri < |tracks| - 1 ==>
      StrayRedundant(AlignFrom(g, tracks, ri, true)) == StrayRedundant(AlignFrom(RowFrom(g, tracks, ri, 0, true), tracks, next, true))
    ensures ri == |tracks| - 1 ==> StrayRedundant(AlignFrom(g, tracks, ri, true)) == RowRedundant(g, tracks, 0)
  {
    AlignFromUnfold(g, tracks, ri, true);
  }

  lemma StrayOverLastPair(g: Grid, tracks: seq<int>)
    requires IsSquare(g) && |g| >= 9 && TracksFit(tracks, |g|) && |tracks| >= 2
    requires tracks[|tracks| - 1] == |g| - 7
    ensures RowRedundant(g, tracks, |tracks| - 1)
  {
    var last := |tracks| - 1;
    var p := Pattern(g, tracks, last, last, true);
    assert p == Draw(g, |g| - 7, |g| - 7);
    assert RowFrom(g, tracks, last, last, true) == RowFrom(p, tracks, last, last + 1, true) == p;
    StrayOverDraw(g, |g| - 7);
  }

  /** When there are alignment patterns the last one drawn sits where the stray square goes. */
  lemma {:induction false} StrayOverAlignments(g: Grid, tracks: seq<int>, ri: nat)
    requires IsSquare(g) && |g| >= 9 && TracksFit(tracks, |g|) && |tracks| >= 2 && ri <= |tracks| - 1
    requires tracks[|tracks| - 1] == |g| - 7
    ensures StrayRedundant(AlignFrom(g, tracks, ri, true))
    decreases |tracks| - ri
  {
    var next := ri + 1;
    StrayOverRowIndex(g, tracks, ri, next);
    if ri < |tracks| - 1 {
      StrayOverAlignments(RowFrom(g, tracks, ri, 0, true), tracks, next);
    } else {
      StrayOverRow(g, tracks, 0);
    }
  }

  /** The tail as written: the timing patterns closed at `size - 7` instead of `size - 9`. */
  lemma TailAsWrittenAt(g: Grid, r: nat, c: nat)
    requires SymbolSide(g) && r < |g| && c < |g|
    ensures DarkModule(TimingEndsAsWritten(Timing(g)))[r][c] ==
      if r == |g| - 8 && c == 8 then 1
      else if (r == 6 && c == |g| - 7) || (c == 6 && r == |g| - 7) then 1
      else if r == 6 && 8 <= c < |g| - 9 then TimingBit(c)
      else if c == 6 && 8 <= r < |g| - 9 then TimingBit(r)
      else g[r][c]
  {
    var n := (|g| - 16) / 2;
    assert 8 + 2 * n == |g| - 9;
    TimingLoopAt(g, n, r, c);
  }

  lemma StrayRedundantFrom(g: Grid, version: nat, tracks: seq<int>)
    requires AlignmentLayout(version, tracks) && version >= 2 && IsSquare(g) && |g| == Size(version)
    ensures StrayRedundant(Drawn(g, version, tracks))
  {
    StrayOverAlignments(Separators(Finders(g)), tracks, 0);
  }

  lemma AsWrittenUnfold(g: Grid, version: nat, tracks: seq<int>)
    requires AlignmentLayout(version, tracks) && version >= 2 && IsSquare(g) && |g| == Size(version)
    ensures FixedPlacedAsWritten(g, version, tracks) == DarkModule(TimingEndsAsWritten(Timing(Drawn(g, version, tracks))))
  {
    StrayRedundantFrom(g, version, tracks);
  }

  /**
   * From version 2 on, the drawing as written and the corrected one differ
   * only at (6, size - 9) and (size - 9, 6): the stray square repeats the
   * last alignment pattern and the misplaced closing modules fall on dark
   * finder modules.
   */
  lemma AsWrittenAgrees(g: Grid, version: nat, tracks: seq<int>, r: nat, c: nat)
    requires AlignmentLayout(version, tracks) && version >= 2 && IsSquare(g) && |g| == Size(version) && r < |g| && c < |g|
    requires !(r == 6 && c == |g| - 9) && !(c == 6 && r == |g| - 9)
    ensures var asWritten, corrected := FixedPlacedAsWritten(g, version, tracks), FixedPlaced(g, version, tracks);
            asWritten[r][c] == corrected[r][c]
  {
    SymbolSides(version);
    var size := |g|;
    var drawn := Drawn(g, version, tracks);
    AsWrittenUnfold(g, version, tracks);
    if (r == 6 && c == size - 7) || (c == 6 && r == size - 7) {
      DrawnCorner(g, version, tracks, r, c);
    }
    TailsAgreeOn(drawn, r, c);
  }

  /** On a drawing whose finder corners are in place, the two tails agree away from the corrected closing modules. */
  lemma TailsAgreeOn(drawn: Grid, r: nat, c: nat)
    requires SymbolSide(drawn) && r < |drawn| && c < |drawn|
    requires !(r == 6 && c == |drawn| - 9) && !(c == 6 && r == |drawn| - 9)
    requires (r == 6 && c == |drawn| - 7) || (c == 6 && r == |drawn| - 7) ==> drawn[r][c] == CornerModule(|drawn|, r, c)
    ensures DarkModule(TimingEndsAsWritten(Timing(drawn)))[r][c] == DarkModule(TimingEnds(Timing(drawn)))[r][c]
  {
    TailAt(drawn, r, c);
    TailAsWrittenAt(drawn, r, c);
    TailsAgree(|drawn|, r, c, drawn[r][c], DarkModule(TimingEndsAsWritten(Timing(drawn)))[r][c], DarkModule(TimingEnds(Timing(drawn)))[r][c]);
  }

  /** The two tails give one module the same value unless it is a closing module of the corrected drawing. */
  lemma TailsAgree(size: nat, r: nat, c: nat, before: Cell, asWritten: Cell, corrected: Cell)
    requires size >= 21 && !(r == 6 && c == size - 9) && !(c == 6 && r == size - 9)
    requires (r == 6 && c == size - 7) || (c == 6 && r == size - 7) ==> before == CornerModule(size, r, c)
    requires asWritten ==
      if r == size - 8 && c == 8 then 1
      else if (r == 6 && c == size - 7) || (c == 6 && r == size - 7) then 1
      else if r == 6 && 8 <= c < size - 9 then TimingBit(c)
      else if c == 6 && 8 <= r < size - 9 then TimingBit(r)
      else before
    requires corrected ==
      if r == size - 8 && c == 8 then 1
      else if r == 6 && 8 <= c <= size - 9 then TimingBit(c)
      else if c == 6 && 8 <= r <= size - 9 then TimingBit(r)
      else before
    ensures asWritten == corrected
  {
  }

  /**
   * Version 1 as written: (6, 12) and (12, 6) keep what they held, so the
   * timing patterns end on a light module, and (14, 14) turns dark whatever
   * it held. The corrected drawing darkens (6, 12) and leaves (14, 14) alone.
   */
  lemma AsWrittenVersion1(g: Grid)
    requires IsSquare(g) && |g| == 21
    ensures FixedPlacedAsWritten(g, 1, [])[6][12] == g[6][12] && FixedPlacedAsWritten(g, 1, [])[12][6] == g[12][6]
    ensures FixedPlaced(g, 1, [])[6][12] == 1 && FixedPlaced(g, 1, [])[12][6] == 1
    ensures FixedPlacedAsWritten(g, 1, [])[14][14] == 1 && FixedPlaced(g, 1, [])[14][14] == g[14][14]
  {
    var drawn := Drawn(g, 1, []);
    var stray := Stray(drawn);
    DrawnOutside(g, 1, [], 6, 12);
    DrawnOutside(g, 1, [], 12, 6);
    StrayAt(drawn, 6, 12);
    StrayAt(drawn, 12, 6);
    StrayAt(drawn, 14, 14);
    TailAsWrittenAt(stray, 6, 12);
    TailAsWrittenAt(stray, 12, 6);
    TailAsWrittenAt(stray, 14, 14);
    FixedTiming(g, 1, [], 6, 12);
    FixedTiming(g, 1, [], 12, 6);
    FixedOutside(g, 1, [], 14, 14);
  }
}
