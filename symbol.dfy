/**
 * `BitMatrix.from` and `BitMatrix.optimalMask` (lib/BitMatrix.js:45-66,
 * 92-106): a whole symbol, built in layers. The masked data modules go
 * along the module sequence of a light square, then the format
 * information, the function patterns and the version information are
 * written over it. What each layer leaves in the finished symbol is
 * stated here, and the mask search is stated against the penalty score.
 */
module Symbol {
  import opened Bits
  import opened Patterns
  import opened Penalty
  import opened Matrix
  import opened Areas
  import opened Walk
  import opened Placement
  import opened Fixed
  import opened FixedLayout
  import opened VersionModules

  // ---------------------------------------------------------------------
  // The symbol, layer by layer

  /** The light square of `alloc` with the masked codeword bits written along the module sequence (lines 46-59). */
  function DataLayer(version: nat, tracks: seq<int>, codewords: seq<Byte>, maskIndex: nat): (g: Grid)
    requires AlignmentLayout(version, tracks) && maskIndex < 8
    ensures IsSquare(g) && |g| == Size(version)
  {
    var s := ModuleSequence(version, tracks);
    DataPlaced(Blank(Size(version)), s, codewords, maskIndex, |s|)
  }

  /** The layers written over the data (lines 61-63): format information, function patterns, version information. */
  function Finished(g: Grid, version: nat, tracks: seq<int>, w: seq<Cell>): (h: Grid)
    requires AlignmentLayout(version, tracks) && IsSquare(g) && |g| == Size(version) && |w| == 15
    ensures IsSquare(h) && |h| == |g|
  {
    VersionPlaced(FixedPlaced(FormatPlaced(g, w), version, tracks))
  }

  /** The same layers with the function patterns as lines 316-366 write them. */
  function FinishedAsWritten(g: Grid, version: nat, tracks: seq<int>, w: seq<Cell>): (h: Grid)
    requires AlignmentLayout(version, tracks) && IsSquare(g) && |g| == Size(version) && |w| == 15
    ensures IsSquare(h) && |h| == |g|
  {
    VersionPlaced(FixedPlacedAsWritten(FormatPlaced(g, w), version, tracks))
  }

  /** The symbol `from` builds, with the corrected function patterns. */
  function Encoded(version: nat, tracks: seq<int>, codewords: seq<Byte>, errorLevel: char, maskIndex: nat): (g: Grid)
    requires AlignmentLayout(version, tracks) && errorLevel in EdcOrder && maskIndex < 8
    ensures IsSquare(g) && |g| == Size(version)
  {
    Finished(DataLayer(version, tracks, codewords, maskIndex), version, tracks, FormatCells(errorLevel, maskIndex))
  }

  /** The symbol `from` builds as written. */
  function EncodedAsWritten(version: nat, tracks: seq<int>, codewords: seq<Byte>, errorLevel: char, maskIndex: nat): (g: Grid)
    requires AlignmentLayout(version, tracks) && errorLevel in EdcOrder && maskIndex < 8
    ensures IsSquare(g) && |g| == Size(version)
  {
    FinishedAsWritten(DataLayer(version, tracks, codewords, maskIndex), version, tracks, FormatCells(errorLevel, maskIndex))
  }

  // ---------------------------------------------------------------------
  // The data modules

  /** The module sequence lists each module once. */
  lemma SequenceDistinct(version: nat, tracks: seq<int>)
    requires AlignmentLayout(version, tracks)
    ensures Distinct(ModuleSequence(version, tracks))
  {
    ModuleSequenceExact(version, tracks);
  }

  /** The module sequence lists only modules no pattern reserves. */
  lemma SequenceUnreserved(version: nat, tracks: seq<int>, j: nat)
    requires AlignmentLayout(version, tracks) && j < |ModuleSequence(version, tracks)|
    ensures !ReservedModule(version, tracks, ModuleSequence(version, tracks)[j].0, ModuleSequence(version, tracks)[j].1)
  {
    var s := ModuleSequence(version, tracks);
    ModuleSequenceExact(version, tracks);
    ReservedAt(version, tracks, s[j].0, s[j].1);
  }

  /** Every module no pattern reserves is in the sequence. */
  lemma UnreservedListed(version: nat, tracks: seq<int>, r: nat, c: nat)
    requires AlignmentLayout(version, tracks) && r < Size(version) && c < Size(version)
    requires !ReservedModule(version, tracks, r, c)
    ensures (r, c) in ModuleSequence(version, tracks)
  {
    ModuleSequenceExact(version, tracks);
    ReservedAt(version, tracks, r, c);
  }

  /** An unreserved module is neither a format module, nor in the fixed area, nor (from version 7) in a version block. */
  lemma UnreservedSpared(version: nat, tracks: seq<int>, r: nat, c: nat)
    requires AlignmentLayout(version, tracks) && !ReservedModule(version, tracks, r, c)
    ensures FormatIndex(Size(version), r, c) < 0 && !FixedArea(version, tracks, r, c)
    ensures Size(version) < 45 || (UpperIndex(Size(version), r, c) < 0 && LowerIndex(Size(version), r, c) < 0)
  {
  }

  /** The layers after the data write only reserved modules. */
  lemma FinishedSparesUnreserved(g: Grid, version: nat, tracks: seq<int>, w: seq<Cell>, r: nat, c: nat)
    requires AlignmentLayout(version, tracks) && IsSquare(g) && |g| == Size(version) && |w| == 15 && r < |g| && c < |g|
    requires !ReservedModule(version, tracks, r, c)
    ensures Finished(g, version, tracks, w)[r][c] == g[r][c]
  {
    UnreservedSpared(version, tracks, r, c);
    var formatted := FormatPlaced(g, w);
    FormatPlacedAt(g, w, r, c);
    FixedOutside(formatted, version, tracks, r, c);
    VersionPlacedOutside(FixedPlaced(formatted, version, tracks), r, c);
  }

  /** The module at `cell` holds bit `j` of the codewords, masked, and unmasking it gives that bit back. */
  predicate CarriesBit(h: Grid, cell: (nat, nat), codewords: seq<Byte>, maskIndex: nat, j: nat)
    requires IsSquare(h) && cell.0 < |h| && cell.1 < |h| && maskIndex < 8
  {
    h[cell.0][cell.1] == ModuleValue(codewords, maskIndex, j, cell) &&
    Masked(maskIndex, cell, h[cell.0][cell.1]) == CodewordBit(codewords, j)
  }

  /** Module `j` of the sequence carries bit `j` of the codewords in the finished symbol. */
  lemma DataModules(version: nat, tracks: seq<int>, codewords: seq<Byte>, errorLevel: char, maskIndex: nat, j: nat)
    requires AlignmentLayout(version, tracks) && errorLevel in EdcOrder && maskIndex < 8 && j < |ModuleSequence(version, tracks)|
    ensures CarriesBit(Encoded(version, tracks, codewords, errorLevel, maskIndex), ModuleSequence(version, tracks)[j], codewords, maskIndex, j)
  {
    var s := ModuleSequence(version, tracks);
    SequenceDistinct(version, tracks);
    SequenceUnreserved(version, tracks, j);
    DataPlacedHit(Blank(Size(version)), s, codewords, maskIndex, |s|, j);
    FinishedSparesUnreserved(DataLayer(version, tracks, codewords, maskIndex), version, tracks, FormatCells(errorLevel, maskIndex), s[j].0, s[j].1);
    MaskedTwice(maskIndex, s[j], CodewordBit(codewords, j));
  }

  /** A reserved module is not in the sequence. */
  lemma ReservedUnlisted(version: nat, tracks: seq<int>, r: nat, c: nat)
    requires AlignmentLayout(version, tracks) && r < Size(version) && c < Size(version)
    requires ReservedModule(version, tracks, r, c)
    ensures (r, c) !in ModuleSequence(version, tracks)
  {
    ModuleSequenceExact(version, tracks);
    ReservedAt(version, tracks, r, c);
  }

  /** A reserved module is left light by the data layer. */
  lemma DataSparesReserved(version: nat, tracks: seq<int>, codewords: seq<Byte>, maskIndex: nat, r: nat, c: nat)
    requires AlignmentLayout(version, tracks) && maskIndex < 8 && r < Size(version) && c < Size(version)
    requires ReservedModule(version, tracks, r, c)
    ensures DataLayer(version, tracks, codewords, maskIndex)[r][c] == 0
  {
    var s := ModuleSequence(version, tracks);
    ReservedUnlisted(version, tracks, r, c);
    assert s[..|s|] == s;
    DataPlacedMiss(Blank(Size(version)), s, codewords, maskIndex, |s|, r, c);
  }

  // ---------------------------------------------------------------------
  // Format information

  /** No format module lies in a version block. */
  lemma FormatOutsideBlocks(size: nat, r: nat, c: nat)
    requires size >= 21 && FormatIndex(size, r, c) >= 0
    ensures size < 45 || (UpperIndex(size, r, c) < 0 && LowerIndex(size, r, c) < 0)
  {
  }

  /** The function patterns and the version information leave the format modules alone. */
  lemma FinishedKeepsFormat(g: Grid, version: nat, tracks: seq<int>, r: nat, c: nat)
    requires AlignmentLayout(version, tracks) && IsSquare(g) && |g| == Size(version) && r < |g| && c < |g|
    requires FormatIndex(|g|, r, c) >= 0
    ensures VersionPlaced(FixedPlaced(g, version, tracks))[r][c] == g[r][c]
  {
    var size := |g|;
    FixedSparesFormat(version, tracks, r, c);
    FixedOutside(g, version, tracks, r, c);
    FormatOutsideBlocks(size, r, c);
    var fixed := FixedPlaced(g, version, tracks);
    VersionPlacedOutside(fixed, r, c);
  }

  /** `h` agrees with `f` on every format module. */
  predicate FormatKept(f: Grid, h: Grid)
    requires IsSquare(f) && IsSquare(h) && |f| == |h|
  {
    forall r: nat, c: nat :: r < |f| && c < |f| && FormatIndex(|f|, r, c) >= 0 ==> h[r][c] == f[r][c]
  }

  lemma FinishedFormatKept(f: Grid, version: nat, tracks: seq<int>)
    requires AlignmentLayout(version, tracks) && IsSquare(f) && |f| == Size(version)
    ensures FormatKept(f, VersionPlaced(FixedPlaced(f, version, tracks)))
  {
    forall r: nat, c: nat | r < |f| && c < |f| && FormatIndex(|f|, r, c) >= 0
      ensures VersionPlaced(FixedPlaced(f, version, tracks))[r][c] == f[r][c]
    {
      FinishedKeepsFormat(f, version, tracks, r, c);
    }
  }

  /** A grid that agrees with `f` on every format module holds the same two copies. */
  lemma CopiesKept(f: Grid, h: Grid)
    requires IsSquare(f) && IsSquare(h) && |f| == |h| && |f| >= 21 && FormatKept(f, h)
    ensures FirstCopy(h) == FirstCopy(f) && SecondCopy(h) == SecondCopy(f)
  {
    var size := |f|;
    forall i | 0 <= i < 15
      ensures FirstCopy(h)[i] == FirstCopy(f)[i] && SecondCopy(h)[i] == SecondCopy(f)[i]
    {
      CopiesAreFormatModules(size, i);
    }
  }

  lemma FinishedCopies(g: Grid, version: nat, tracks: seq<int>, w: seq<Cell>)
    requires AlignmentLayout(version, tracks) && IsSquare(g) && |g| == Size(version) && |w| == 15
    ensures FirstCopy(Finished(g, version, tracks, w)) == w && SecondCopy(Finished(g, version, tracks, w)) == w
  {
    var formatted := FormatPlaced(g, w);
    FirstCopyPlaced(g, w);
    SecondCopyPlaced(g, w);
    FinishedFormatKept(formatted, version, tracks);
    CopiesKept(formatted, VersionPlaced(FixedPlaced(formatted, version, tracks)));
  }

  /** Both copies of the format information in the finished symbol decode to its level and mask. */
  lemma FormatInformation(version: nat, tracks: seq<int>, codewords: seq<Byte>, errorLevel: char, maskIndex: nat)
    requires AlignmentLayout(version, tracks) && errorLevel in EdcOrder && maskIndex < 8
    ensures var h := Encoded(version, tracks, codewords, errorLevel, maskIndex);
            DecodeFormat(FirstCopy(h)) == (errorLevel, maskIndex) && DecodeFormat(SecondCopy(h)) == (errorLevel, maskIndex)
  {
    var data := DataLayer(version, tracks, codewords, maskIndex);
    var w := FormatCells(errorLevel, maskIndex);
    FinishedCopies(data, version, tracks, w);
    FormatRoundTrip(errorLevel, maskIndex);
  }

  // ---------------------------------------------------------------------
  // Version information

  lemma FinishedVersion(g: Grid, version: nat, tracks: seq<int>, w: seq<Cell>)
    requires AlignmentLayout(version, tracks) && version >= 7 && IsSquare(g) && |g| == Size(version) && |w| == 15
    ensures UpperBlock(Finished(g, version, tracks, w)) == VersionInformation(version)
    ensures LowerBlock(Finished(g, version, tracks, w)) == VersionInformation(version)
  {
    assert SideVersion(Size(version)) == version;
    VersionBlocksRead(FixedPlaced(FormatPlaced(g, w), version, tracks));
  }

  /**
   * From version 7 on, both version blocks of the finished symbol read
   * the version information word of its version, which spells the
   * version (`VersionInformationMeaning`).
   */
  lemma VersionInformationRead(version: nat, tracks: seq<int>, codewords: seq<Byte>, errorLevel: char, maskIndex: nat)
    requires AlignmentLayout(version, tracks) && version >= 7 && errorLevel in EdcOrder && maskIndex < 8
    ensures UpperBlock(Encoded(version, tracks, codewords, errorLevel, maskIndex)) == VersionInformation(version)
    ensures LowerBlock(Encoded(version, tracks, codewords, errorLevel, maskIndex)) == VersionInformation(version)
  {
    FinishedVersion(DataLayer(version, tracks, codewords, maskIndex), version, tracks, FormatCells(errorLevel, maskIndex));
  }

  // ---------------------------------------------------------------------
  // Function patterns

  /**
   * The finder patterns and their separators fill the corners, the timing
   * patterns alternate along row and column 6 starting dark, and the dark
   * module is dark.
   */
  predicate PatternsAt(h: Grid, r: nat, c: nat)
    requires IsSquare(h) && r < |h| && c < |h|
  {
    var size := |h|;
    (Corner(size, r, c) ==> h[r][c] == CornerModule(size, r, c)) &&
    (r == 6 && 8 <= c <= size - 9 ==> h[r][c] == TimingBit(c)) &&
    (c == 6 && 8 <= r <= size - 9 ==> h[r][c] == TimingBit(r)) &&
    (r == size - 8 && c == 8 ==> h[r][c] == 1)
  }

  /** The function patterns and the dark module lie outside the version blocks. */
  lemma PatternsOutsideBlocks(size: nat, r: nat, c: nat)
    requires size >= 21
    requires Corner(size, r, c) || (r == 6 && 8 <= c <= size - 9) || (c == 6 && 8 <= r <= size - 9) || (r == size - 8 && c == 8)
    ensures size < 45 || (UpperIndex(size, r, c) < 0 && LowerIndex(size, r, c) < 0)
  {
  }

  lemma FinishedPatterns(g: Grid, version: nat, tracks: seq<int>, w: seq<Cell>, r: nat, c: nat)
    requires AlignmentLayout(version, tracks) && IsSquare(g) && |g| == Size(version) && |w| == 15 && r < |g| && c < |g|
    ensures PatternsAt(Finished(g, version, tracks, w), r, c)
  {
    var formatted := FormatPlaced(g, w);
    SymbolSides(version);
    if Corner(|g|, r, c) {
      FixedCorners(formatted, version, tracks, r, c);
    }
    FixedTiming(formatted, version, tracks, r, c);
    PatternsKept(FixedPlaced(formatted, version, tracks), r, c);
  }

  /** The version blocks leave the function patterns of a symbol where they were. */
  lemma PatternsKept(fixed: Grid, r: nat, c: nat)
    requires IsSquare(fixed) && |fixed| >= 21 && r < |fixed| && c < |fixed|
    requires Corner(|fixed|, r, c) ==> CornerHolds(fixed, r, c)
    requires r == 6 && 8 <= c <= |fixed| - 9 ==> fixed[r][c] == TimingBit(c)
    requires c == 6 && 8 <= r <= |fixed| - 9 ==> fixed[r][c] == TimingBit(r)
    requires r == |fixed| - 8 && c == 8 ==> fixed[r][c] == 1
    ensures PatternsAt(VersionPlaced(fixed), r, c)
  {
    var size := |fixed|;
    if Corner(size, r, c) || (r == 6 && 8 <= c <= size - 9) || (c == 6 && 8 <= r <= size - 9) || (r == size - 8 && c == 8) {
      PatternsOutsideBlocks(size, r, c);
      VersionPlacedOutside(fixed, r, c);
    }
  }

  /** Whatever the data, the finished symbol holds the finder, separator and timing patterns and the dark module. */
  lemma FunctionPatterns(version: nat, tracks: seq<int>, codewords: seq<Byte>, errorLevel: char, maskIndex: nat, r: nat, c: nat)
    requires AlignmentLayout(version, tracks) && errorLevel in EdcOrder && maskIndex < 8 && r < Size(version) && c < Size(version)
    ensures PatternsAt(Encoded(version, tracks, codewords, errorLevel, maskIndex), r, c)
  {
    FinishedPatterns(DataLayer(version, tracks, codewords, maskIndex), version, tracks, FormatCells(errorLevel, maskIndex), r, c);
  }

  // ---------------------------------------------------------------------
  // The function patterns as written, in a whole symbol

  /**
   * What the drawing as written does to a version 1 symbol, against the
   * corrected drawing, given the grid `g` both are drawn over: as written,
   * (14, 14) turns dark and (6, 12), (12, 6) keep what `g` holds there;
   * corrected, (14, 14) keeps its value and the other two are dark.
   */
  predicate Version1Drawings(asWritten: Grid, corrected: Grid, g: Grid)
    requires IsSquare(asWritten) && IsSquare(corrected) && IsSquare(g) && |asWritten| == |corrected| == |g| == 21
  {
    asWritten[14][14] == 1 && corrected[14][14] == g[14][14] &&
    asWritten[6][12] == g[6][12] && asWritten[12][6] == g[12][6] &&
    corrected[6][12] == 1 && corrected[12][6] == 1
  }

  lemma FinishedVersion1(g: Grid, version: nat, tracks: seq<int>, w: seq<Cell>)
    requires AlignmentLayout(version, tracks) && version == 1 && IsSquare(g) && |g| == 21 && |w| == 15
    ensures Version1Drawings(FinishedAsWritten(g, version, tracks, w), Finished(g, version, tracks, w), g)
  {
    var formatted := FormatPlaced(g, w);
    FormatPlacedAt(g, w, 14, 14);
    FormatPlacedAt(g, w, 6, 12);
    FormatPlacedAt(g, w, 12, 6);
    AsWrittenVersion1(formatted);
  }

  /** (6, 12) and (12, 6) are reserved for the timing patterns, (14, 14) is not: it is a data module. */
  lemma Version1Modules(version: nat, tracks: seq<int>)
    requires AlignmentLayout(version, tracks) && version == 1
    ensures (14, 14) in ModuleSequence(version, tracks)
    ensures (6, 12) !in ModuleSequence(version, tracks) && (12, 6) !in ModuleSequence(version, tracks)
  {
    UnreservedListed(version, tracks, 14, 14);
    ReservedUnlisted(version, tracks, 6, 12);
    ReservedUnlisted(version, tracks, 12, 6);
  }

  /** The data layer leaves (6, 12) and (12, 6) light. */
  predicate TimingEndsLight(g: Grid)
    requires IsSquare(g) && |g| == 21
  {
    g[6][12] == 0 && g[12][6] == 0
  }

  lemma DataVersion1(version: nat, tracks: seq<int>, codewords: seq<Byte>, maskIndex: nat)
    requires AlignmentLayout(version, tracks) && version == 1 && maskIndex < 8
    ensures TimingEndsLight(DataLayer(version, tracks, codewords, maskIndex))
  {
    DataSparesReserved(version, tracks, codewords, maskIndex, 6, 12);
    DataSparesReserved(version, tracks, codewords, maskIndex, 12, 6);
  }

  /**
   * A version 1 symbol as written: the data module (14, 14) is forced
   * dark, and the timing patterns end on the light modules the data layer
   * left at (6, 12) and (12, 6).
   */
  lemma AsWrittenVersion1Symbol(version: nat, tracks: seq<int>, codewords: seq<Byte>, errorLevel: char, maskIndex: nat)
    requires AlignmentLayout(version, tracks) && version == 1 && errorLevel in EdcOrder && maskIndex < 8
    ensures var data := DataLayer(version, tracks, codewords, maskIndex);
            Version1Drawings(EncodedAsWritten(version, tracks, codewords, errorLevel, maskIndex), Encoded(version, tracks, codewords, errorLevel, maskIndex), data) &&
            TimingEndsLight(data)
  {
    DataVersion1(version, tracks, codewords, maskIndex);
    FinishedVersion1(DataLayer(version, tracks, codewords, maskIndex), version, tracks, FormatCells(errorLevel, maskIndex));
  }

  /** `a` and `b` hold the same module at (r, c). */
  predicate SameAt(a: Grid, b: Grid, r: nat, c: nat)
    requires IsSquare(a) && IsSquare(b) && r < |a| && c < |a| && |a| == |b|
  {
    a[r][c] == b[r][c]
  }

  lemma FinishedAgrees(g: Grid, version: nat, tracks: seq<int>, w: seq<Cell>, r: nat, c: nat)
    requires AlignmentLayout(version, tracks) && version >= 2 && IsSquare(g) && |g| == Size(version) && |w| == 15 && r < |g| && c < |g|
    requires (r, c) != (6, |g| - 9) && (r, c) != (|g| - 9, 6)
    ensures SameAt(FinishedAsWritten(g, version, tracks, w), Finished(g, version, tracks, w), r, c)
  {
    var formatted := FormatPlaced(g, w);
    AsWrittenAgrees(formatted, version, tracks, r, c);
    VersionPlacedAgree(FixedPlacedAsWritten(formatted, version, tracks), FixedPlaced(formatted, version, tracks), r, c);
  }

  // ---------------------------------------------------------------------
  // from

  /**
   * `from` (lib/BitMatrix.js:45-66) corrected: the alignment tracks of
   * Table E.1 and the corrected function patterns.
   */
  method From(version: nat, codewords: seq<Byte>, errorLevel: char, maskIndex: nat) returns (matrix: BitMatrix)
    requires Supported(version) && errorLevel in EdcOrder && maskIndex < 8
    ensures fresh(matrix) && matrix.Valid() && matrix.size == Size(version)
    ensures matrix.Snapshot() == Encoded(version, IsoTracks(version), codewords, errorLevel, maskIndex)
    ensures matrix.offset == PaddingBits(matrix.size) && matrix.penaltyScore == BlankPenalty(matrix.size)
  {
    var alignmentTracks := IsoTracks(version);
    var sequence := GetModuleSequence(version, alignmentTracks);
    matrix := BitMatrix.Alloc(version);
    PlaceData(matrix, sequence, codewords, maskIndex);
    PlaceFormatModules(matrix, errorLevel, maskIndex);
    PlaceFixedPatterns(matrix, version, alignmentTracks);
    PlaceVersionModules(matrix);
  }

  /**
   * `from` as written: the tracks getAlignmentCoordinates computes, in the
   * module sequence and in the drawing, and the function patterns as lines
   * 316-366 write them.
   */
  method FromAsWritten(version: nat, codewords: seq<Byte>, errorLevel: char, maskIndex: nat) returns (matrix: BitMatrix)
    requires Supported(version) && errorLevel in EdcOrder && maskIndex < 8
    ensures fresh(matrix) && matrix.Valid() && matrix.size == Size(version)
    ensures matrix.Snapshot() == EncodedAsWritten(version, TracksAsWritten(version), codewords, errorLevel, maskIndex)
    ensures matrix.offset == PaddingBits(matrix.size) && matrix.penaltyScore == BlankPenalty(matrix.size)
  {
    var alignmentTracks := TracksAsWritten(version);
    var sequence := GetModuleSequence(version, alignmentTracks);
    matrix := BitMatrix.Alloc(version);
    PlaceData(matrix, sequence, codewords, maskIndex);
    PlaceFormatModules(matrix, errorLevel, maskIndex);
    PlaceFixedPatternsAsWritten(matrix, version, alignmentTracks);
    PlaceVersionModules(matrix);
  }

  // ---------------------------------------------------------------------
  // optimalMask

  /** The penalty score of the symbol with mask `maskIndex`, read from its modules. */
  function MaskScore(version: nat, codewords: seq<Byte>, errorLevel: char, maskIndex: nat): nat
    requires Supported(version) && errorLevel in EdcOrder && maskIndex < 8
  {
    Score(Encoded(version, IsoTracks(version), codewords, errorLevel, maskIndex), Size(version), PaddingBits(Size(version)))
  }

  /** The scores of the eight masks, mask 0 first. */
  function MaskScores(version: nat, codewords: seq<Byte>, errorLevel: char): (scores: seq<nat>)
    requires Supported(version) && errorLevel in EdcOrder
    ensures |scores| == 8
  {
    seq(8, i requires 0 <= i < 8 => MaskScore(version, codewords, errorLevel, i))
  }

  /** `m` is the first of the least of the first `n` scores. */
  predicate FirstLeast(scores: seq<nat>, n: nat, m: int)
    requires n <= |scores|
  {
    0 <= m < n && (forall i :: 0 <= i < n ==> scores[m] <= scores[i]) && (forall i :: 0 <= i < m ==> scores[m] < scores[i])
  }

  /**
   * The state of the search after the first `index` masks: none seen yet,
   * or `bestMask` the first least of their scores and `bestScore` its score.
   */
  predicate Searched(scores: seq<nat>, index: nat, seen: bool, bestScore: nat, bestMask: int)
    requires index <= |scores|
  {
    if index == 0 then !seen else seen && FirstLeast(scores, index, bestMask) && bestScore == scores[bestMask]
  }

  /**
   * One turn of the search: the new score replaces the best one when none
   * has been seen or when it is strictly less, and either way the best is
   * the first least of the scores seen so far.
   */
  lemma SearchStep(scores: seq<nat>, index: nat, seen: bool, bestScore: nat, bestMask: int)
    requires index < |scores| && Searched(scores, index, seen, bestScore, bestMask)
    ensures !seen || scores[index] < bestScore ==> Searched(scores, index + 1, true, scores[index], index)
    ensures !(!seen || scores[index] < bestScore) ==> Searched(scores, index + 1, seen, bestScore, bestMask)
  {
  }

  /**
   * `optimalMask` as written (lib/BitMatrix.js:92-106): it compares the
   * scores the constructor cached while the matrices were still light, so
   * all eight are equal, only the first beats `Infinity`, and mask 0 wins
   * whatever the symbols hold.
   */
  method OptimalMaskAsWritten(version: nat, codewords: seq<Byte>, errorLevel: char) returns (bestMatrix: BitMatrix?, bestMask: int)
    requires Supported(version) && errorLevel in EdcOrder
    ensures bestMask == 0 && bestMatrix != null && bestMatrix.Valid()
    ensures bestMatrix.Snapshot() == EncodedAsWritten(version, TracksAsWritten(version), codewords, errorLevel, 0)
  {
    // `bestScore` starts at Infinity: no score has been seen yet
    var seen := false;
    var bestScore := 0;
    bestMatrix := null;
    bestMask := -1;
    var index := 0;
    while index < 8
      invariant 0 <= index <= 8
      invariant SearchedAsWritten(Size(version), index, seen, bestScore, bestMask)
      invariant index > 0 ==> bestMatrix != null && bestMatrix.Valid() && bestMatrix.Snapshot() == EncodedAsWritten(version, TracksAsWritten(version), codewords, errorLevel, 0)
    {
      seen, bestScore, bestMatrix, bestMask := SearchTurnAsWritten(version, codewords, errorLevel, index, seen, bestScore, bestMatrix, bestMask);
      index := index + 1;
    }
  }

  /**
   * Where the search as written stands after `index` turns: every symbol
   * carries the blank-symbol penalty, so the first one is kept.
   */
  predicate SearchedAsWritten(size: nat, index: nat, seen: bool, bestScore: nat, bestMask: int) {
    if index == 0 then !seen && bestMask == -1
    else seen && bestMask == 0 && bestScore == BlankPenalty(size)
  }

  /**
   * One turn of `optimalMask` as written (lines 96-103): the symbol for mask
   * `index` carries the cached blank-symbol penalty, so it never beats the
   * first one.
   */
  method SearchTurnAsWritten(version: nat, codewords: seq<Byte>, errorLevel: char, index: nat,
                             seen: bool, bestScore: nat, bestMatrix: BitMatrix?, bestMask: int)
    returns (seen': bool, bestScore': nat, bestMatrix': BitMatrix?, bestMask': int)
    requires Supported(version) && errorLevel in EdcOrder && index < 8
    requires SearchedAsWritten(Size(version), index, seen, bestScore, bestMask)
    requires index > 0 ==> bestMatrix != null && bestMatrix.Valid() && bestMatrix.Snapshot() == EncodedAsWritten(version, TracksAsWritten(version), codewords, errorLevel, 0)
    ensures SearchedAsWritten(Size(version), index + 1, seen', bestScore', bestMask')
    ensures bestMatrix' != null && bestMatrix'.Valid() && bestMatrix'.Snapshot() == EncodedAsWritten(version, TracksAsWritten(version), codewords, errorLevel, 0)
  {
    var matrix := FromAsWritten(version, codewords, errorLevel, index);
    var penaltyScore := matrix.penaltyScore;
    seen', bestScore', bestMatrix', bestMask' := seen, bestScore, bestMatrix, bestMask;
    if !seen || penaltyScore < bestScore {
      seen', bestScore', bestMatrix', bestMask' := true, penaltyScore, matrix, index;
    }
  }

  /** One turn of the corrected search: build the symbol and score what it holds. */
  method ScoreMask(version: nat, codewords: seq<Byte>, errorLevel: char, maskIndex: nat) returns (matrix: BitMatrix, penaltyScore: nat)
    requires Supported(version) && errorLevel in EdcOrder && maskIndex < 8
    ensures fresh(matrix) && matrix.Valid() && matrix.Snapshot() == Encoded(version, IsoTracks(version), codewords, errorLevel, maskIndex)
    ensures penaltyScore == MaskScore(version, codewords, errorLevel, maskIndex)
  {
    matrix := From(version, codewords, errorLevel, maskIndex);
    var m := Read(matrix.cells);
    penaltyScore := GetPenaltyScore(m, matrix.size, matrix.offset);
  }

  /**
   * One turn of the corrected search (lines 96-103): build and score the
   * symbol with mask `index`, and keep it when it beats the best so far.
   */
  method SearchTurn(version: nat, codewords: seq<Byte>, errorLevel: char, index: nat,
                    seen: bool, bestScore: nat, bestMatrix: BitMatrix?, bestMask: int)
    returns (seen': bool, bestScore': nat, bestMatrix': BitMatrix?, bestMask': int)
    requires Supported(version) && errorLevel in EdcOrder && index < 8
    requires Searched(MaskScores(version, codewords, errorLevel), index, seen, bestScore, bestMask)
    requires index > 0 ==> bestMatrix != null && bestMatrix.Valid() && bestMatrix.Snapshot() == Encoded(version, IsoTracks(version), codewords, errorLevel, bestMask)
    ensures Searched(MaskScores(version, codewords, errorLevel), index + 1, seen', bestScore', bestMask')
    ensures bestMatrix' != null && bestMatrix'.Valid() && bestMatrix'.Snapshot() == Encoded(version, IsoTracks(version), codewords, errorLevel, bestMask')
  {
    ghost var scores := MaskScores(version, codewords, errorLevel);
    var matrix, penaltyScore := ScoreMask(version, codewords, errorLevel, index);
    assert penaltyScore == scores[index];
    SearchStep(scores, index, seen, bestScore, bestMask);
    seen', bestScore', bestMatrix', bestMask' := seen, bestScore, bestMatrix, bestMask;
    if !seen || penaltyScore < bestScore {
      seen', bestScore', bestMatrix', bestMask' := true, penaltyScore, matrix, index;
    }
  }

  /**
   * `optimalMask` scoring each symbol as it stands: the mask whose symbol
   * has the least penalty, the first such mask on a tie, as the strict
   * comparison of line 99 keeps.
   */
  method OptimalMask(version: nat, codewords: seq<Byte>, errorLevel: char) returns (bestMatrix: BitMatrix?, bestMask: int)
    requires Supported(version) && errorLevel in EdcOrder
    ensures FirstLeast(MaskScores(version, codewords, errorLevel), 8, bestMask)
    ensures bestMatrix != null && bestMatrix.Valid() && bestMatrix.Snapshot() == Encoded(version, IsoTracks(version), codewords, errorLevel, bestMask)
  {
    // `bestScore` starts at Infinity: no score has been seen yet
    var seen := false;
    var bestScore := 0;
    bestMatrix := null;
    bestMask := -1;
    var index := 0;
    while index < 8
      invariant 0 <= index <= 8
      invariant Searched(MaskScores(version, codewords, errorLevel), index, seen, bestScore, bestMask)
      invariant index > 0 ==> bestMatrix != null && bestMatrix.Valid() && bestMatrix.Snapshot() == Encoded(version, IsoTracks(version), codewords, errorLevel, bestMask)
    {
      seen, bestScore, bestMatrix, bestMask := SearchTurn(version, codewords, errorLevel, index, seen, bestScore, bestMatrix, bestMask);
      index := index + 1;
    }
  }
}
