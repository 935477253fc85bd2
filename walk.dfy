/**
 * `getModuleSequence` (lib/BitMatrix.js:210-276): the order in which data
 * modules are placed. It darkens every module that a function pattern or
 * the format and version information will occupy, then walks the symbol
 * in two-module-wide columns from the bottom right corner, upwards and
 * downwards in turn, skipping the vertical timing pattern in column 6,
 * and lists the modules it finds light.
 *
 * A position of the walk is a `Key`: the column pair (0 is the rightmost),
 * the step along that pair (0 is where the walk enters it) and the side
 * (0 right, 1 left). `At` turns a key into a module and `KeyOf` turns it
 * back, so the walk meets each module once and in the order of its key.
 */
module Walk {
  import opened Patterns
  import opened Penalty
  import opened Matrix
  import opened Areas

  /** The versions the encoder handles. */
  predicate Supported(version: nat) {
    1 <= version <= 40
  }

  /** The tracks after the first lie at 11 or beyond, those before the last at `size - 11` or before. */
  predicate ClearOfFinders(tracks: seq<int>, size: nat) {
    (forall i :: 0 < i < |tracks| ==> tracks[i] >= 11) && (forall i :: 0 <= i < |tracks| - 1 ==> tracks[i] <= size - 11)
  }

  /**
   * `tracks` can serve as the alignment tracks of `version`: none for
   * version 1; otherwise two or more between 6 and `size - 7`, the last at
   * `size - 7`, and clear of the finder patterns except in the three pairs
   * the loops skip. The list getAlignmentCoordinates computes and the list
   * of Table E.1 of ISO/IEC 18004 both qualify, and everything below holds
   * for either.
   */
  predicate AlignmentLayout(version: nat, tracks: seq<int>) {
    Supported(version) &&
    TracksFit(tracks, Size(version)) &&
    (forall i :: 0 <= i < |tracks| ==> 6 <= tracks[i] <= Size(version) - 7) &&
    ClearOfFinders(tracks, Size(version)) &&
    (version == 1 ==> tracks == []) &&
    (version >= 2 ==> |tracks| >= 2 && tracks[|tracks| - 1] == Size(version) - 7)
  }

  /** The tracks of Table E.1 fit every supported version. */
  lemma AlignmentFits(version: nat)
    requires Supported(version)
    ensures AlignmentLayout(version, AlignmentCoordinates(version))
  {
    if version > 1 {
      AlignmentShape(version);
      AlignmentClear(version);
    }
  }

  /** So do the tracks getAlignmentCoordinates computes, version 32 included. */
  lemma AsWrittenFits(version: nat)
    requires Supported(version)
    ensures AlignmentLayout(version, AlignmentCoordinatesAsWritten(version))
  {
    if version == 32 {
      AlignmentVersion32();
    } else {
      AlignmentAgrees(version);
      AlignmentFits(version);
    }
  }

  /** The tracks of Table E.1, which the corrected encoder draws. */
  function IsoTracks(version: nat): (tracks: seq<int>)
    requires Supported(version)
    ensures AlignmentLayout(version, tracks)
  {
    AlignmentFits(version);
    AlignmentCoordinates(version)
  }

  /** The tracks getAlignmentCoordinates computes, which the program as written draws. */
  function TracksAsWritten(version: nat): (tracks: seq<int>)
    requires Supported(version)
    ensures AlignmentLayout(version, tracks)
  {
    AsWrittenFits(version);
    AlignmentCoordinatesAsWritten(version)
  }

  /** The three finder areas with their separators and format strips (lib/BitMatrix.js:215-217). */
  function FinderAreas(g: Grid): (h: Grid)
    requires IsSquare(g) && |g| >= 9
    ensures IsSquare(h) && |h| == |g|
  {
    var size := |g|;
    Paint(Paint(Paint(g, 0, 0, 9, 9, 1), 0, size - 8, 8, 9, 1), size - 8, 0, 9, 8, 1)
  }

  /** The two timing strips and the dark module (lib/BitMatrix.js:235-238). */
  function TimingAreas(g: Grid, version: nat): (h: Grid)
    requires IsSquare(g) && |g| == Size(version)
    ensures IsSquare(h) && |h| == |g|
  {
    var size := |g|;
    Put(Paint(Paint(g, 6, 9, 4 * version, 1, 1), 9, 6, 1, 4 * version, 1), size - 8, 8, 1)
  }

  /** The two version information blocks, from version 7 on (lib/BitMatrix.js:241-244). */
  function VersionAreas(g: Grid, version: nat): (h: Grid)
    requires IsSquare(g) && |g| == Size(version)
    ensures IsSquare(h) && |h| == |g|
  {
    var size := |g|;
    if version > 6 then Paint(Paint(g, 0, size - 11, 3, 6, 1), size - 11, 0, 6, 3, 1) else g
  }

  /** The matrix getModuleSequence walks: dark exactly where no data module may go. */
  function ReservedGrid(version: nat, tracks: seq<int>): (g: Grid)
    requires AlignmentLayout(version, tracks)
    ensures IsSquare(g) && |g| == Size(version)
  {
    var finders := FinderAreas(Blank(Size(version)));
    VersionAreas(TimingAreas(AlignFrom(finders, tracks, 0, false), version), version)
  }

  /**
   * The modules getModuleSequence darkens, one by one: the finder areas,
   * the alignment areas, the timing strips and, from version 7 on, the
   * version blocks. (The dark module lies inside the lower finder area.)
   */
  predicate ReservedModule(version: nat, tracks: seq<int>, r: nat, c: nat)
    requires AlignmentLayout(version, tracks)
  {
    var size := Size(version);
    (r < 9 && c < 9) || (r < 9 && size - 8 <= c) || (size - 8 <= r && c < 9) ||
    CoveredFrom(tracks, 0, r, c) ||
    (r == 6 && 9 <= c < 9 + 4 * version) || (c == 6 && 9 <= r < 9 + 4 * version) ||
    (version > 6 && ((r < 6 && size - 11 <= c < size - 8) || (size - 11 <= r < size - 8 && c < 6)))
  }

  lemma FinderAreasAt(g: Grid, r: nat, c: nat)
    requires IsSquare(g) && |g| >= 9 && r < |g| && c < |g|
    ensures FinderAreas(g)[r][c] == if (r < 9 && c < 9) || (r < 9 && |g| - 8 <= c) || (|g| - 8 <= r && c < 9) then 1 else g[r][c]
  {
  }

  lemma TimingAreasAt(g: Grid, version: nat, r: nat, c: nat)
    requires IsSquare(g) && |g| == Size(version) && r < |g| && c < |g|
    ensures TimingAreas(g, version)[r][c] ==
      if (r == 6 && 9 <= c < 9 + 4 * version) || (c == 6 && 9 <= r < 9 + 4 * version) || (r == |g| - 8 && c == 8) then 1 else g[r][c]
  {
  }

  lemma VersionAreasAt(g: Grid, version: nat, r: nat, c: nat)
    requires IsSquare(g) && |g| == Size(version) && r < |g| && c < |g|
    ensures VersionAreas(g, version)[r][c] ==
      if version > 6 && ((r < 6 && |g| - 11 <= c < |g| - 8) || (|g| - 11 <= r < |g| - 8 && c < 6)) then 1 else g[r][c]
  {
  }

  /** A module of the reserved grid is dark exactly when it is reserved. */
  lemma ReservedAt(version: nat, tracks: seq<int>, r: nat, c: nat)
    requires AlignmentLayout(version, tracks) && r < Size(version) && c < Size(version)
    ensures ReservedGrid(version, tracks)[r][c] == if ReservedModule(version, tracks, r, c) then 1 else 0
  {
    var size := Size(version);
    var blank := Blank(size);
    var finders := FinderAreas(blank);
    FinderAreasAt(blank, r, c);
    var aligned := AlignFrom(finders, tracks, 0, false);
    AlignFromReserves(finders, tracks, 0, r, c);
    var timed := TimingAreas(aligned, version);
    TimingAreasAt(aligned, version, r, c);
    VersionAreasAt(timed, version, r, c);
  }

  /** The rows of the alignment tracks lie more than two modules above row `r`. */
  lemma {:induction false} RowCoversBelow(tracks: seq<int>, ri: nat, ci: nat, r: int, c: int)
    requires ri < |tracks| && ci <= |tracks| && tracks[ri] + 2 < r
    ensures !RowCovers(tracks, ri, ci, r, c)
    decreases |tracks| - ci
  {
    if ci < |tracks| {
      RowCoversBelow(tracks, ri, ci + 1, r, c);
    }
  }

  lemma {:induction false} CoveredBelow(tracks: seq<int>, ri: nat, r: int, c: int)
    requires forall i :: 0 <= i < |tracks| ==> tracks[i] + 2 < r
    ensures !CoveredFrom(tracks, ri, r, c)
    decreases |tracks| - ri
  {
    if ri < |tracks| {
      RowCoversBelow(tracks, ri, 0, r, c);
      CoveredBelow(tracks, ri + 1, r, c);
    }
  }

  // ---------------------------------------------------------------------
  // Positions of the walk

  /** The sizes the walk is defined for: odd, with the column pair (8, 7) inside. */
  predicate WalkSize(size: nat) {
    size % 2 == 1 && size >= 9
  }

  lemma SizeWalks(version: nat)
    requires Supported(version)
    ensures WalkSize(Size(version))
  {
  }

  /** The number of column pairs: every column but column 6, two at a time (the size is odd). */
  function Pairs(size: nat): nat {
    size / 2
  }

  /** The right column of pair `pair`; from column 7 leftwards the pairs shift by one to pass column 6. */
  function RightColumn(size: nat, pair: nat): int {
    if size - 1 - 2 * pair >= 8 then size - 1 - 2 * pair else size - 2 - 2 * pair
  }

  datatype Key = Key(pair: nat, step: nat, side: nat)

  predicate ValidKey(size: nat, k: Key) {
    k.pair < Pairs(size) && k.step < size && k.side < 2
  }

  /** The module the walk visits at `k`: even pairs run upwards, odd pairs downwards. */
  function At(size: nat, k: Key): (cell: (nat, nat))
    requires WalkSize(size) && ValidKey(size, k)
    ensures cell.0 < size && cell.1 < size && cell.1 != 6
  {
    var column := RightColumn(size, k.pair) - k.side;
    (if k.pair % 2 == 0 then size - 1 - k.step else k.step, column)
  }

  /** The position at which the walk visits (row, column). */
  function KeyOf(size: nat, cell: (nat, nat)): (k: Key)
    requires WalkSize(size) && cell.0 < size && cell.1 < size && cell.1 != 6
    ensures ValidKey(size, k) && At(size, k) == cell
  {
    var (row, column) := cell;
    var distance := if column >= 7 then size - 1 - column else size - 2 - column;
    var pair := distance / 2;
    Key(pair, if pair % 2 == 0 then size - 1 - row else row, distance % 2)
  }

  /** Visiting a position and asking for its key gives the position back. */
  lemma KeyRoundTrip(size: nat, k: Key)
    requires WalkSize(size) && ValidKey(size, k)
    ensures KeyOf(size, At(size, k)) == k
  {
    var column := RightColumn(size, k.pair) - k.side;
    if size - 1 - 2 * k.pair >= 8 {
      assert column >= 7;
      assert size - 1 - column == 2 * k.pair + k.side;
    } else {
      assert column <= 5;
      assert size - 2 - column == 2 * k.pair + k.side;
    }
  }

  /** The walk never visits one module twice. */
  lemma AtInjective(size: nat, a: Key, b: Key)
    requires WalkSize(size) && ValidKey(size, a) && ValidKey(size, b)
    requires At(size, a) == At(size, b)
    ensures a == b
  {
    KeyRoundTrip(size, a);
    KeyRoundTrip(size, b);
  }

  /** The walk order on positions. */
  predicate Before(a: Key, b: Key) {
    a.pair < b.pair || (a.pair == b.pair && (a.step < b.step || (a.step == b.step && a.side < b.side)))
  }

  /** The position after `k`: left of it, else one step along the pair, else into the next pair. */
  function Next(size: nat, k: Key): (n: Key)
    ensures Before(k, n)
  {
    if k.side == 0 then Key(k.pair, k.step, 1)
    else if k.step + 1 < size then Key(k.pair, k.step + 1, 0)
    else Key(k.pair + 1, 0, 0)
  }

  /** A position of the walk, or the end of it (the first step of the pair after the last). */
  predicate Reached(size: nat, k: Key) {
    (k.pair < Pairs(size) && k.step < size && k.side < 2) || k == Key(Pairs(size), 0, 0)
  }

  /** The light modules of `g` that the walk visits from `k` on, in order. */
  function FreeFrom(g: Grid, k: Key): seq<(nat, nat)>
    requires IsSquare(g) && WalkSize(|g|) && Reached(|g|, k)
    decreases Pairs(|g|) - k.pair, |g| - k.step, 2 - k.side
  {
    if k.pair == Pairs(|g|) then []
    else
      var cell := At(|g|, k);
      (if g[cell.0][cell.1] == 0 then [cell] else []) + FreeFrom(g, Next(|g|, k))
  }

  lemma FreeFromUnfold(g: Grid, k: Key)
    requires IsSquare(g) && WalkSize(|g|) && ValidKey(|g|, k)
    ensures var cell := At(|g|, k);
            FreeFrom(g, k) == (if g[cell.0][cell.1] == 0 then [cell] else []) + FreeFrom(g, Next(|g|, k))
  {
  }

  /** The value getModuleSequence returns. */
  function ModuleSequence(version: nat, tracks: seq<int>): (s: seq<(nat, nat)>)
    requires AlignmentLayout(version, tracks)
    ensures forall j :: 0 <= j < |s| ==> s[j].0 < Size(version) && s[j].1 < Size(version)
  {
    SizeWalks(version);
    FreeFromOrdered(ReservedGrid(version, tracks), Key(0, 0, 0));
    FreeFrom(ReservedGrid(version, tracks), Key(0, 0, 0))
  }

  // ---------------------------------------------------------------------
  // What the walk lists

  /** Every module listed from `k` on is light in `g`, not in column 6, and visited at `k` or later. */
  lemma {:induction false} FreeFromMembers(g: Grid, k: Key, cell: (nat, nat))
    requires IsSquare(g) && WalkSize(|g|) && Reached(|g|, k)
    requires cell in FreeFrom(g, k)
    ensures cell.0 < |g| && cell.1 < |g| && cell.1 != 6 && g[cell.0][cell.1] == 0
    ensures !Before(KeyOf(|g|, cell), k)
    decreases Pairs(|g|) - k.pair, |g| - k.step, 2 - k.side
  {
    var size := |g|;
    var here := At(size, k);
    if cell == here && g[here.0][here.1] == 0 {
      KeyRoundTrip(size, k);
    } else {
      var n := Next(size, k);
      assert cell in FreeFrom(g, n);
      FreeFromMembers(g, n, cell);
    }
  }

  /** Every light module outside column 6 visited at `k` or later is listed. */
  lemma {:induction false} FreeFromComplete(g: Grid, k: Key, cell: (nat, nat))
    requires IsSquare(g) && WalkSize(|g|) && Reached(|g|, k)
    requires cell.0 < |g| && cell.1 < |g| && cell.1 != 6 && g[cell.0][cell.1] == 0
    requires !Before(KeyOf(|g|, cell), k)
    ensures cell in FreeFrom(g, k)
    decreases Pairs(|g|) - k.pair, |g| - k.step, 2 - k.side
  {
    var size := |g|;
    if k.pair < Pairs(size) {
      if KeyOf(size, cell) != k {
        FreeFromComplete(g, Next(size, k), cell);
      }
    }
  }

  /** The walk lists modules in the order it visits them. */
  predicate InWalkOrder(size: nat, s: seq<(nat, nat)>)
    requires WalkSize(size)
    requires forall j :: 0 <= j < |s| ==> s[j].0 < size && s[j].1 < size && s[j].1 != 6
  {
    forall j, l :: 0 <= j < l < |s| ==> Before(KeyOf(size, s[j]), KeyOf(size, s[l]))
  }

  lemma {:induction false} FreeFromOrdered(g: Grid, k: Key)
    requires IsSquare(g) && WalkSize(|g|) && Reached(|g|, k)
    ensures forall j :: 0 <= j < |FreeFrom(g, k)| ==> FreeFrom(g, k)[j] in FreeFrom(g, k)
    ensures forall j :: 0 <= j < |FreeFrom(g, k)| ==> FreeFrom(g, k)[j].0 < |g| && FreeFrom(g, k)[j].1 < |g| && FreeFrom(g, k)[j].1 != 6
    ensures InWalkOrder(|g|, FreeFrom(g, k))
    decreases Pairs(|g|) - k.pair, |g| - k.step, 2 - k.side
  {
    var size := |g|;
    var s := FreeFrom(g, k);
    forall j | 0 <= j < |s|
      ensures s[j].0 < size && s[j].1 < size && s[j].1 != 6
    {
      FreeFromMembers(g, k, s[j]);
    }
    if k.pair < Pairs(size) {
      var n := Next(size, k);
      var rest := FreeFrom(g, n);
      FreeFromOrdered(g, n);
      var here := At(size, k);
      if g[here.0][here.1] == 0 {
        assert s == [here] + rest;
        KeyRoundTrip(size, k);
        forall l | 0 <= l < |rest|
          ensures Before(k, KeyOf(size, rest[l]))
        {
          FreeFromMembers(g, n, rest[l]);
        }
        OrderedCons(size, k, here, rest);
      } else {
        assert s == rest;
      }
    }
  }

  /** A module visited before every module of a list in walk order heads a list in walk order. */
  lemma OrderedCons(size: nat, k: Key, here: (nat, nat), rest: seq<(nat, nat)>)
    requires WalkSize(size) && here.0 < size && here.1 < size && here.1 != 6 && KeyOf(size, here) == k
    requires forall j :: 0 <= j < |rest| ==> rest[j].0 < size && rest[j].1 < size && rest[j].1 != 6
    requires InWalkOrder(size, rest)
    requires forall l :: 0 <= l < |rest| ==> Before(k, KeyOf(size, rest[l]))
    ensures forall j :: 0 <= j < |[here] + rest| ==> ([here] + rest)[j].0 < size && ([here] + rest)[j].1 < size && ([here] + rest)[j].1 != 6
    ensures InWalkOrder(size, [here] + rest)
  {
    var s := [here] + rest;
    forall j, l | 0 <= j < l < |s|
      ensures Before(KeyOf(size, s[j]), KeyOf(size, s[l]))
    {
      assert s[l] == rest[l - 1];
      if j > 0 {
        assert s[j] == rest[j - 1];
      }
    }
  }

  /** Modules listed in walk order are all different. */
  lemma OrderedDistinct(size: nat, s: seq<(nat, nat)>)
    requires WalkSize(size)
    requires forall j :: 0 <= j < |s| ==> s[j].0 < size && s[j].1 < size && s[j].1 != 6
    requires InWalkOrder(size, s)
    ensures forall j, l :: 0 <= j < l < |s| ==> s[j] != s[l]
  {
    forall j, l | 0 <= j < l < |s|
      ensures s[j] != s[l]
    {
      assert Before(KeyOf(size, s[j]), KeyOf(size, s[l]));
    }
  }

  /**
   * The module sequence lists exactly the modules left light by the
   * reserved areas outside column 6, each once, in walk order.
   */
  lemma ModuleSequenceExact(version: nat, tracks: seq<int>)
    requires AlignmentLayout(version, tracks)
    ensures var s := ModuleSequence(version, tracks);
            var g := ReservedGrid(version, tracks);
            var size := Size(version);
            (forall j :: 0 <= j < |s| ==> s[j].0 < size && s[j].1 < size && s[j].1 != 6 && g[s[j].0][s[j].1] == 0) &&
            (forall j, l :: 0 <= j < l < |s| ==> s[j] != s[l]) &&
            (forall r: nat, c: nat :: r < size && c < size && c != 6 && g[r][c] == 0 ==> (r, c) in s)
  {
    SizeWalks(version);
    var g := ReservedGrid(version, tracks);
    var size := Size(version);
    var s := ModuleSequence(version, tracks);
    var start := Key(0, 0, 0);
    FreeFromOrdered(g, start);
    OrderedDistinct(size, s);
    forall j | 0 <= j < |s|
      ensures g[s[j].0][s[j].1] == 0
    {
      FreeFromMembers(g, start, s[j]);
    }
    forall r: nat, c: nat | r < size && c < size && c != 6 && g[r][c] == 0
      ensures (r, c) in s
    {
      FreeFromComplete(g, start, (r, c));
    }
  }

  // ---------------------------------------------------------------------
  // getModuleSequence

  /** Lines 215-217: the finder areas. */
  method ReserveFinders(matrix: BitMatrix)
    requires matrix.Valid() && matrix.size >= 9
    modifies matrix.cells
    ensures matrix.Snapshot() == FinderAreas(old(matrix.Snapshot()))
  {
    var size := matrix.size;
    FillBitArea(matrix, 0, 0, 9, 9, 1);
    FillBitArea(matrix, 0, size - 8, 8, 9, 1);
    FillBitArea(matrix, size - 8, 0, 9, 8, 1);
  }

  /** Lines 235-238: the timing strips and the dark module. */
  method ReserveTiming(matrix: BitMatrix, version: nat)
    requires matrix.Valid() && matrix.size == Size(version)
    modifies matrix.cells
    ensures matrix.Snapshot() == TimingAreas(old(matrix.Snapshot()), version)
  {
    var size := matrix.size;
    FillBitArea(matrix, 6, 9, version * 4, 1, 1);
    FillBitArea(matrix, 9, 6, 1, version * 4, 1);
    matrix.SetBit(size - 8, 8, 1);
  }

  /** Lines 241-244: the version information blocks. */
  method ReserveVersion(matrix: BitMatrix, version: nat)
    requires matrix.Valid() && matrix.size == Size(version)
    modifies matrix.cells
    ensures matrix.Snapshot() == VersionAreas(old(matrix.Snapshot()), version)
  {
    var size := matrix.size;
    if version > 6 {
      FillBitArea(matrix, 0, size - 11, 3, 6, 1);
      FillBitArea(matrix, size - 11, 0, 6, 3, 1);
    }
  }

  /**
   * The reserving part of getModuleSequence, on the freshly allocated
   * matrix (lib/BitMatrix.js:211-245), given the tracks line 220 computes.
   */
  method Reserve(matrix: BitMatrix, version: nat, alignmentTracks: seq<int>)
    requires AlignmentLayout(version, alignmentTracks)
    requires matrix.Valid() && matrix.size == Size(version) && matrix.Snapshot() == Blank(matrix.size)
    modifies matrix.cells
    ensures matrix.Snapshot() == ReservedGrid(version, alignmentTracks)
  {
    ReserveFinders(matrix);
    PlaceAlignments(matrix, alignmentTracks, false);
    ReserveTiming(matrix, version);
    ReserveVersion(matrix, version);
  }

  /**
   * The variables of the walk at key `k`: `row` and `column` are the module
   * at `k` (column -1 once the walk is over), the parity of `index` is the
   * side, and `rowStep` the direction of the pair.
   */
  predicate Cursor(size: nat, k: Key, row: int, column: int, rowStep: int, index: nat) {
    WalkSize(size) && Reached(size, k) &&
    (k.pair < Pairs(size) ==> row == At(size, k).0 && column == At(size, k).1) &&
    (k.pair == Pairs(size) ==> column == -1) &&
    index % 2 == k.side &&
    rowStep == (if k.pair % 2 == 0 then -1 else 1)
  }

  /**
   * One move of the walk (lib/BitMatrix.js:257-269): after a right module
   * step left; after a left module step along the pair, and past an edge
   * turn round and move to the next pair, two columns at once from column 7.
   */
  method Advance(size: nat, row: int, column: int, rowStep: int, index: nat, ghost k: Key)
    returns (nextRow: int, nextColumn: int, nextStep: int, ghost n: Key)
    requires WalkSize(size) && ValidKey(size, k) && Cursor(size, k, row, column, rowStep, index)
    ensures n == Next(size, k) && Cursor(size, n, nextRow, nextColumn, nextStep, index + 1)
  {
    n := Next(size, k);
    nextRow, nextColumn, nextStep := row, column, rowStep;
    if index % 2 == 1 {
      nextRow := nextRow + nextStep;
      if nextRow == -1 || nextRow == size {
        nextStep := -nextStep;
        nextRow := nextRow + nextStep;
        nextColumn := nextColumn - if nextColumn == 7 then 2 else 1;
      } else {
        nextColumn := nextColumn + 1;
      }
    } else {
      nextColumn := nextColumn - 1;
    }
  }

  /** Lines 249-251: a light module joins the sequence. */
  method Visit(matrix: BitMatrix, row: nat, column: nat, sequence: seq<(nat, nat)>, ghost k: Key)
    returns (extended: seq<(nat, nat)>)
    requires matrix.Valid() && WalkSize(matrix.size) && ValidKey(matrix.size, k)
    requires (row, column) == At(matrix.size, k)
    ensures extended + FreeFrom(matrix.Snapshot(), Next(matrix.size, k)) == sequence + FreeFrom(matrix.Snapshot(), k)
  {
    FreeFromUnfold(matrix.Snapshot(), k);
    extended := sequence;
    if matrix.Get(row, column) == 0 {
      extended := extended + [(row, column)];
    }
  }

  /** The walk itself over a reserved matrix (lib/BitMatrix.js:247-275). */
  method Collect(matrix: BitMatrix) returns (sequence: seq<(nat, nat)>)
    requires matrix.Valid() && WalkSize(matrix.size)
    ensures sequence == FreeFrom(matrix.Snapshot(), Key(0, 0, 0))
  {
    var size := matrix.size;
    ghost var g := matrix.Snapshot();
    var rowStep := -1;
    var row: int := size - 1;
    var column: int := size - 1;
    sequence := [];
    var index := 0;
    ghost var k := Key(0, 0, 0);
    while column >= 0
      invariant Cursor(size, k, row, column, rowStep, index)
      invariant sequence + FreeFrom(g, k) == FreeFrom(g, Key(0, 0, 0))
      decreases Pairs(size) - k.pair, size - k.step, 2 - k.side
    {
      sequence := Visit(matrix, row, column, sequence, k);
      row, column, rowStep, k := Advance(size, row, column, rowStep, index, k);
      index := index + 1;
    }
  }

  /**
   * `getModuleSequence` (lib/BitMatrix.js:210-276). The tracks that line 220
   * asks getAlignmentCoordinates for are given: as written they are
   * `AlignmentCoordinatesAsWritten(version)`.
   */
  method GetModuleSequence(version: nat, alignmentTracks: seq<int>) returns (sequence: seq<(nat, nat)>)
    requires AlignmentLayout(version, alignmentTracks)
    ensures sequence == ModuleSequence(version, alignmentTracks)
  {
    var matrix := BitMatrix.Alloc(version);
    Reserve(matrix, version, alignmentTracks);
    SizeWalks(version);
    sequence := Collect(matrix);
  }

  /** A walk over a grid whose lower right module is light lists that module first. */
  lemma FreeFromStarts(g: Grid)
    requires IsSquare(g) && WalkSize(|g|) && g[|g| - 1][|g| - 1] == 0
    ensures var s := FreeFrom(g, Key(0, 0, 0));
            |s| > 0 && s[0] == (|g| - 1, |g| - 1)
  {
    FreeFromUnfold(g, Key(0, 0, 0));
  }

  /**
   * The lower right corner is never reserved: no pattern reaches it, so
   * (FreeFromStarts) the walk of every version starts there.
   */
  lemma CornerFree(version: nat, tracks: seq<int>)
    requires AlignmentLayout(version, tracks)
    ensures var g := ReservedGrid(version, tracks);
            |g| == Size(version) && IsSquare(g) && g[|g| - 1][|g| - 1] == 0
  {
    var size := Size(version);
    CoveredBelow(tracks, 0, size - 1, size - 1);
    assert !ReservedModule(version, tracks, size - 1, size - 1);
    ReservedAt(version, tracks, size - 1, size - 1);
  }
}
