/**
 * The loop over pairs of alignment tracks that lib/BitMatrix.js runs twice:
 * once to reserve the 5 x 5 area of each alignment pattern before the
 * module sequence is walked (lines 219-232), once to draw the patterns
 * (lines 336-352). Pairs next to a finder pattern are skipped.
 */
module Areas {
  import opened Patterns
  import opened Penalty
  import opened Matrix

  predicate IsSquare(g: Grid) {
    Square(g, |g|)
  }

  /** The pairs of tracks that would overlap a finder pattern (lib/BitMatrix.js:224-229, 341-346). */
  predicate Skipped(rowIndex: nat, columnIndex: nat, lastTrack: int) {
    (rowIndex == 0 && (columnIndex == 0 || columnIndex == lastTrack)) || (columnIndex == 0 && rowIndex == lastTrack)
  }

  /** Every track leaves room for a 5 x 5 pattern centred on it. */
  predicate TracksFit(tracks: seq<int>, size: nat) {
    forall i :: 0 <= i < |tracks| ==> 2 <= tracks[i] && tracks[i] + 3 <= size
  }

  /** A 5 x 5 dark square, its inner 3 x 3 made light, its centre dark (lib/BitMatrix.js:348-350). */
  function Draw(g: Grid, row: nat, column: nat): (h: Grid)
    requires IsSquare(g) && 2 <= row && 2 <= column && row + 3 <= |g| && column + 3 <= |g|
    ensures IsSquare(h) && |h| == |g|
  {
    Put(Paint(Paint(g, row - 2, column - 2, 5, 5, 1), row - 1, column - 1, 3, 3, 0), row, column, 1)
  }

  /** The cell (r, c) lies in the 5 x 5 area centred on (row, column). */
  predicate Near(row: int, column: int, r: int, c: int) {
    row - 2 <= r <= row + 2 && column - 2 <= c <= column + 2
  }

  /** An alignment pattern: dark on its outer ring and at its centre, light in between. */
  lemma DrawShape(g: Grid, row: nat, column: nat, r: nat, c: nat)
    requires IsSquare(g) && 2 <= row && 2 <= column && row + 3 <= |g| && column + 3 <= |g|
    requires r < |g| && c < |g|
    ensures Draw(g, row, column)[r][c] ==
      if !Near(row, column, r, c) then g[r][c]
      else if (r == row && c == column) || r == row - 2 || r == row + 2 || c == column - 2 || c == column + 2 then 1
      else 0
  {
  }

  /** What one pair of tracks does: nothing when skipped, else draw or reserve its area. */
  function Pattern(g: Grid, tracks: seq<int>, ri: nat, ci: nat, draw: bool): (h: Grid)
    requires IsSquare(g) && TracksFit(tracks, |g|) && ri < |tracks| && ci < |tracks|
    ensures IsSquare(h) && |h| == |g|
  {
    if Skipped(ri, ci, |tracks| - 1) then g
    else if draw then Draw(g, tracks[ri], tracks[ci])
    else Paint(g, tracks[ri] - 2, tracks[ci] - 2, 5, 5, 1)
  }

  /** The pairs (`ri`, `ci`), (`ri`, `ci` + 1), ... of one row index: the inner `forEach`. */
  function RowFrom(g: Grid, tracks: seq<int>, ri: nat, ci: nat, draw: bool): (h: Grid)
    requires IsSquare(g) && TracksFit(tracks, |g|) && ri < |tracks| && ci <= |tracks|
    ensures IsSquare(h) && |h| == |g|
    decreases |tracks| - ci
  {
    if ci == |tracks| then g
    else RowFrom(Pattern(g, tracks, ri, ci, draw), tracks, ri, ci + 1, draw)
  }

  /** The row indices from `ri` on: the outer `forEach`. */
  function AlignFrom(g: Grid, tracks: seq<int>, ri: nat, draw: bool): (h: Grid)
    requires IsSquare(g) && TracksFit(tracks, |g|)
    ensures IsSquare(h) && |h| == |g|
    decreases |tracks| - ri
  {
    if ri >= |tracks| then g
    else AlignFrom(RowFrom(g, tracks, ri, 0, draw), tracks, ri + 1, draw)
  }

  /** Some pair (`ri`, `ci`), (`ri`, `ci` + 1), ... is not skipped and has (r, c) in its area. */
  predicate RowCovers(tracks: seq<int>, ri: nat, ci: nat, r: int, c: int)
    requires ri < |tracks| && ci <= |tracks|
    decreases |tracks| - ci
  {
    if ci == |tracks| then false
    else (!Skipped(ri, ci, |tracks| - 1) && Near(tracks[ri], tracks[ci], r, c)) || RowCovers(tracks, ri, ci + 1, r, c)
  }

  /** Some pair with row index `ri` or later is not skipped and has (r, c) in its area. */
  predicate CoveredFrom(tracks: seq<int>, ri: nat, r: int, c: int)
    decreases |tracks| - ri
  {
    if ri >= |tracks| then false
    else RowCovers(tracks, ri, 0, r, c) || CoveredFrom(tracks, ri + 1, r, c)
  }

  /** The tracks fit the square grid `g` and (r, c) is one of its cells. */
  predicate InGrid(g: Grid, tracks: seq<int>, r: int, c: int) {
    IsSquare(g) && TracksFit(tracks, |g|) && 0 <= r < |g| && 0 <= c < |g|
  }

  lemma {:induction false} RowOutside(g: Grid, tracks: seq<int>, ri: nat, ci: nat, draw: bool, r: nat, c: nat)
    requires InGrid(g, tracks, r, c) && ri < |tracks| && ci <= |tracks|
    requires !RowCovers(tracks, ri, ci, r, c)
    ensures RowFrom(g, tracks, ri, ci, draw)[r][c] == g[r][c]
    decreases |tracks| - ci
  {
    if ci < |tracks| {
      RowOutside(Pattern(g, tracks, ri, ci, draw), tracks, ri, ci + 1, draw, r, c);
    }
  }

  /** Neither loop touches a cell outside the areas of the pairs it does not skip. */
  lemma {:induction false} AlignFromOutside(g: Grid, tracks: seq<int>, ri: nat, draw: bool, r: nat, c: nat)
    requires InGrid(g, tracks, r, c)
    requires !CoveredFrom(tracks, ri, r, c)
    ensures AlignFrom(g, tracks, ri, draw)[r][c] == g[r][c]
    decreases |tracks| - ri
  {
    if ri < |tracks| {
      RowOutside(g, tracks, ri, 0, draw, r, c);
      AlignFromOutside(RowFrom(g, tracks, ri, 0, draw), tracks, ri + 1, draw, r, c);
    }
  }

  lemma {:induction false} RowReserves(g: Grid, tracks: seq<int>, ri: nat, ci: nat, r: nat, c: nat)
    requires InGrid(g, tracks, r, c) && ri < |tracks| && ci <= |tracks|
    ensures RowFrom(g, tracks, ri, ci, false)[r][c] == if RowCovers(tracks, ri, ci, r, c) then 1 else g[r][c]
    decreases |tracks| - ci
  {
    if ci < |tracks| {
      PatternReserves(g, tracks, ri, ci, r, c);
      RowReserves(Pattern(g, tracks, ri, ci, false), tracks, ri, ci + 1, r, c);
    }
  }

  /** Reserving makes exactly the covered cells dark and keeps every other cell as it was. */
  lemma {:induction false} AlignFromReserves(g: Grid, tracks: seq<int>, ri: nat, r: nat, c: nat)
    requires InGrid(g, tracks, r, c)
    ensures AlignFrom(g, tracks, ri, false)[r][c] == if CoveredFrom(tracks, ri, r, c) then 1 else g[r][c]
    decreases |tracks| - ri
  {
    if ri < |tracks| {
      var h := RowFrom(g, tracks, ri, 0, false);
      RowReserves(g, tracks, ri, 0, r, c);
      AlignFromReserves(h, tracks, ri + 1, r, c);
      ReservesStep(g, tracks, ri, r, c);
    }
  }

  /** One row index of `AlignFrom`: its own reservations, then those of the later rows. */
  lemma ReservesStep(g: Grid, tracks: seq<int>, ri: nat, r: nat, c: nat)
    requires InGrid(g, tracks, r, c) && ri < |tracks|
    requires RowFrom(g, tracks, ri, 0, false)[r][c] == if RowCovers(tracks, ri, 0, r, c) then 1 else g[r][c]
    requires var h := RowFrom(g, tracks, ri, 0, false);
             AlignFrom(h, tracks, ri + 1, false)[r][c] == if CoveredFrom(tracks, ri + 1, r, c) then 1 else h[r][c]
    ensures AlignFrom(g, tracks, ri, false)[r][c] == if CoveredFrom(tracks, ri, r, c) then 1 else g[r][c]
  {
    var h := RowFrom(g, tracks, ri, 0, false);
    AlignFromUnfold(g, tracks, ri);
    ReservedTwice(AlignFrom(h, tracks, ri + 1, false)[r][c], h[r][c], g[r][c], RowCovers(tracks, ri, 0, r, c), CoveredFrom(tracks, ri + 1, r, c));
  }

  /** A cell reserved over a cell reserved over `x` is reserved when either step covers it. */
  lemma ReservedTwice(a: Cell, b: Cell, x: Cell, first: bool, second: bool)
    requires b == (if first then 1 else x) && a == (if second then 1 else b)
    ensures a == if first || second then 1 else x
  {
  }

  lemma AlignFromUnfold(g: Grid, tracks: seq<int>, ri: nat)
    requires IsSquare(g) && TracksFit(tracks, |g|) && ri < |tracks|
    ensures AlignFrom(g, tracks, ri, false) == AlignFrom(RowFrom(g, tracks, ri, 0, false), tracks, ri + 1, false)
  {
  }

  lemma PatternReserves(g: Grid, tracks: seq<int>, ri: nat, ci: nat, r: nat, c: nat)
    requires IsSquare(g) && TracksFit(tracks, |g|) && ri < |tracks| && ci < |tracks| && r < |g| && c < |g|
    ensures Pattern(g, tracks, ri, ci, false)[r][c] ==
      if !Skipped(ri, ci, |tracks| - 1) && Near(tracks[ri], tracks[ci], r, c) then 1 else g[r][c]
  {
  }

  /** The body of the inner `forEach`: one pair of tracks. */
  method PlacePair(matrix: BitMatrix, tracks: seq<int>, rowIndex: nat, columnIndex: nat, draw: bool)
    requires matrix.Valid() && TracksFit(tracks, matrix.size) && rowIndex < |tracks| && columnIndex < |tracks|
    modifies matrix.cells
    ensures matrix.Snapshot() == Pattern(old(matrix.Snapshot()), tracks, rowIndex, columnIndex, draw)
  {
    ghost var before := matrix.Snapshot();
    var lastTrack := |tracks| - 1;
    var row := tracks[rowIndex];
    var column := tracks[columnIndex];
    if (rowIndex == 0 && (columnIndex == 0 || columnIndex == lastTrack)) || (columnIndex == 0 && rowIndex == lastTrack) {
      return;
    }
    FillBitArea(matrix, row - 2, column - 2, 5, 5, 1);
    ghost var reserved := matrix.Snapshot();
    if draw {
      DrawCentre(matrix, row, column);
    }
    PairPlaced(before, reserved, matrix.Snapshot(), tracks, rowIndex, columnIndex, row, column, draw);
  }

  /** The writes of one pair, reserving its area and then, when drawing, its inner ring and centre, make its pattern. */
  lemma PairPlaced(before: Grid, reserved: Grid, after: Grid, tracks: seq<int>, ri: nat, ci: nat, row: nat, column: nat, draw: bool)
    requires IsSquare(before) && TracksFit(tracks, |before|) && ri < |tracks| && ci < |tracks|
    requires !Skipped(ri, ci, |tracks| - 1) && row == tracks[ri] && column == tracks[ci]
    requires reserved == Paint(before, row - 2, column - 2, 5, 5, 1)
    requires draw ==> row < |reserved| && column < |reserved[row]| &&
                      after == Put(Paint(reserved, row - 1, column - 1, 3, 3, 0), row, column, 1)
    requires !draw ==> after == reserved
    ensures after == Pattern(before, tracks, ri, ci, draw)
  {
  }

  /** Lines 349-350: the light inner ring and the dark centre of an alignment pattern. */
  method DrawCentre(matrix: BitMatrix, row: nat, column: nat)
    requires matrix.Valid() && 1 <= row && 1 <= column && row + 2 <= matrix.size && column + 2 <= matrix.size
    modifies matrix.cells
    ensures matrix.Snapshot() == Put(Paint(old(matrix.Snapshot()), row - 1, column - 1, 3, 3, 0), row, column, 1)
  {
    FillBitArea(matrix, row - 1, column - 1, 3, 3, 0);
    matrix.SetBit(row, column, 1);
  }

  /** The inner `forEach` for one row index. */
  method PlaceRow(matrix: BitMatrix, tracks: seq<int>, rowIndex: nat, draw: bool)
    requires matrix.Valid() && TracksFit(tracks, matrix.size) && rowIndex < |tracks|
    modifies matrix.cells
    ensures matrix.Snapshot() == RowFrom(old(matrix.Snapshot()), tracks, rowIndex, 0, draw)
  {
    ghost var target := RowFrom(matrix.Snapshot(), tracks, rowIndex, 0, draw);
    var columnIndex := 0;
    while columnIndex < |tracks|
      invariant columnIndex <= |tracks|
      invariant RowFrom(matrix.Snapshot(), tracks, rowIndex, columnIndex, draw) == target
    {
      PlacePair(matrix, tracks, rowIndex, columnIndex, draw);
      columnIndex := columnIndex + 1;
    }
  }

  /**
   * Both loops over the track pairs (lib/BitMatrix.js:219-232 with `draw`
   * false, 336-352 with `draw` true).
   */
  method PlaceAlignments(matrix: BitMatrix, tracks: seq<int>, draw: bool)
    requires matrix.Valid() && TracksFit(tracks, matrix.size)
    modifies matrix.cells
    ensures matrix.Snapshot() == AlignFrom(old(matrix.Snapshot()), tracks, 0, draw)
  {
    ghost var target := AlignFrom(matrix.Snapshot(), tracks, 0, draw);
    var rowIndex := 0;
    while rowIndex < |tracks|
      invariant rowIndex <= |tracks|
      invariant AlignFrom(matrix.Snapshot(), tracks, rowIndex, draw) == target
    {
      PlaceRow(matrix, tracks, rowIndex, draw);
      rowIndex := rowIndex + 1;
    }
  }
}
