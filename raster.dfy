/**
 * The pixel buffer the `QRPNG` constructor lays out (lib/QRPNG.js:39-73)
 * and the colour parsing of `hexToUint32` (lib/QRPNG.js:100-104).
 *
 * The image is `side` pixel rows of `side + 1` bytes each: a filter byte,
 * then one byte per pixel, 0 for dark and 0xFF for light, where `side` is
 * the symbol plus a margin on each side, `scale` pixels per module. The
 * buffer the constructor allocates is `scale` times as long as that; the
 * rows past the image keep the light fill.
 *
 * A dark module (i, j) is written from byte
 * `((margin + i) * (side + 1) + (margin + j)) * scale`: pixel row
 * `(margin + i) * scale` and byte `(margin + j) * scale` of that row, which
 * does not count the row's filter byte. `Pixel` states the result in those
 * (row, byte) coordinates.
 */
module Raster {
  import opened Bits
  import opened Wrappers
  import opened Patterns
  import opened Penalty
  import opened Matrix

  // ---------------------------------------------------------------------
  // Layout

  /** `X` (lib/QRPNG.js:43): the image side in pixels. */
  function Side(n: nat, scale: nat, margin: nat): nat {
    (n + 2 * margin) * scale
  }

  /** The length of the buffer `ByteView.alloc` is given (lib/QRPNG.js:44). */
  function BufferLength(n: nat, scale: nat, margin: nat): nat {
    (Side(n, scale, margin) + 1) * Side(n, scale, margin) * scale
  }

  /** The index of byte `k` of pixel row `r`, rows being `side + 1` bytes long. */
  function At(r: nat, k: nat, side: nat): nat {
    r * (side + 1) + k
  }

  /** Pixel row (or byte of a row) `v` falls on the symbol, not on a margin. */
  predicate Within(v: nat, n: nat, scale: nat, margin: nat) {
    margin * scale <= v < (margin + n) * scale
  }

  /** The first pixel row (or row byte) of module row (or column) `i`. */
  function Lo(i: nat, scale: nat, margin: nat): nat {
    (margin + i) * scale
  }

  /** Byte `k` of pixel row `r` lies in the square of `scale` x `scale` pixels of module (`i`, `j`). */
  predicate InSquare(r: nat, k: nat, i: nat, j: nat, scale: nat, margin: nat) {
    Lo(i, scale, margin) <= r < Lo(i, scale, margin) + scale &&
    Lo(j, scale, margin) <= k < Lo(j, scale, margin) + scale
  }

  /** The module row (or column) pixel row (or row byte) `v` belongs to, counted from the symbol's edge. */
  function ModuleOf(v: nat, scale: nat, margin: nat): int
    requires scale > 0
  {
    Quot(v, scale) - margin
  }

  /** Module (`mi`, `mj`) comes before (`i`, `j`) in the constructor's row-by-row loop. */
  predicate Before(mi: int, mj: int, i: nat, j: nat) {
    mi < i || (mi == i && mj < j)
  }

  /** Module (`mi`, `mj`) is a dark module of `g` that the loop has drawn before reaching (`i`, `j`). */
  predicate DarkBefore(g: Grid, n: nat, mi: int, mj: int, i: nat, j: nat)
    requires Square(g, n)
  {
    0 <= mi < n && 0 <= mj < n && g[mi][mj] == 1 && Before(mi, mj, i, j)
  }

  /**
   * The byte at (`r`, `k`) once the constructor has drawn the modules before
   * (`i`, `j`): a filter byte of the image is 0, a byte inside the square of
   * a dark module already drawn is 0, every other byte is light.
   */
  function PixelBefore(g: Grid, n: nat, scale: nat, margin: nat, r: nat, k: nat, i: nat, j: nat): Byte
    requires Square(g, n)
  {
    if r < Side(n, scale, margin) && k == 0 then 0
    else if scale > 0 && Within(r, n, scale, margin) && Within(k, n, scale, margin) &&
            DarkBefore(g, n, ModuleOf(r, scale, margin), ModuleOf(k, scale, margin), i, j) then 0
    else 0xFF
  }

  /** The byte at (`r`, `k`) of the finished buffer: every module drawn. */
  function Pixel(g: Grid, n: nat, scale: nat, margin: nat, r: nat, k: nat): Byte
    requires Square(g, n)
  {
    PixelBefore(g, n, scale, margin, r, k, n, 0)
  }

  /** The buffer after the modules before (`i`, `j`) are drawn, byte by byte. */
  function ImageBefore(g: Grid, n: nat, scale: nat, margin: nat, i: nat, j: nat): (s: seq<Byte>)
    requires Square(g, n)
    ensures |s| == BufferLength(n, scale, margin)
  {
    var row := Side(n, scale, margin) + 1;
    seq(BufferLength(n, scale, margin), p requires 0 <= p =>
      PixelBefore(g, n, scale, margin, Quot(p, row), Rem(p, row), i, j))
  }

  /** The buffer the constructor leaves in `this.data`. */
  function Image(g: Grid, n: nat, scale: nat, margin: nat): (s: seq<Byte>)
    requires Square(g, n)
    ensures |s| == BufferLength(n, scale, margin)
  {
    ImageBefore(g, n, scale, margin, n, 0)
  }

  // ---------------------------------------------------------------------
  // Arithmetic

  /** `v` lies between `a * s` and `b * s` exactly when its quotient by `s` lies between `a` and `b`. */
  lemma QuotWithin(v: nat, s: nat, a: nat, b: nat)
    requires s > 0 && a * s <= v < b * s
    ensures a <= Quot(v, s) < b
  {
    var q := Quot(v, s);
    QuotRem(v, s);
    if q < a {
      MulLe(q + 1, a, s);
    } else if q >= b {
      MulLe(b, q, s);
    }
  }

  /** The pixel rows of module row `i` are those on the symbol whose module row is `i`. */
  lemma ModuleRows(v: nat, scale: nat, margin: nat, i: nat, n: nat)
    requires scale > 0 && i < n
    ensures Lo(i, scale, margin) <= v < Lo(i, scale, margin) + scale <==>
            Within(v, n, scale, margin) && ModuleOf(v, scale, margin) == i
  {
    var lo := Lo(i, scale, margin);
    MulLe(margin, margin + i, scale);
    MulLe(margin + i + 1, margin + n, scale);
    if lo <= v < lo + scale {
      QuotRemOf(margin + i, v - lo, scale);
    }
    if Within(v, n, scale, margin) && ModuleOf(v, scale, margin) == i {
      QuotRem(v, scale);
    }
  }

  /** The first byte the constructor writes for module (`i`, `j`) is byte `Lo(j)` of pixel row `Lo(i)`. */
  lemma StartIsAt(n: nat, scale: nat, margin: nat, i: nat, j: nat)
    ensures ((margin + i) * (Side(n, scale, margin) + 1) + (margin + j)) * scale ==
            At(Lo(i, scale, margin), Lo(j, scale, margin), Side(n, scale, margin))
  {
    var row := Side(n, scale, margin) + 1;
    assert ((margin + i) * row + (margin + j)) * scale == (margin + i) * row * scale + (margin + j) * scale;
    assert (margin + i) * row * scale == (margin + i) * scale * row;
  }

  /** A byte of a row of the symbol's square lies before the row's end. */
  lemma ByteInRow(n: nat, scale: nat, margin: nat, j: nat, e: nat)
    requires j < n && e < scale
    ensures Lo(j, scale, margin) + e < Side(n, scale, margin) + 1
  {
    MulLe(margin + j + 1, n + 2 * margin, scale);
  }

  /** Row `q` and byte `e` further on from byte `b` of row `a` is byte `b + e` of row `a + q`. */
  lemma Further(a: nat, b: nat, q: nat, e: nat, row: nat)
    requires b + e < row
    ensures At(a, b, row - 1) + (q * row + e) == At(a + q, b + e, row - 1)
    ensures Quot(At(a + q, b + e, row - 1), row) == a + q && Rem(At(a + q, b + e, row - 1), row) == b + e
  {
    assert (a + q) * row == a * row + q * row;
    QuotRemOf(a + q, b + e, row);
  }

  /** Byte `p` of the buffer is byte `Rem(p, side + 1)` of pixel row `Quot(p, side + 1)`. */
  lemma AtOfQuotRem(p: nat, side: nat)
    ensures p == At(Quot(p, side + 1), Rem(p, side + 1), side)
  {
    QuotRem(p, side + 1);
  }

  /** ... and conversely: `At` is one to one. */
  lemma AtInverse(r: nat, k: nat, side: nat)
    requires k <= side
    ensures Quot(At(r, k, side), side + 1) == r && Rem(At(r, k, side), side + 1) == k
  {
    QuotRemOf(r, k, side + 1);
  }

  /** The bytes of the first `scale` * `X + 1` rows lie inside the buffer. */
  lemma InBuffer(n: nat, scale: nat, margin: nat, r: nat, k: nat)
    requires r < Side(n, scale, margin) * scale && k <= Side(n, scale, margin)
    ensures At(r, k, Side(n, scale, margin)) < BufferLength(n, scale, margin)
  {
    var side := Side(n, scale, margin);
    MulLe(r + 1, side * scale, side + 1);
    assert (side + 1) * side * scale == side * scale * (side + 1);
  }

  /** The last pixel row of module row `i` lies inside the image. */
  lemma LastRow(n: nat, scale: nat, margin: nat, i: nat)
    requires 0 < scale && i < n
    ensures Lo(i, scale, margin) + scale <= Side(n, scale, margin) <= Side(n, scale, margin) * scale
  {
    MulLe(margin + i + 1, n + 2 * margin, scale);
    MulLe(1, scale, Side(n, scale, margin));
  }

  /** The byte the constructor writes `c` strides and `e` bytes on from the start of module (`i`, `j`): byte `Lo(j) + e` of row `Lo(i) + c`. */
  lemma ModuleByte(n: nat, scale: nat, margin: nat, i: nat, j: nat, c: nat, e: nat)
    requires i < n && j < n && c < scale && e < scale
    ensures var side := Side(n, scale, margin);
            At(Lo(i, scale, margin), Lo(j, scale, margin), side) + (c * (side + 1) + e) == At(Lo(i, scale, margin) + c, Lo(j, scale, margin) + e, side)
    ensures Lo(i, scale, margin) + c < Side(n, scale, margin) * scale && Lo(j, scale, margin) + e < Side(n, scale, margin)
  {
    ByteInRow(n, scale, margin, j, e);
    LastRow(n, scale, margin, i);
    LastRow(n, scale, margin, j);
    Further(Lo(i, scale, margin), Lo(j, scale, margin), c, e, Side(n, scale, margin) + 1);
  }

  /** The last byte written for module (`i`, `j`) lies inside the buffer. */
  lemma DrawFits(n: nat, scale: nat, margin: nat, i: nat, j: nat)
    requires 0 < scale && i < n && j < n
    ensures var side := Side(n, scale, margin);
            At(Lo(i, scale, margin), Lo(j, scale, margin), side) + (scale - 1) * (side + 1) + scale <= BufferLength(n, scale, margin)
  {
    ModuleByte(n, scale, margin, i, j, scale - 1, scale - 1);
    InBuffer(n, scale, margin, Lo(i, scale, margin) + scale - 1, Lo(j, scale, margin) + scale - 1);
  }

  /**
   * `p` is one of the bytes the constructor zeroes for a square written
   * from `offset`: among the first `count` rows of `width` bytes each, at
   * stride `row`.
   */
  predicate InRuns(p: nat, offset: nat, row: nat, width: nat, count: nat)
    requires row > 0
  {
    offset <= p && Quot(p - offset, row) < count && Rem(p - offset, row) < width
  }

  /** A byte the constructor zeroes for module (`i`, `j`) lies in its square. */
  lemma RunInSquare(n: nat, scale: nat, margin: nat, i: nat, j: nat, p: nat)
    requires scale > 0 && j < n
    requires InRuns(p, At(Lo(i, scale, margin), Lo(j, scale, margin), Side(n, scale, margin)), Side(n, scale, margin) + 1, scale, scale)
    ensures InSquare(Quot(p, Side(n, scale, margin) + 1), Rem(p, Side(n, scale, margin) + 1), i, j, scale, margin)
  {
    var row := Side(n, scale, margin) + 1;
    var offset := At(Lo(i, scale, margin), Lo(j, scale, margin), row - 1);
    var q, e := Quot(p - offset, row), Rem(p - offset, row);
    QuotRem(p - offset, row);
    ByteInRow(n, scale, margin, j, e);
    Further(Lo(i, scale, margin), Lo(j, scale, margin), q, e, row);
  }

  /** A byte in the square of module (`i`, `j`) is one the constructor zeroes for it. */
  lemma SquareInRun(n: nat, scale: nat, margin: nat, i: nat, j: nat, p: nat)
    requires scale > 0 && j < n
    requires InSquare(Quot(p, Side(n, scale, margin) + 1), Rem(p, Side(n, scale, margin) + 1), i, j, scale, margin)
    ensures InRuns(p, At(Lo(i, scale, margin), Lo(j, scale, margin), Side(n, scale, margin)), Side(n, scale, margin) + 1, scale, scale)
  {
    var row := Side(n, scale, margin) + 1;
    var r, k := Quot(p, row), Rem(p, row);
    var a, b := Lo(i, scale, margin), Lo(j, scale, margin);
    AtOfQuotRem(p, row - 1);
    Further(a, b, r - a, k - b, row);
    QuotRemOf(r - a, k - b, row);
  }

  /** The filter byte of every pixel row of the image lies inside the buffer and is 0 (lib/QRPNG.js:49-51). */
  lemma FilterBytes(g: Grid, n: nat, scale: nat, margin: nat, i: nat)
    requires Square(g, n) && i < Side(n, scale, margin)
    ensures var side := Side(n, scale, margin);
            i * (side + 1) < BufferLength(n, scale, margin) && Image(g, n, scale, margin)[i * (side + 1)] == 0
  {
    var side := Side(n, scale, margin);
    MulLe(1, scale, n + 2 * margin);
    InBuffer(n, scale, margin, i, 0);
    AtInverse(i, 0, side);
  }

  /**
   * For a dark module (`i`, `j`) the `scale` bytes from
   * `((margin + i) * (X + 1) + (margin + j)) * scale` are 0, and so are the
   * `scale` bytes at each of the next `scale - 1` strides of `X + 1`
   * (lib/QRPNG.js:55-64).
   */
  lemma DarkModuleBytes(g: Grid, n: nat, scale: nat, margin: nat, i: nat, j: nat, c: nat, e: nat)
    requires Square(g, n) && i < n && j < n && g[i][j] == 1 && c < scale && e < scale
    ensures var side := Side(n, scale, margin);
            var p := ((margin + i) * (side + 1) + (margin + j)) * scale + c * (side + 1) + e;
            0 <= p < |Image(g, n, scale, margin)| && Image(g, n, scale, margin)[p] == 0
  {
    var side := Side(n, scale, margin);
    var start := ((margin + i) * (side + 1) + (margin + j)) * scale;
    StartIsAt(n, scale, margin, i, j);
    ModuleByte(n, scale, margin, i, j, c, e);
    var r, k := Lo(i, scale, margin) + c, Lo(j, scale, margin) + e;
    assert start + c * (side + 1) + e == At(r, k, side);
    ImageAt(g, n, scale, margin, r, k);
    DarkPixel(g, n, scale, margin, i, j, r, k);
  }

  /** A byte in the square of a dark module is dark. */
  lemma DarkPixel(g: Grid, n: nat, scale: nat, margin: nat, i: nat, j: nat, r: nat, k: nat)
    requires Square(g, n) && i < n && j < n && g[i][j] == 1 && InSquare(r, k, i, j, scale, margin)
    ensures Pixel(g, n, scale, margin, r, k) == 0
  {
    ModuleRows(r, scale, margin, i, n);
    ModuleRows(k, scale, margin, j, n);
  }

  /**
   * Every other byte keeps the light fill: a byte that is neither a filter
   * byte nor inside the square of a dark module is 0xFF (lib/QRPNG.js:47, 55).
   */
  lemma LightBytes(g: Grid, n: nat, scale: nat, margin: nat, r: nat, k: nat)
    requires Square(g, n)
    requires r < Side(n, scale, margin) ==> k != 0
    requires forall i, j :: 0 <= i < n && 0 <= j < n && g[i][j] == 1 ==> !InSquare(r, k, i, j, scale, margin)
    ensures Pixel(g, n, scale, margin, r, k) == 0xFF
  {
    if scale > 0 && Within(r, n, scale, margin) && Within(k, n, scale, margin) {
      var i, j := ModuleOf(r, scale, margin), ModuleOf(k, scale, margin);
      QuotWithin(r, scale, margin, margin + n);
      QuotWithin(k, scale, margin, margin + n);
      ModuleRows(r, scale, margin, i, n);
      ModuleRows(k, scale, margin, j, n);
    }
  }

  /** Byte `p` of the buffer, read as pixel row and row byte. */
  lemma ImageAt(g: Grid, n: nat, scale: nat, margin: nat, r: nat, k: nat)
    requires Square(g, n) && r < Side(n, scale, margin) * scale && k <= Side(n, scale, margin)
    ensures At(r, k, Side(n, scale, margin)) < BufferLength(n, scale, margin)
    ensures Image(g, n, scale, margin)[At(r, k, Side(n, scale, margin))] == Pixel(g, n, scale, margin, r, k)
  {
    InBuffer(n, scale, margin, r, k);
    AtInverse(r, k, Side(n, scale, margin));
  }

  /** The image is `(N + 2 * margin) * scale` pixels on a side; a 21-module symbol with margin 2 at scale 8 is 200 pixels. */
  lemma SideOfVersion1()
    ensures Side(21, 8, 2) == 200
  {
  }

  // ---------------------------------------------------------------------
  // The constructor's loops

  /**
   * `ByteView.copy(data, target, start, end)` (lib/QRPNG.js:63), as Node's
   * `Buffer.copy`: the bytes `start .. end - 1` as they were before the
   * call are copied to `target` on, as many as fit.
   */
  method Copy(data: array<Byte>, target: nat, start: nat, end: nat)
    requires start <= end <= data.Length && target <= data.Length
    modifies data
    ensures forall p :: 0 <= p < data.Length ==>
              data[p] == if target <= p < target + (end - start) then old(data[start + (p - target)]) else old(data[p])
  {
    var chunk := data[start..end];
    var count := 0;
    while count < |chunk| && target + count < data.Length
      invariant count <= |chunk| && target + count <= data.Length
      invariant forall p :: 0 <= p < data.Length ==>
                  data[p] == if target <= p < target + count then chunk[p - target] else old(data[p])
    {
      data[target + count] := chunk[count];
      count := count + 1;
    }
  }

  /**
   * The writes for one dark module (lib/QRPNG.js:56-64): `scale` zero bytes
   * from `offset`, then that run copied to each of the next `scale - 1`
   * rows of `row` bytes.
   */
  method DrawModule(data: array<Byte>, offset: nat, row: nat, scale: nat)
    requires 0 < row && scale <= row && (scale > 0 ==> offset + (scale - 1) * row + scale <= data.Length)
    modifies data
    ensures forall p :: 0 <= p < data.Length ==> data[p] == if InRuns(p, offset, row, scale, scale) then 0 else old(data[p])
  {
    ghost var light := data[..];
    var endSize := offset + scale;
    var offsetTarget := offset;
    if scale > 0 {
      MulLe(0, scale - 1, row);
    }
    while offsetTarget < endSize
      invariant offset <= offsetTarget <= endSize
      invariant forall p :: 0 <= p < data.Length ==> data[p] == if offset <= p < offsetTarget then 0 else old(data[p])
    {
      data[offsetTarget] := 0;
      offsetTarget := offsetTarget + 1;
    }
    FirstRun(offset, row, scale, data.Length);
    var c := 1;
    while c < scale
      invariant 1 <= c && (c <= scale || scale == 0)
      invariant forall p :: 0 <= p < data.Length ==> data[p] == if InRuns(p, offset, row, scale, c) then 0 else light[p]
    {
      MulLe(c, scale - 1, row);
      CopyRun(data, offset, row, scale, c, light);
      c := c + 1;
    }
  }

  /** The first run is the bytes `offset .. offset + scale - 1`. */
  lemma FirstRun(offset: nat, row: nat, scale: nat, length: nat)
    requires 0 < row && scale <= row
    ensures forall p :: 0 <= p < length ==> (offset <= p < offset + scale <==> InRuns(p, offset, row, scale, 1))
  {
    forall p | 0 <= p < length
      ensures offset <= p < offset + scale <==> InRuns(p, offset, row, scale, 1)
    {
      if offset <= p {
        if p - offset < row {
          QuotRemOf(0, p - offset, row);
        } else {
          QuotRem(p - offset, row);
          assert Quot(p - offset, row) != 0;
        }
      }
    }
  }

  /** The copy of the first run to row `c` of the module (lib/QRPNG.js:63). */
  method CopyRun(data: array<Byte>, offset: nat, row: nat, scale: nat, c: nat, ghost light: seq<Byte>)
    requires 1 <= c < scale <= row && offset + c * row + scale <= data.Length == |light|
    requires forall p :: 0 <= p < data.Length ==> data[p] == if InRuns(p, offset, row, scale, c) then 0 else light[p]
    modifies data
    ensures forall p :: 0 <= p < data.Length ==> data[p] == if InRuns(p, offset, row, scale, c + 1) then 0 else light[p]
  {
    forall p | offset <= p < offset + scale
      ensures data[p] == 0
    {
      QuotRemOf(0, p - offset, row);
    }
    Copy(data, offset + c * row, offset, offset + scale);
    forall p | 0 <= p < data.Length
      ensures data[p] == if InRuns(p, offset, row, scale, c + 1) then 0 else light[p]
    {
      NextRun(p, offset, row, scale, c);
    }
  }

  /** Run `c` is the bytes `offset + c * row .. offset + c * row + scale - 1`. */
  lemma NextRun(p: nat, offset: nat, row: nat, scale: nat, c: nat)
    requires 0 < scale <= row
    ensures InRuns(p, offset, row, scale, c + 1) <==>
            InRuns(p, offset, row, scale, c) || offset + c * row <= p < offset + c * row + scale
  {
    if offset <= p {
      QuotRem(p - offset, row);
      if offset + c * row <= p < offset + c * row + scale {
        QuotRemOf(c, p - offset - c * row, row);
      }
      var q := Quot(p - offset, row);
      if q == c && Rem(p - offset, row) < scale {
        assert p - offset == c * row + Rem(p - offset, row);
      }
    }
  }

  /**
   * The pixel buffer of the `QRPNG` constructor (lib/QRPNG.js:42-67): a
   * light buffer of `(X + 1) * X * scale` bytes, a 0 filter byte at the
   * start of each of the `X` rows of the image, and the square of every
   * dark module zeroed.
   */
  method PixelData(matrix: BitMatrix, scale: nat, margin: nat) returns (data: array<Byte>)
    requires matrix.Valid()
    ensures fresh(data)
    ensures data[..] == Image(matrix.Snapshot(), matrix.size, scale, margin)
  {
    var n := matrix.size;
    var side := (n + 2 * margin) * scale;
    data := new Byte[(side + 1) * side * scale]((_) => 0xFF);
    FillFilterBytes(data, n, scale, margin);
    forall p | 0 <= p < data.Length
      ensures data[p] == ImageBefore(matrix.Snapshot(), n, scale, margin, 0, 0)[p]
    {
    }
    var i := 0;
    while i < n
      invariant i <= n && data.Length == BufferLength(n, scale, margin)
      invariant data[..] == ImageBefore(matrix.Snapshot(), n, scale, margin, i, 0)
    {
      var j := 0;
      while j < n
        invariant j <= n && data.Length == BufferLength(n, scale, margin)
        invariant data[..] == ImageBefore(matrix.Snapshot(), n, scale, margin, i, j)
      {
        if matrix.Get(i, j) == 1 {
          var offset := ((margin + i) * (side + 1) + (margin + j)) * scale;
          StartIsAt(n, scale, margin, i, j);
          DrawDark(data, matrix.Snapshot(), n, scale, margin, i, j, offset);
        }
        j := j + 1;
      }
      i := i + 1;
    }
  }

  /** The light fill and the filter bytes (lib/QRPNG.js:47-51). */
  method FillFilterBytes(data: array<Byte>, n: nat, scale: nat, margin: nat)
    requires data.Length == BufferLength(n, scale, margin) && forall p :: 0 <= p < data.Length ==> data[p] == 0xFF
    modifies data
    ensures forall p :: 0 <= p < data.Length ==>
              data[p] == if Quot(p, Side(n, scale, margin) + 1) < Side(n, scale, margin) && Rem(p, Side(n, scale, margin) + 1) == 0 then 0 else 0xFF
  {
    var side := (n + 2 * margin) * scale;
    var i := 0;
    while i < side
      invariant i <= side
      invariant forall p :: 0 <= p < data.Length ==>
                  data[p] == if Quot(p, side + 1) < i && Rem(p, side + 1) == 0 then 0 else 0xFF
    {
      FilterFits(n, scale, margin, i);
      data[i * (side + 1)] := 0;
      forall p | 0 <= p < data.Length
        ensures data[p] == if Quot(p, side + 1) < i + 1 && Rem(p, side + 1) == 0 then 0 else 0xFF
      {
        FilterIndex(p, i, side);
      }
      i := i + 1;
    }
  }

  /** Byte `p` is the filter byte of pixel row `i` exactly when it is byte 0 of row `i`. */
  lemma FilterIndex(p: nat, i: nat, side: nat)
    ensures p == i * (side + 1) <==> Quot(p, side + 1) == i && Rem(p, side + 1) == 0
  {
    AtOfQuotRem(p, side);
    AtInverse(i, 0, side);
  }

  /** The filter byte of pixel row `i < X` lies inside the buffer. */
  lemma FilterFits(n: nat, scale: nat, margin: nat, i: nat)
    requires i < Side(n, scale, margin)
    ensures At(i, 0, Side(n, scale, margin)) == i * (Side(n, scale, margin) + 1) < BufferLength(n, scale, margin)
  {
    MulLe(1, scale, n + 2 * margin);
    InBuffer(n, scale, margin, i, 0);
  }

  /** Drawing dark module (`i`, `j`) takes the buffer from before it to after it. */
  method DrawDark(data: array<Byte>, ghost g: Grid, n: nat, scale: nat, margin: nat, i: nat, j: nat, offset: nat)
    requires Square(g, n) && i < n && j < n && g[i][j] == 1
    requires data.Length == BufferLength(n, scale, margin) && data[..] == ImageBefore(g, n, scale, margin, i, j)
    requires offset == At(Lo(i, scale, margin), Lo(j, scale, margin), Side(n, scale, margin))
    modifies data
    ensures data[..] == ImageBefore(g, n, scale, margin, i, j + 1)
  {
    var side := Side(n, scale, margin);
    DrawArea(n, scale, margin, i, j, offset);
    ghost var before := data[..];
    DrawModule(data, offset, side + 1, scale);
    ghost var after := data[..];
    assert forall p :: 0 <= p < |after| ==>
             after[p] == if InRuns(p, offset, side + 1, scale, scale) then 0 else before[p];
    DarkImage(g, n, scale, margin, i, j, before, after);
  }

  /** The square of module (`i`, `j`) is as wide as a pixel row at most, and its last run fits the buffer. */
  lemma DrawArea(n: nat, scale: nat, margin: nat, i: nat, j: nat, offset: nat)
    requires i < n && j < n && offset == At(Lo(i, scale, margin), Lo(j, scale, margin), Side(n, scale, margin))
    ensures scale <= Side(n, scale, margin) + 1
    ensures scale > 0 ==> offset + (scale - 1) * (Side(n, scale, margin) + 1) + scale <= BufferLength(n, scale, margin)
  {
    MulLe(1, n + 2 * margin, scale);
    if scale > 0 {
      DrawFits(n, scale, margin, i, j);
    }
  }

  /** The buffer after the writes for dark module (`i`, `j`) is the image with it drawn. */
  lemma DarkImage(g: Grid, n: nat, scale: nat, margin: nat, i: nat, j: nat, before: seq<Byte>, after: seq<Byte>)
    requires Square(g, n) && i < n && j < n && g[i][j] == 1
    requires before == ImageBefore(g, n, scale, margin, i, j) && |after| == |before|
    requires forall p :: 0 <= p < |after| ==>
               after[p] == if InRuns(p, At(Lo(i, scale, margin), Lo(j, scale, margin), Side(n, scale, margin)), Side(n, scale, margin) + 1, scale, scale)
                           then 0 else before[p]
    ensures after == ImageBefore(g, n, scale, margin, i, j + 1)
  {
    forall p | 0 <= p < |after|
      ensures after[p] == ImageBefore(g, n, scale, margin, i, j + 1)[p]
    {
      DarkStep(g, n, scale, margin, i, j, p);
    }
  }

  /** One byte across the drawing of dark module (`i`, `j`). */
  lemma DarkStep(g: Grid, n: nat, scale: nat, margin: nat, i: nat, j: nat, p: nat)
    requires Square(g, n) && i < n && j < n && g[i][j] == 1
    ensures var side := Side(n, scale, margin);
            var r, k := Quot(p, side + 1), Rem(p, side + 1);
            PixelBefore(g, n, scale, margin, r, k, i, j + 1) ==
            if InRuns(p, At(Lo(i, scale, margin), Lo(j, scale, margin), side), side + 1, scale, scale) then 0
            else PixelBefore(g, n, scale, margin, r, k, i, j)
  {
    if scale > 0 {
      var side := Side(n, scale, margin);
      var r, k := Quot(p, side + 1), Rem(p, side + 1);
      if InRuns(p, At(Lo(i, scale, margin), Lo(j, scale, margin), side), side + 1, scale, scale) {
        RunInSquare(n, scale, margin, i, j, p);
      } else if InSquare(r, k, i, j, scale, margin) {
        SquareInRun(n, scale, margin, i, j, p);
      }
      ModuleRows(r, scale, margin, i, n);
      ModuleRows(k, scale, margin, j, n);
    }
  }

  // ---------------------------------------------------------------------
  // Colours

  predicate IsHexDigit(c: char) {
    '0' <= c <= '9' || 'a' <= c <= 'f' || 'A' <= c <= 'F'
  }

  predicate AllHex(s: string) {
    forall i :: 0 <= i < |s| ==> IsHexDigit(s[i])
  }

  function HexDigitValue(c: char): (r: nat)
    requires IsHexDigit(c)
    ensures r < 16
  {
    if '0' <= c <= '9' then c as int - '0' as int
    else if 'a' <= c <= 'f' then c as int - 'a' as int + 10
    else c as int - 'A' as int + 10
  }

  /** The value of a string of hexadecimal digits, most significant first. */
  function HexValue(s: string): nat
    requires AllHex(s)
  {
    if s == [] then 0 else 16 * HexValue(s[..|s| - 1]) + HexDigitValue(s[|s| - 1])
  }

  /** One more digit on the right multiplies the value by 16 and adds the digit. */
  lemma HexAppend(s: string, c: char)
    requires AllHex(s) && IsHexDigit(c)
    ensures AllHex(s + [c]) && HexValue(s + [c]) == 16 * HexValue(s) + HexDigitValue(c)
  {
    assert (s + [c])[..|s|] == s;
  }

  /** `hex.replace(/^#/, '')`: one leading `#` removed. */
  function Stripped(hex: string): string {
    if |hex| > 0 && hex[0] == '#' then hex[1..] else hex
  }

  /**
   * `hexToUint32` (lib/QRPNG.js:100-104): the length is tested before a
   * leading `#` is removed; a string longer than 7 characters is read as it
   * is, a shorter one gets `FF` appended as its alpha byte. `Number` of a
   * string that is not all hexadecimal digits is `NaN`: `None`.
   */
  function HexToUint32(hex: string): (r: Option<nat>)
    ensures r.Some? <==> AllHex(Stripped(hex))
    ensures r.Some? && |hex| > 7 ==> r.value == HexValue(Stripped(hex))
    ensures r.Some? && |hex| <= 7 ==> r.value == HexValue(Stripped(hex)) * 256 + 0xFF
  {
    var hasAlpha := |hex| > 7;
    var digits := Stripped(hex);
    if !AllHex(digits) then None
    else if hasAlpha then Some(HexValue(digits))
    else
      HexAppend(digits, 'F');
      HexAppend(digits + "F", 'F');
      assert digits + "FF" == (digits + "F") + "F";
      Some(HexValue(digits + "FF"))
  }

  /** The `k` hexadecimal digits of `x`, upper case, most significant first. */
  function HexDigits(x: nat, k: nat): (s: string)
    ensures |s| == k && AllHex(s)
  {
    if k == 0 then "" else HexDigits(x / 16, k - 1) + ["0123456789ABCDEF"[x % 16]]
  }

  function Pow16(k: nat): nat {
    if k == 0 then 1 else 16 * Pow16(k - 1)
  }

  /** Reading back the digits of a number that fits in them gives the number. */
  lemma {:induction false} HexValueOfDigits(x: nat, k: nat)
    requires x < Pow16(k)
    ensures HexValue(HexDigits(x, k)) == x
  {
    if k > 0 {
      var s := HexDigits(x, k);
      assert s[..|s| - 1] == HexDigits(x / 16, k - 1);
      HexValueOfDigits(x / 16, k - 1);
      assert HexDigitValue("0123456789ABCDEF"[x % 16]) == x % 16;
    }
  }

  /**
   * The two forms `toPNG` accepts: eight digits `RRGGBBAA` are the colour
   * with its alpha; `#RRGGBB` gets an opaque alpha byte.
   */
  lemma HexColours(rgba: nat, rgb: nat)
    requires rgba < 0x1_0000_0000 && rgb < 0x100_0000
    ensures HexToUint32(HexDigits(rgba, 8)) == Some(rgba)
    ensures HexToUint32("#" + HexDigits(rgb, 6)) == Some(rgb * 256 + 0xFF)
  {
    assert Pow16(8) == 0x1_0000_0000;
    HexValueOfDigits(rgba, 8);
    var s := HexDigits(rgb, 6);
    HexValueOfDigits(rgb, 6);
    assert Stripped("#" + s) == s;
  }

  /** The default colours of `toPNG` (index.js:424-425, 436). */
  lemma DefaultColours()
    ensures HexToUint32("FFFFFFFF") == Some(0xFFFF_FFFF)
    ensures HexToUint32("000000FF") == Some(0xFF)
  {
    HexAllF("FFFFFFFF");
    assert Pow16(8) == 0x1_0000_0000;
    HexZeros("000000");
    HexAppend("000000", 'F');
    HexAppend("000000F", 'F');
    assert "000000" + "F" == "000000F" && "000000F" + "F" == "000000FF";
  }

  /** A string of `F`s reads as one less than the next power of 16. */
  lemma {:induction false} HexAllF(s: string)
    requires forall i :: 0 <= i < |s| ==> s[i] == 'F'
    ensures AllHex(s) && HexValue(s) + 1 == Pow16(|s|)
  {
    if s != [] {
      HexAllF(s[..|s| - 1]);
    }
  }

  /** A string of zeros reads as 0. */
  lemma {:induction false} HexZeros(s: string)
    requires forall i :: 0 <= i < |s| ==> s[i] == '0'
    ensures AllHex(s) && HexValue(s) == 0
  {
    if s != [] {
      HexZeros(s[..|s| - 1]);
    }
  }

  // ---------------------------------------------------------------------
  // The object

  /** The fields the `QRPNG` constructor sets (lib/QRPNG.js:69-72). */
  class QrPng {
    const light: Option<nat>
    const dark: Option<nat>
    const data: array<Byte>
    const size: nat

    /** The `QRPNG` constructor (lib/QRPNG.js:39-73). */
    constructor (matrix: BitMatrix, scale: nat, margin: nat, light: string, dark: string)
      requires matrix.Valid()
      ensures this.light == HexToUint32(light) && this.dark == HexToUint32(dark)
      ensures size == Side(matrix.size, scale, margin) && fresh(data)
      ensures data[..] == Image(matrix.Snapshot(), matrix.size, scale, margin)
    {
      var pixels := PixelData(matrix, scale, margin);
      this.light := HexToUint32(light);
      this.dark := HexToUint32(dark);
      this.data := pixels;
      this.size := (matrix.size + 2 * margin) * scale;
    }
  }
}
