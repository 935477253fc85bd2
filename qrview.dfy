/**
 * The pipeline of `QRView` (index.js:380-441): the `QREncoder` constructor
 * picks mode, version and level, `encode` (index.js:266-318) turns the
 * content into the symbol's codewords, `BitMatrix.optimalMask` lays them
 * out, and `toPNG` rasterises the matrix at the scale it derives from the
 * requested width.
 *
 * `EC_TABLE` is the parameter `ecTable` and `getEDC` the parameter `edc`;
 * neither is part of this model.
 */
module QrView {
  import opened Bits
  import opened Wrappers
  import opened Modes
  import opened Planner
  import opened Patterns
  import opened Matrix
  import Bitstream
  import Interleave
  import Walk
  import Symbol
  import Raster

  /** `getEDC(dataBlock, codewords)`: the error correction codewords of a block. */
  type Edc = (seq<Byte>, nat) -> seq<Byte>

  /**
   * `encode` reads the table entry as `[ecBlockSize, blocks]`
   * (index.js:269): it needs a positive block count and a block size that
   * is not negative.
   */
  predicate Usable(ecTable: EcTable, version: int, level: char) {
    ecTable(version, level).0 >= 0 && ecTable(version, level).1 > 0
  }

  /** The codewords `encode` returns for a plan: the data reordered across the blocks, then the interleaved error correction. */
  function Codewords(mode: Mode, p: Plan, content: string, foreign: Foreign, ecTable: EcTable, edc: Edc): seq<Byte>
    requires Covers(mode, content, foreign) && p.dataCodewords >= 0 && Usable(ecTable, p.version, p.errorLevel)
  {
    var data := Bitstream.InitialBytes(Id(mode), p.lengthBits, p.dataCodewords, Utf16Length(content), Values(mode, content, foreign));
    var (ecBlockSize, blocks) := ecTable(p.version, p.errorLevel);
    Interleave.Reordered(data, blocks) + Interleave.EcInterleaved(data, ecBlockSize, blocks, edc)
  }

  /**
   * The plan the constructor's search settles on has room for the content:
   * its data codewords hold the 4-bit mode indicator, the count field and
   * every bit of the content's chunks; its version is 1 to 40 and its level
   * one of the four; and since a plan fits, "none fits" is false.
   */
  lemma PlanHolds(m: Mode, length: nat, ec: string, ecTable: EcTable, p: Plan)
    requires IsFirstFit(m, length, ec, ecTable, Some(p))
    ensures 4 + p.lengthBits + Cost(m, length) <= 8 * p.dataCodewords
    ensures 1 <= p.version <= 40 && p.errorLevel in EdcOrder
    ensures p == MakePlan(m, p.version, p.errorLevel, ecTable)
    ensures !IsFirstFit(m, length, ec, ecTable, None)
  {
    var levels := Levels(ec);
    var i :| 0 <= i < |levels| && FirstFitAt(m, length, levels, ecTable, p.version, i) &&
             p == MakePlan(m, p.version, levels[i], ecTable);
    assert Fits(m, length, p.version, levels[i], ecTable);
    CapacityIsLargestFit(m, AvailableBits(m, p.version, levels[i], ecTable), length);
    assert levels[i] == LevelOrder[i];
  }

  /**
   * The codewords fill the symbol: data and error correction together are
   * `getAvailableModules(version) >> 3` codewords. The search's reading of
   * the entry as `[blocks, ecBlockSize]` (index.js:203) and `encode`'s as
   * `[ecBlockSize, blocks]` agree on this, as only their product counts.
   */
  lemma CodewordsFillSymbol(mode: Mode, p: Plan, content: string, foreign: Foreign, ecTable: EcTable, edc: Edc)
    requires Covers(mode, content, foreign) && p.dataCodewords >= 0 && Usable(ecTable, p.version, p.errorLevel)
    requires p == MakePlan(mode, p.version, p.errorLevel, ecTable)
    ensures |Codewords(mode, p, content, foreign, ecTable, edc)| == AvailableModules(p.version) / 8
  {
    var (a, b) := ecTable(p.version, p.errorLevel);
    assert a * b == b * a;
  }

  /**
   * `encode` (index.js:266-318): `#getInitialData`, the table lookup of
   * index.js:269, then reordering and error correction. Without a plan the
   * source has no `dataCodewords` to allocate and fails: `None`.
   */
  method Encode(enc: Encoder, content: string, foreign: Foreign, ecTable: EcTable, edc: Edc) returns (r: Option<seq<Byte>>)
    requires Covers(enc.mode, content, foreign)
    requires enc.plan.Some? ==> enc.plan.value.dataCodewords >= 0 && Usable(ecTable, enc.plan.value.version, enc.plan.value.errorLevel)
    ensures r.None? <==> enc.plan.None?
    ensures enc.plan.Some? ==> r == Some(Codewords(enc.mode, enc.plan.value, content, foreign, ecTable, edc))
  {
    if enc.plan.None? {
      return None;
    }
    var p := enc.plan.value;
    var initialData := Bitstream.InitialData(enc.mode, p.lengthBits, p.dataCodewords, content, foreign);
    var (ecBlockSize, blocks) := ecTable(p.version, p.errorLevel);
    var codewords := Interleave.Encode(initialData[..], ecBlockSize, blocks, edc);
    r := Some(codewords);
  }

  /** What the `QRView` constructor stores (index.js:411-417). */
  datatype View = View(matrix: BitMatrix, version: nat, size: nat, errorLevel: char,
                       encodingMode: nat, codewords: seq<Byte>, maskIndex: int)

  /** Why a `QRView` cannot be built from a string. */
  datatype ViewError = Rejected(error: EncodeError) | NoVersion

  /**
   * The `QRView` constructor for content that is not a stored view
   * (index.js:405-418): the encoder's rejection is passed on; content no
   * version holds fails in `encode`; otherwise the view holds the plan's
   * version and level, the mode's indicator, the codewords and the matrix
   * `optimalMask` returns, with its mask index 0.
   */
  method NewView(content: Content, errorCorrection: string, foreign: Foreign, ecTable: EcTable, edc: Edc)
    returns (r: Result<View, ViewError>)
    requires forall v, l :: 1 <= v <= 40 && l in EdcOrder ==> Usable(ecTable, v, l)
    ensures SelectMode(content, foreign).Failure? ==> r == Failure(Rejected(SelectMode(content, foreign).error))
    ensures r.Success? ==>
              var w := r.value;
              var mode := SelectMode(content, foreign).value;
              var p := Plan(w.version, w.errorLevel, LengthBits(mode, w.version), DataCodewords(w.version, w.errorLevel, ecTable));
              SelectMode(content, foreign).Success? &&
              IsFirstFit(mode, Utf16Length(content.s), errorCorrection, ecTable, Some(p)) &&
              1 <= w.version <= 40 && w.errorLevel in EdcOrder && p.dataCodewords >= 0 &&
              w.encodingMode == Id(mode) && w.maskIndex == 0 &&
              w.codewords == Codewords(mode, p, content.s, foreign, ecTable, edc) &&
              w.matrix.Valid() && w.size == w.matrix.size == Size(w.version) &&
              w.matrix.Snapshot() == Symbol.EncodedAsWritten(w.version, Walk.TracksAsWritten(w.version), w.codewords, w.errorLevel, 0)
    ensures r == Failure(NoVersion) <==>
              SelectMode(content, foreign).Success? &&
              IsFirstFit(SelectMode(content, foreign).value, Utf16Length(content.s), errorCorrection, ecTable, None)
  {
    var encoder := NewEncoder(content, errorCorrection, foreign, ecTable);
    if encoder.Failure? {
      return Failure(Rejected(encoder.error));
    }
    var enc := encoder.value;
    if enc.plan.None? {
      return Failure(NoVersion);
    }
    var p := enc.plan.value;
    PlanHolds(enc.mode, Utf16Length(content.s), errorCorrection, ecTable, p);
    assert !IsFirstFit(enc.mode, Utf16Length(content.s), errorCorrection, ecTable, None);
    var codewords := Encode(enc, content.s, foreign, ecTable, edc);
    assert p == Plan(p.version, p.errorLevel, LengthBits(enc.mode, p.version), DataCodewords(p.version, p.errorLevel, ecTable));
    var matrix, maskIndex := Symbol.OptimalMaskAsWritten(p.version, codewords.value, p.errorLevel);
    r := Success(View(matrix, p.version, matrix.size, p.errorLevel, Id(enc.mode), codewords.value, maskIndex));
  }

  /**
   * `toPNG` up to the PNG encoding (index.js:420-440): the scale from the
   * width, then the `QRPNG` constructor with the view's matrix.
   */
  method ToPng(view: View, width: int, margin: nat, light: string, dark: string) returns (png: Raster.QrPng)
    requires view.matrix.Valid()
    ensures Scale(width, view.matrix.size, margin).Some?
    ensures var scale := Scale(width, view.matrix.size, margin).value;
            scale >= 1 && png.size == Raster.Side(view.matrix.size, scale, margin) &&
            png.data[..] == Raster.Image(view.matrix.Snapshot(), view.matrix.size, scale, margin) &&
            png.light == Raster.HexToUint32(light) && png.dark == Raster.HexToUint32(dark)
  {
    var scale := Scale(width, view.matrix.size, margin);
    png := new Raster.QrPng(view.matrix, scale.value, margin, light, dark);
  }

  /** `options.errorCorrection || 'M'`: an empty level falls back to "M". */
  function DefaultLevel(errorCorrection: string): (ec: string)
    ensures ec != [] && (errorCorrection != [] ==> ec == errorCorrection)
  {
    if errorCorrection == [] then "M" else errorCorrection
  }

  /**
   * `createPNG` (index.js:376-381) up to the PNG encoding: the view for the
   * content at the requested level, or "M" when none is given, then its
   * pixel buffer. A view that cannot be built yields no image.
   */
  method CreatePng(content: Content, errorCorrection: string, width: int, margin: nat, light: string, dark: string,
                   foreign: Foreign, ecTable: EcTable, edc: Edc)
    returns (view: Result<View, ViewError>, png: Option<Raster.QrPng>)
    requires forall v, l :: 1 <= v <= 40 && l in EdcOrder ==> Usable(ecTable, v, l)
    ensures png.Some? <==> view.Success?
    ensures SelectMode(content, foreign).Failure? ==> view == Failure(Rejected(SelectMode(content, foreign).error))
    ensures view == Failure(NoVersion) <==>
              SelectMode(content, foreign).Success? &&
              IsFirstFit(SelectMode(content, foreign).value, Utf16Length(content.s), DefaultLevel(errorCorrection), ecTable, None)
    ensures view.Success? ==>
              var w := view.value;
              var mode := SelectMode(content, foreign).value;
              var p := Plan(w.version, w.errorLevel, LengthBits(mode, w.version), DataCodewords(w.version, w.errorLevel, ecTable));
              SelectMode(content, foreign).Success? &&
              IsFirstFit(mode, Utf16Length(content.s), DefaultLevel(errorCorrection), ecTable, Some(p)) &&
              w.matrix.Valid() && w.size == w.matrix.size && Scale(width, w.size, margin).Some? &&
              png.value.size == Raster.Side(w.size, Scale(width, w.size, margin).value, margin) &&
              png.value.data[..] == Raster.Image(w.matrix.Snapshot(), w.size, Scale(width, w.size, margin).value, margin)
  {
    view := NewView(content, DefaultLevel(errorCorrection), foreign, ecTable, edc);
    if view.Failure? {
      return view, None;
    }
    var image := ToPng(view.value, width, margin, light, dark);
    png := Some(image);
  }
}
