/**
 * Sizing the symbol (index.js): the number of data modules of a version,
 * the search of the `QREncoder` constructor for the smallest version and
 * the strongest error-correction level that hold the content, and the
 * pixel scale chosen by `toPNG`.
 *
 * `EC_TABLE` is imported from a file that is not part of this model; it is
 * the parameter `ecTable`, read here as (blocks, EC codewords per block).
 */
module Planner {

  import opened Wrappers
  import opened Modes

  /** `EC_TABLE[version - 1][level]`, read as `[blocks, ecBlockSize]`. */
  type EcTable = (int, char) -> (int, int)

  /** What the constructor records about the symbol it picked. */
  datatype Plan = Plan(version: int, errorLevel: char, lengthBits: nat, dataCodewords: int)

  /** The encoder after its constructor: the mode, and the plan if some version fits. */
  datatype Encoder = Encoder(mode: Mode, plan: Option<Plan>)

  // ---------------------------------------------------------------------
  // Data modules per version

  /**
   * `getAvailableModules` (index.js:321-336): the modules of a version left
   * for data once finder, separator, timing and alignment patterns, format
   * and version information and the dark module are taken away.
   */
  function AvailableModules(version: int): int {
    if version == 1 then 21 * 21 - 3 * 8 * 8 - 2 * 15 - 1 - 2 * 5
    else
      var alignmentCount := version / 7 + 2;
      (version * 4 + 17) * (version * 4 + 17)
      - 3 * 8 * 8
      - (alignmentCount * alignmentCount - 3) * 5 * 5
      - 2 * (version * 4 + 1)
      + (alignmentCount - 2) * 5 * 2
      - 2 * 15
      - 1
      - (if version > 6 then 2 * 3 * 6 else 0)
  }

  /** Total codewords per version, table 1 of ISO/IEC 18004. */
  function IsoCodewords(version: int): nat
    requires 1 <= version <= 40
  {
    if version <= 10 then [26, 44, 70, 100, 134, 172, 196, 242, 292, 346][version - 1]
    else if version <= 20 then [404, 466, 532, 581, 655, 733, 815, 901, 991, 1085][version - 11]
    else if version <= 30 then [1156, 1258, 1364, 1474, 1588, 1706, 1828, 1921, 2051, 2185][version - 21]
    else [2323, 2465, 2611, 2761, 2876, 3034, 3196, 3362, 3532, 3706][version - 31]
  }

  /** Remainder bits per version, table 1 of ISO/IEC 18004. */
  function IsoRemainderBits(version: int): nat {
    if version <= 1 then 0
    else if version <= 6 then 7
    else if version <= 13 then 0
    else if version <= 20 then 3
    else if version <= 27 then 4
    else if version <= 34 then 3
    else 0
  }

  lemma DataModules1To5()
    ensures AvailableModules(1) == 208 &&
            AvailableModules(2) == 359 &&
            AvailableModules(3) == 567 &&
            AvailableModules(4) == 807 &&
            AvailableModules(5) == 1079
  {
  }

  lemma DataModules6To10()
    ensures AvailableModules(6) == 1383 &&
            AvailableModules(7) == 1568 &&
            AvailableModules(8) == 1936 &&
            AvailableModules(9) == 2336 &&
            AvailableModules(10) == 2768
  {
  }

  lemma DataModules11To15()
    ensures AvailableModules(11) == 3232 &&
            AvailableModules(12) == 3728 &&
            AvailableModules(13) == 4256 &&
            AvailableModules(14) == 4651 &&
            AvailableModules(15) == 5243
  {
  }

  lemma DataModules16To20()
    ensures AvailableModules(16) == 5867 &&
            AvailableModules(17) == 6523 &&
            AvailableModules(18) == 7211 &&
            AvailableModules(19) == 7931 &&
            AvailableModules(20) == 8683
  {
  }

  lemma DataModules21To25()
    ensures AvailableModules(21) == 9252 &&
            AvailableModules(22) == 10068 &&
            AvailableModules(23) == 10916 &&
            AvailableModules(24) == 11796 &&
            AvailableModules(25) == 12708
  {
  }

  lemma DataModules26To30()
    ensures AvailableModules(26) == 13652 &&
            AvailableModules(27) == 14628 &&
            AvailableModules(28) == 15371 &&
            AvailableModules(29) == 16411 &&
            AvailableModules(30) == 17483
  {
  }

  lemma DataModules31To35()
    ensures AvailableModules(31) == 18587 &&
            AvailableModules(32) == 19723 &&
            AvailableModules(33) == 20891 &&
            AvailableModules(34) == 22091 &&
            AvailableModules(35) == 23008
  {
  }

  lemma DataModules36To40()
    ensures AvailableModules(36) == 24272 &&
            AvailableModules(37) == 25568 &&
            AvailableModules(38) == 26896 &&
            AvailableModules(39) == 28256 &&
            AvailableModules(40) == 29648
  {
  }

  lemma IsoVersions1To5(v: int)
    requires 1 <= v <= 5
    ensures AvailableModules(v) == 8 * IsoCodewords(v) + IsoRemainderBits(v)
  {
    DataModules1To5();
    if v == 1 {} else if v == 2 {} else if v == 3 {} else if v == 4 {} else {}
  }

  lemma IsoVersions6To10(v: int)
    requires 6 <= v <= 10
    ensures AvailableModules(v) == 8 * IsoCodewords(v) + IsoRemainderBits(v)
  {
    DataModules6To10();
    if v == 6 {} else if v == 7 {} else if v == 8 {} else if v == 9 {} else {}
  }

  lemma IsoVersions11To15(v: int)
    requires 11 <= v <= 15
    ensures AvailableModules(v) == 8 * IsoCodewords(v) + IsoRemainderBits(v)
  {
    DataModules11To15();
    if v == 11 {} else if v == 12 {} else if v == 13 {} else if v == 14 {} else {}
  }

  lemma IsoVersions16To20(v: int)
    requires 16 <= v <= 20
    ensures AvailableModules(v) == 8 * IsoCodewords(v) + IsoRemainderBits(v)
  {
    DataModules16To20();
    if v == 16 {} else if v == 17 {} else if v == 18 {} else if v == 19 {} else {}
  }

  lemma IsoVersions21To25(v: int)
    requires 21 <= v <= 25
    ensures AvailableModules(v) == 8 * IsoCodewords(v) + IsoRemainderBits(v)
  {
    DataModules21To25();
    if v == 21 {} else if v == 22 {} else if v == 23 {} else if v == 24 {} else {}
  }

  lemma IsoVersions26To30(v: int)
    requires 26 <= v <= 30
    ensures AvailableModules(v) == 8 * IsoCodewords(v) + IsoRemainderBits(v)
  {
    DataModules26To30();
    if v == 26 {} else if v == 27 {} else if v == 28 {} else if v == 29 {} else {}
  }

  lemma IsoVersions31To35(v: int)
    requires 31 <= v <= 35
    ensures AvailableModules(v) == 8 * IsoCodewords(v) + IsoRemainderBits(v)
  {
    DataModules31To35();
    if v == 31 {} else if v == 32 {} else if v == 33 {} else if v == 34 {} else {}
  }

  lemma IsoVersions36To40(v: int)
    requires 36 <= v <= 40
    ensures AvailableModules(v) == 8 * IsoCodewords(v) + IsoRemainderBits(v)
  {
    DataModules36To40();
    if v == 36 {} else if v == 37 {} else if v == 38 {} else if v == 39 {} else {}
  }

  /**
   * For every version the formula gives the standard's count, so
   * `AvailableModules(v) >> 3` is the number of codewords of the symbol;
   * version 1 is special only because it has no alignment pattern.
   */
  lemma AvailableModulesAreIso(version: int)
    requires 1 <= version <= 40
    ensures AvailableModules(version) == 8 * IsoCodewords(version) + IsoRemainderBits(version)
    ensures AvailableModules(version) / 8 == IsoCodewords(version)
  {
    if version <= 5 { IsoVersions1To5(version); }
    else if version <= 10 { IsoVersions6To10(version); }
    else if version <= 15 { IsoVersions11To15(version); }
    else if version <= 20 { IsoVersions16To20(version); }
    else if version <= 25 { IsoVersions21To25(version); }
    else if version <= 30 { IsoVersions26To30(version); }
    else if version <= 35 { IsoVersions31To35(version); }
    else { IsoVersions36To40(version); }
  }

  // ---------------------------------------------------------------------
  // Error-correction levels

  /** The levels from strongest to weakest. */
  const LevelOrder: string := "HQML"

  /** Recovery capacity order: L (7 %) < M (15 %) < Q (25 %) < H (30 %). */
  function Strength(level: char): nat {
    if level == 'H' then 3 else if level == 'Q' then 2 else if level == 'M' then 1 else 0
  }

  /** `t` occurs in `s` at position `j`. */
  predicate MatchesAt(s: string, t: string, j: int) {
    0 <= j && j + |t| <= |s| && s[j..j + |t|] == t
  }

  /** JavaScript `s.indexOf(t)`: the first position of `t` in `s`, or -1. */
  function IndexOf(s: string, t: string): (r: int)
    ensures r == -1 || 0 <= r <= |s| - |t|
    ensures r >= 0 ==> MatchesAt(s, t, r) && forall j :: 0 <= j < r ==> !MatchesAt(s, t, j)
    ensures r == -1 ==> forall j :: !MatchesAt(s, t, j)
  {
    IndexFrom(s, t, 0)
  }

  function IndexFrom(s: string, t: string, i: nat): (r: int)
    ensures r == -1 || i <= r <= |s| - |t|
    ensures r >= 0 ==> MatchesAt(s, t, r) && forall j :: i <= j < r ==> !MatchesAt(s, t, j)
    ensures r == -1 ==> forall j :: i <= j ==> !MatchesAt(s, t, j)
    decreases |s| + 1 - i
  {
    if i + |t| > |s| then -1
    else if s[i..i + |t|] == t then i
    else IndexFrom(s, t, i + 1)
  }

  /** `'HQML'.slice(0, 'HQML'.indexOf(errorCorrection) + 1)` (index.js:193). */
  function Levels(ec: string): (r: string)
    ensures |r| <= 4 && r == LevelOrder[..|r|]
  {
    LevelOrder[..IndexOf(LevelOrder, ec) + 1]
  }

  /**
   * The levels tried never go below the one requested: for a level letter
   * the list runs from H down to exactly that level; an argument that does
   * not occur in "HQML" leaves nothing to try, and the empty string only H.
   */
  lemma LevelsNeverWeaker(ec: string)
    ensures |ec| == 1 && ec[0] in LevelOrder ==>
              |Levels(ec)| >= 1 && Levels(ec)[|Levels(ec)| - 1] == ec[0] &&
              forall i :: 0 <= i < |Levels(ec)| ==> Strength(Levels(ec)[i]) >= Strength(ec[0])
    ensures Levels(ec) == [] <==> forall j :: !MatchesAt(LevelOrder, ec, j)
    ensures ec == [] ==> Levels(ec) == "H"
  {
    var r := IndexOf(LevelOrder, ec);
    if |ec| == 1 && ec[0] in LevelOrder {
      var k :| 0 <= k < 4 && LevelOrder[k] == ec[0];
      assert MatchesAt(LevelOrder, ec, k);
      assert r == k;
    }
    if ec == [] {
      assert MatchesAt(LevelOrder, ec, 0);
    }
  }

  // ---------------------------------------------------------------------
  // The search

  /** `dataCodewords` of index.js:202-204. */
  function DataCodewords(version: int, level: char, ecTable: EcTable): int {
    var totalCodewords := AvailableModules(version) / 8;
    var (blocks, ecBlockSize) := ecTable(version, level);
    totalCodewords - blocks * ecBlockSize
  }

  /** `availableBits` of index.js:206: the data bits less the mode indicator and count field. */
  function AvailableBits(m: Mode, version: int, level: char, ecTable: EcTable): int {
    DataCodewords(version, level, ecTable) * 8 - LengthBits(m, version) - 4
  }

  /** The test of index.js:208. */
  predicate Fits(m: Mode, length: nat, version: int, level: char, ecTable: EcTable) {
    Capacity(m, AvailableBits(m, version, level, ecTable)) >= length
  }

  function MakePlan(m: Mode, version: int, level: char, ecTable: EcTable): Plan {
    Plan(version, level, LengthBits(m, version), DataCodewords(version, level, ecTable))
  }

  /** `(version, i)` is the first pair, versions ascending and levels in list order, that fits. */
  predicate FirstFitAt(m: Mode, length: nat, levels: string, ecTable: EcTable, version: int, i: int) {
    1 <= version <= 40 && 0 <= i < |levels| &&
    Fits(m, length, version, levels[i], ecTable) &&
    (forall v, j :: 1 <= v < version && 0 <= j < |levels| ==> !Fits(m, length, v, levels[j], ecTable)) &&
    (forall j :: 0 <= j < i ==> !Fits(m, length, version, levels[j], ecTable))
  }

  /** What the search of index.js:193-218 promises: the first fit, or none when nothing fits. */
  predicate IsFirstFit(m: Mode, length: nat, ec: string, ecTable: EcTable, r: Option<Plan>) {
    var levels := Levels(ec);
    match r
    case None =>
      forall v, j :: 1 <= v <= 40 && 0 <= j < |levels| ==> !Fits(m, length, v, levels[j], ecTable)
    case Some(p) =>
      exists i :: 0 <= i < |levels| && FirstFitAt(m, length, levels, ecTable, p.version, i) &&
                  p == MakePlan(m, p.version, levels[i], ecTable)
  }

  lemma FirstFitAtIsUnique(m: Mode, length: nat, levels: string, ecTable: EcTable,
                           v: int, i: int, w: int, k: int)
    requires FirstFitAt(m, length, levels, ecTable, v, i)
    requires FirstFitAt(m, length, levels, ecTable, w, k)
    ensures v == w && i == k
  {
  }

  /** The specification leaves no choice: there is one first fit. */
  lemma FirstFitIsUnique(m: Mode, length: nat, ec: string, ecTable: EcTable, r: Option<Plan>, q: Option<Plan>)
    requires IsFirstFit(m, length, ec, ecTable, r) && IsFirstFit(m, length, ec, ecTable, q)
    ensures r == q
  {
    var levels := Levels(ec);
    if r.Some? && q.Some? {
      var i :| 0 <= i < |levels| && FirstFitAt(m, length, levels, ecTable, r.value.version, i) &&
               r.value == MakePlan(m, r.value.version, levels[i], ecTable);
      var k :| 0 <= k < |levels| && FirstFitAt(m, length, levels, ecTable, q.value.version, k) &&
               q.value == MakePlan(m, q.value.version, levels[k], ecTable);
      FirstFitAtIsUnique(m, length, levels, ecTable, r.value.version, i, q.value.version, k);
    }
  }

  /**
   * A plan found by the search holds the content and, for a level letter,
   * protects it at least as strongly as requested.
   */
  lemma FirstFitHoldsContent(m: Mode, length: nat, ec: string, ecTable: EcTable, p: Plan)
    requires IsFirstFit(m, length, ec, ecTable, Some(p))
    ensures 1 <= p.version <= 40 && p.errorLevel in Levels(ec)
    ensures Capacity(m, AvailableBits(m, p.version, p.errorLevel, ecTable)) >= length
    ensures forall n: nat :: n <= length ==> Cost(m, n) <= AvailableBits(m, p.version, p.errorLevel, ecTable)
    ensures |ec| == 1 && ec[0] in LevelOrder ==> Strength(p.errorLevel) >= Strength(ec[0])
  {
    LevelsNeverWeaker(ec);
    var levels := Levels(ec);
    var i :| FirstFitAt(m, length, levels, ecTable, p.version, i) &&
             p == MakePlan(m, p.version, levels[i], ecTable);
    forall n: nat | n <= length
      ensures Cost(m, n) <= AvailableBits(m, p.version, p.errorLevel, ecTable)
    {
      CapacityIsLargestFit(m, AvailableBits(m, p.version, p.errorLevel, ecTable), n);
    }
  }

  /** The version and level search of the `QREncoder` constructor (index.js:193-218). */
  method Search(m: Mode, length: nat, ec: string, ecTable: EcTable) returns (r: Option<Plan>)
    ensures IsFirstFit(m, length, ec, ecTable, r)
  {
    var errorLevels := Levels(ec);
    var version := 1;
    while version <= 40
      invariant 1 <= version <= 41
      invariant forall v, j :: 1 <= v < version && 0 <= j < |errorLevels| ==>
                  !Fits(m, length, v, errorLevels[j], ecTable)
    {
      var errorLevelIndex := 0;
      while errorLevelIndex < |errorLevels|
        invariant 0 <= errorLevelIndex <= |errorLevels|
        invariant forall j :: 0 <= j < errorLevelIndex ==> !Fits(m, length, version, errorLevels[j], ecTable)
      {
        var errorLevel := errorLevels[errorLevelIndex];
        var totalCodewords := AvailableModules(version) / 8;
        var (blocks, ecBlockSize) := ecTable(version, errorLevel);
        var dataCodewords := totalCodewords - blocks * ecBlockSize;
        var lengthBits := LengthBits(m, version);
        var availableBits := dataCodewords * 8 - lengthBits - 4;
        var capacity := Capacity(m, availableBits);
        assert availableBits == AvailableBits(m, version, errorLevel, ecTable);
        assert capacity >= length <==> Fits(m, length, version, errorLevel, ecTable);
        if capacity >= length {
          r := Some(Plan(version, errorLevel, lengthBits, dataCodewords));
          assert FirstFitAt(m, length, errorLevels, ecTable, version, errorLevelIndex);
          return;
        }
        errorLevelIndex := errorLevelIndex + 1;
      }
      version := version + 1;
    }
    r := None;
  }

  /**
   * The `QREncoder` constructor (index.js:175-219): a non-string or a
   * content no mode covers is rejected; otherwise the mode is recorded with
   * the first fitting plan, or with none when no version holds the content.
   */
  method NewEncoder(content: Content, ec: string, foreign: Foreign, ecTable: EcTable)
    returns (r: Result<Encoder, EncodeError>)
    ensures SelectMode(content, foreign).Failure? ==> r == Failure(SelectMode(content, foreign).error)
    ensures SelectMode(content, foreign).Success? ==>
              r.Success? && r.value.mode == SelectMode(content, foreign).value &&
              IsFirstFit(r.value.mode, Utf16Length(content.s), ec, ecTable, r.value.plan)
  {
    var mode := SelectMode(content, foreign);
    if mode.Failure? {
      return Failure(mode.error);
    }
    var plan := Search(mode.value, Utf16Length(content.s), ec, ecTable);
    r := Success(Encoder(mode.value, plan));
  }

  // ---------------------------------------------------------------------
  // Pixel scale

  /**
   * `Math.floor(width / modules)` for a divisor that is not 0. Dafny's `/`
   * is Euclidean, which agrees with the floor for a positive divisor; for
   * a negative one the signs of both operands are turned round first.
   */
  function FloorDiv(width: int, modules: int): (q: int)
    requires modules != 0
    ensures modules > 0 ==> q * modules <= width < (q + 1) * modules
    ensures modules < 0 ==> (q + 1) * modules < width <= q * modules
  {
    if modules > 0 then
      Bits.DivModUnique(width, modules, width / modules, width % modules);
      width / modules
    else
      var q := -width / -modules;
      Bits.DivModUnique(-width, -modules, q, -width % -modules);
      q
  }

  /**
   * The scale of `toPNG` (index.js:437-439): the symbol plus a margin on
   * each side is `modules` wide. When `width` is not 0 and at least that,
   * the scale is `Math.floor(width / modules)`: the largest whole number of
   * pixels per module that fits in `width` when `modules` is positive, the
   * floor of a negative quotient when a negative margin makes `modules`
   * negative, and `Infinity` (`None`) when it makes `modules` 0. Otherwise
   * it is 8.
   */
  function Scale(width: int, size: nat, margin: int): (r: Option<int>)
    ensures width == 0 || width < size + margin * 2 ==> r == Some(8)
    ensures width != 0 && width >= size + margin * 2 > 0 ==>
              r.Some? && r.value >= 1 &&
              r.value * (size + margin * 2) <= width < (r.value + 1) * (size + margin * 2)
    ensures width != 0 && width >= size + margin * 2 && size + margin * 2 < 0 ==>
              r.Some? && (r.value + 1) * (size + margin * 2) < width <= r.value * (size + margin * 2)
    ensures r == None <==> width > 0 && size + margin * 2 == 0
  {
    var modules := size + margin * 2;
    if width != 0 && width >= modules then
      if modules == 0 then None
      else
        var q := FloorDiv(width, modules);
        if modules > 0 then
          AtLeastOne(q, modules, width);
          Some(q)
        else Some(q)
    else Some(8)
  }

  /** A width of at least one symbol holds at least one pixel per module. */
  lemma AtLeastOne(q: int, modules: int, width: int)
    requires modules > 0 && modules <= width < (q + 1) * modules
    ensures q >= 1
  {
    if q < 1 {
      Bits.MulAtLeast(modules, 1 - q);
    }
  }
}
