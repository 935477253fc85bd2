/**
 * The pure helpers of lib/BitMatrix.js: the symbol size, the eight data
 * masks (section 7.8.2 of ISO/IEC 18004), the BCH-coded format and version
 * words (sections 7.9 and 7.10) and the alignment pattern coordinates
 * (section 6.3.6 and Annex E).
 *
 * The polynomial remainder comes from lib/utils.js, which is not part of
 * this model. Every polynomial it divides here has coefficients 0 and 1
 * and a divisor with leading coefficient 1, and for those the remainder
 * over GF(256) is the remainder over GF(2); `PolyRest` is that remainder.
 */
module Patterns {
  import opened Bits
  import Bitstream

  /** One module of the symbol: 1 dark, 0 light. */
  type Cell = x: nat | x < 2

  /** `getSize` (lib/BitMatrix.js:368-370). */
  function Size(version: nat): nat {
    version * 4 + 17
  }

  /** placeVersionModules reads the version back from the size with `(size - 17) >> 2`. */
  lemma SizeGivesVersion(version: nat)
    ensures (Size(version) - 17) / 4 == version
    ensures Size(version) % 4 == 1 && Size(version) >= 17
  {
  }

  // ---------------------------------------------------------------------
  // MASK_FNS

  /** `MASK_FNS[k](row, column)`: the module at (row, column) is inverted under mask `k`. */
  predicate Mask(k: nat, row: nat, column: nat)
    requires k < 8
  {
    match k
    case 0 => (row + column) % 2 == 0
    case 1 => row % 2 == 0
    case 2 => column % 3 == 0
    case 3 => (row + column) % 3 == 0
    case 4 => (row / 2 + column / 3) % 2 == 0
    case 5 => (row * column) % 2 + (row * column) % 3 == 0
    case 6 => ((row * column) % 2 + (row * column) % 3) % 2 == 0
    case _ => ((row + column) % 2 + (row * column) % 3) % 2 == 0
  }

  /** Every mask repeats after 12 rows... */
  lemma MaskRowPeriod(k: nat, row: nat, column: nat)
    requires k < 8
    ensures Mask(k, row + 12, column) == Mask(k, row, column)
  {
    var p := row * column;
    assert (row + 12) * column == p + 6 * (2 * column);
    ModSix(p, 2 * column);
    ModSix(row + column, 2);
    ModSix(row, 2);
    DivModUnique(row + 12, 2, row / 2 + 6, row % 2);
    ModSix(row / 2 + column / 3, 1);
  }

  /** ... and after 12 columns. */
  lemma MaskColumnPeriod(k: nat, row: nat, column: nat)
    requires k < 8
    ensures Mask(k, row, column + 12) == Mask(k, row, column)
  {
    var p := row * column;
    assert row * (column + 12) == p + 6 * (2 * row);
    ModSix(p, 2 * row);
    ModSix(row + column, 2);
    ModSix(column, 2);
    DivModUnique(column + 12, 3, column / 3 + 4, column % 3);
    assert (row / 2 + column / 3 + 4) % 2 == (row / 2 + column / 3) % 2 by {
      DivModUnique(row / 2 + column / 3 + 4, 2, (row / 2 + column / 3) / 2 + 2, (row / 2 + column / 3) % 2);
    }
  }

  lemma ModSix(p: nat, n: nat)
    ensures (p + 6 * n) % 2 == p % 2 && (p + 6 * n) % 3 == p % 3
  {
    DivModUnique(p + 6 * n, 2, p / 2 + 3 * n, p % 2);
    DivModUnique(p + 6 * n, 3, p / 3 + 2 * n, p % 3);
  }

  // ---------------------------------------------------------------------
  // Polynomial remainder over GF(2)

  /** Coefficient sum over GF(2). */
  function Add(a: nat, b: nat): nat {
    if a % 2 == b % 2 then 0 else 1
  }

  /**
   * The remainder of `p` (most significant coefficient first) by `g`, by long
   * division: while `p` is longer than the remainder, a leading 1 subtracts
   * `g` from the front, and the leading coefficient is dropped.
   */
  function PolyRest(p: seq<nat>, g: seq<nat>): (r: seq<nat>)
    requires 0 < |g| <= |p| + 1
    ensures |r| == |g| - 1
    decreases |p|
  {
    if |p| == |g| - 1 then p
    else PolyRest(Step(p, g)[1..], g)
  }

  /** One step of the division: subtract `g` from the front when `p` leads with a 1. */
  function Step(p: seq<nat>, g: seq<nat>): (r: seq<nat>)
    requires 0 < |g| <= |p|
    ensures |r| == |p|
  {
    if p[0] % 2 == 1 then seq(|p|, i requires 0 <= i < |p| => if i < |g| then Add(p[i], g[i]) else p[i]) else p
  }

  function Zeros(n: nat): (r: seq<nat>)
    ensures |r| == n && forall i :: 0 <= i < n ==> r[i] == 0
  {
    seq(n, _ => 0)
  }

  /** Coefficient-wise sum of two polynomials of the same length. */
  function Plus(a: seq<nat>, b: seq<nat>): (r: seq<nat>)
    requires |a| == |b|
    ensures |r| == |a|
  {
    seq(|a|, i requires 0 <= i < |a| => Add(a[i], b[i]))
  }

  predicate Binary(p: seq<nat>) {
    forall i :: 0 <= i < |p| ==> p[i] < 2
  }

  /** The remainder is linear: the remainder of a sum is the sum of the remainders. */
  lemma {:induction false} PolyRestLinear(a: seq<nat>, b: seq<nat>, g: seq<nat>)
    requires |a| == |b| && 0 < |g| <= |a| + 1 && g[0] == 1 && Binary(a) && Binary(b) && Binary(g)
    ensures PolyRest(Plus(a, b), g) == Plus(PolyRest(a, g), PolyRest(b, g))
    decreases |a|
  {
    if |a| == |g| - 1 {
    } else {
      var sa, sb := Step(a, g), Step(b, g);
      StepPlus(a, b, g);
      PlusTail(sa, sb);
      StepBinary(a, g);
      StepBinary(b, g);
      PolyRestLinear(sa[1..], sb[1..], g);
    }
  }

  /** One division step commutes with the sum. */
  lemma StepPlus(a: seq<nat>, b: seq<nat>, g: seq<nat>)
    requires |a| == |b| && 0 < |g| <= |a| && Binary(a) && Binary(b) && Binary(g)
    ensures Step(Plus(a, b), g) == Plus(Step(a, g), Step(b, g))
  {
    var s, sa, sb := Step(Plus(a, b), g), Step(a, g), Step(b, g);
    forall i | 0 <= i < |a|
      ensures s[i] == Add(sa[i], sb[i])
    {
      if i < |g| {
        AddStep(a[0], b[0], a[i], b[i], g[i]);
      }
    }
  }

  /** Pointwise form of StepPlus: adding `g` under the leading bits of `a` and `b`. */
  lemma AddStep(a0: nat, b0: nat, x: nat, y: nat, gi: nat)
    requires a0 < 2 && b0 < 2 && x < 2 && y < 2 && gi < 2
    ensures (if Add(a0, b0) % 2 == 1 then Add(Add(x, y), gi) else Add(x, y))
            == Add(if a0 % 2 == 1 then Add(x, gi) else x, if b0 % 2 == 1 then Add(y, gi) else y)
  {
    assert a0 % 2 == a0 && b0 % 2 == b0 && x % 2 == x && y % 2 == y && gi % 2 == gi;
  }

  lemma PlusTail(a: seq<nat>, b: seq<nat>)
    requires |a| == |b| > 0
    ensures Plus(a, b)[1..] == Plus(a[1..], b[1..])
  {
  }

  lemma StepBinary(p: seq<nat>, g: seq<nat>)
    requires 0 < |g| <= |p| && Binary(p) && Binary(g)
    ensures Binary(Step(p, g)) && Binary(Step(p, g)[1..])
  {
  }

  /** Leading zeros do not change the remainder. */
  lemma {:induction false} PolyRestOfShort(k: nat, r: seq<nat>, g: seq<nat>)
    requires |r| + 1 == |g| && g[0] == 1
    ensures PolyRest(Zeros(k) + r, g) == r
    decreases k
  {
    if k > 0 {
      var p := Zeros(k) + r;
      assert Step(p, g) == p;
      assert p[1..] == Zeros(k - 1) + r;
      PolyRestOfShort(k - 1, r, g);
    }
  }

  /**
   * Systematic BCH encoding: the data followed by the remainder of the data
   * shifted past the remainder's width leaves no remainder, so every format
   * and version word built below is a multiple of its generator.
   */
  lemma CodewordHasNoRest(data: seq<nat>, g: seq<nat>)
    requires 0 < |g| && g[0] == 1 && Binary(data) && Binary(g)
    ensures var rest := PolyRest(data + Zeros(|g| - 1), g);
            PolyRest(data + rest, g) == Zeros(|g| - 1)
  {
    var n := |g| - 1;
    var shifted := data + Zeros(n);
    var rest := PolyRest(shifted, g);
    RestBinary(shifted, g);
    var tail := Zeros(|data|) + rest;
    SplitSum(data, rest);
    PolyRestLinear(shifted, tail, g);
    PolyRestOfShort(|data|, rest, g);
    SelfSum(rest);
  }

  /** `data + rest` is `data` shifted past `rest`, plus `rest` behind leading zeros. */
  lemma SplitSum(data: seq<nat>, rest: seq<nat>)
    requires Binary(data) && Binary(rest)
    ensures data + rest == Plus(data + Zeros(|rest|), Zeros(|data|) + rest)
  {
    var a, b := data + Zeros(|rest|), Zeros(|data|) + rest;
    forall i | 0 <= i < |data| + |rest| ensures (data + rest)[i] == Plus(a, b)[i] {
      if i < |data| {
        assert a[i] == data[i] && b[i] == 0;
      } else {
        assert a[i] == 0 && b[i] == rest[i - |data|];
      }
    }
  }

  lemma SelfSum(p: seq<nat>)
    ensures Plus(p, p) == Zeros(|p|)
  {
    forall i | 0 <= i < |p| ensures Plus(p, p)[i] == 0 {
      DivModUnique(p[i] + p[i], 2, p[i], 0);
    }
  }

  lemma {:induction false} RestBinary(p: seq<nat>, g: seq<nat>)
    requires 0 < |g| <= |p| + 1 && Binary(p) && Binary(g)
    ensures Binary(PolyRest(p, g))
    decreases |p|
  {
    if |p| > |g| - 1 {
      StepBinary(p, g);
      RestBinary(Step(p, g)[1..], g);
    }
  }

  // ---------------------------------------------------------------------
  // Format information (getFormatModules)

  const EdcOrder: string := "MLHQ"
  const FormatDivisor: seq<nat> := [1, 0, 1, 0, 0, 1, 1, 0, 1, 1, 1]
  const FormatMask: seq<nat> := [1, 0, 1, 0, 1, 0, 0, 0, 0, 0, 1, 0, 0, 1, 0]
  const VersionDivisor: seq<nat> := [1, 1, 1, 1, 1, 0, 0, 1, 0, 0, 1, 0, 1]

  /** `'MLHQ'.indexOf(errorLevel)` for one of the four level letters. */
  function LevelIndex(errorLevel: char): (r: nat)
    requires errorLevel in EdcOrder
    ensures r < 4 && EdcOrder[r] == errorLevel
  {
    if errorLevel == 'M' then 0 else if errorLevel == 'L' then 1 else if errorLevel == 'H' then 2 else 3
  }

  /** The five data bits: the level index in two bits, then the mask index in three. */
  function FormatData(errorLevel: char, maskIndex: nat): (r: seq<nat>)
    requires errorLevel in EdcOrder && maskIndex < 8
    ensures |r| == 5 && Binary(r)
  {
    var e := LevelIndex(errorLevel);
    [e / 2, e % 2, maskIndex / 4, (maskIndex / 2) % 2, maskIndex % 2]
  }

  /** `getFormatModules` (lib/BitMatrix.js:501-515): data, BCH remainder, then XOR with the format mask. */
  function FormatModules(errorLevel: char, maskIndex: nat): (r: seq<nat>)
    requires errorLevel in EdcOrder && maskIndex < 8
    ensures |r| == 15
  {
    var data := FormatData(errorLevel, maskIndex);
    var poly := data + PolyRest(data + Zeros(10), FormatDivisor);
    seq(15, i requires 0 <= i < 15 => Add(poly[i], FormatMask[i]))
  }

  /** The five data bits of a format word, the format mask taken off. */
  function UnmaskedData(word: seq<nat>): (b: seq<nat>)
    requires |word| == 15
    ensures |b| == 5
  {
    seq(5, i requires 0 <= i < 5 => Add(word[i], FormatMask[i]))
  }

  /** The level and the mask that five data bits spell. */
  function DecodeData(b: seq<nat>): (char, nat)
    requires |b| == 5
  {
    (EdcOrder[2 * (b[0] % 2) + b[1] % 2], 4 * (b[2] % 2) + 2 * (b[3] % 2) + b[4] % 2)
  }

  /** Reading the level and mask back from a format word, as a decoder does. */
  function DecodeFormat(word: seq<nat>): (char, nat)
    requires |word| == 15
  {
    DecodeData(UnmaskedData(word))
  }

  /** The format word carries exactly its level and mask: a decoder reads both back. */
  lemma FormatRoundTrip(errorLevel: char, maskIndex: nat)
    requires errorLevel in EdcOrder && maskIndex < 8
    ensures DecodeFormat(FormatModules(errorLevel, maskIndex)) == (errorLevel, maskIndex)
  {
    FormatDataBack(errorLevel, maskIndex);
    FormatDataDecodes(errorLevel, maskIndex);
  }

  /** Taking the format mask off the format word gives its data bits back. */
  lemma FormatDataBack(errorLevel: char, maskIndex: nat)
    requires errorLevel in EdcOrder && maskIndex < 8
    ensures UnmaskedData(FormatModules(errorLevel, maskIndex)) == FormatData(errorLevel, maskIndex)
  {
    var data := FormatData(errorLevel, maskIndex);
    var poly := data + PolyRest(data + Zeros(10), FormatDivisor);
    RestBinary(data + Zeros(10), FormatDivisor);
    var w := FormatModules(errorLevel, maskIndex);
    Unmask(poly, w);
    forall i | 0 <= i < 5
      ensures UnmaskedData(w)[i] == data[i]
    {
      assert UnmaskedData(w)[i] == seq(15, i requires 0 <= i < 15 => Add(w[i], FormatMask[i]))[i];
    }
  }

  /** The data bits spell the level and the mask they were built from. */
  lemma FormatDataDecodes(errorLevel: char, maskIndex: nat)
    requires errorLevel in EdcOrder && maskIndex < 8
    ensures DecodeData(FormatData(errorLevel, maskIndex)) == (errorLevel, maskIndex)
  {
    BinaryDigits(LevelIndex(errorLevel), maskIndex);
  }

  lemma BinaryDigits(e: nat, m: nat)
    requires e < 4 && m < 8
    ensures 2 * (e / 2 % 2) + e % 2 % 2 == e
    ensures 4 * (m / 4 % 2) + 2 * ((m / 2) % 2 % 2) + m % 2 % 2 == m
  {
    assert e == 0 || e == 1 || e == 2 || e == 3;
    assert m == 0 || m == 1 || m == 2 || m == 3 || m == 4 || m == 5 || m == 6 || m == 7;
  }

  /** Unmasked, the format word is a multiple of the format generator (section 7.9.1 of ISO/IEC 18004). */
  lemma FormatIsCodeword(errorLevel: char, maskIndex: nat)
    requires errorLevel in EdcOrder && maskIndex < 8
    ensures var w := FormatModules(errorLevel, maskIndex);
            PolyRest(seq(15, i requires 0 <= i < 15 => Add(w[i], FormatMask[i])), FormatDivisor) == Zeros(10)
  {
    var data := FormatData(errorLevel, maskIndex);
    var poly := data + PolyRest(data + Zeros(10), FormatDivisor);
    RestBinary(data + Zeros(10), FormatDivisor);
    Unmask(poly, FormatModules(errorLevel, maskIndex));
    CodewordHasNoRest(data, FormatDivisor);
  }

  /** XOR with the format mask twice gives back the unmasked word. */
  lemma Unmask(poly: seq<nat>, w: seq<nat>)
    requires |poly| == 15 && Binary(poly)
    requires w == seq(15, i requires 0 <= i < 15 => Add(poly[i], FormatMask[i]))
    ensures seq(15, i requires 0 <= i < 15 => Add(w[i], FormatMask[i])) == poly
  {
  }

  // ---------------------------------------------------------------------
  // Version information (getVersionInformation)

  /** `getVersionInformation` (lib/BitMatrix.js:532-539): six version bits, then the 12-bit BCH remainder. */
  function VersionInformation(version: nat): (r: seq<nat>)
    ensures |r| == 18
  {
    var data := Bitstream.FieldBits(version, 6);
    data + PolyRest(data + Zeros(12), VersionDivisor)
  }

  /**
   * The first six bits are the version in binary, most significant first,
   * and the whole word is a multiple of the version generator.
   */
  lemma VersionInformationMeaning(version: nat)
    requires version < 64
    ensures var w := VersionInformation(version);
            Binary(w) &&
            32 * w[0] + 16 * w[1] + 8 * w[2] + 4 * w[3] + 2 * w[4] + w[5] == version &&
            PolyRest(w, VersionDivisor) == Zeros(12)
  {
    var data := Bitstream.FieldBits(version, 6);
    SixBits(version);
    RestBinary(data + Zeros(12), VersionDivisor);
    CodewordHasNoRest(data, VersionDivisor);
  }

  lemma SixBits(version: nat)
    requires version < 64
    ensures var d := Bitstream.FieldBits(version, 6);
            Binary(d) && 32 * d[0] + 16 * d[1] + 8 * d[2] + 4 * d[3] + 2 * d[4] + d[5] == version
  {
    var d := Bitstream.FieldBits(version, 6);
    var x1 := version / 2;
    var x2 := x1 / 2;
    var x3 := x2 / 2;
    var x4 := x3 / 2;
    var x5 := x4 / 2;
    assert d[5] == Bit(version, 0) == version % 2;
    assert d[4] == Bit(version, 1) == Bit(x1, 0) == x1 % 2;
    assert d[3] == Bit(version, 2) == Bit(x1, 1) == Bit(x2, 0) == x2 % 2;
    assert d[2] == Bit(version, 3) == Bit(x1, 2) == Bit(x2, 1) == Bit(x3, 0) == x3 % 2;
    assert d[1] == Bit(version, 4) == Bit(x1, 3) == Bit(x2, 2) == Bit(x3, 1) == Bit(x4, 0) == x4 % 2;
    assert d[0] == Bit(version, 5) == Bit(x1, 4) == Bit(x2, 3) == Bit(x3, 2) == Bit(x4, 1) == Bit(x5, 0) == x5 % 2;
    SixDigits(version, x1, x2, x3, x4, x5);
  }

  /** Six binary digits, each the last digit of the previous quotient by two, make up the number. */
  lemma SixDigits(v: nat, x1: nat, x2: nat, x3: nat, x4: nat, x5: nat)
    requires v < 64 && x1 == v / 2 && x2 == x1 / 2 && x3 == x2 / 2 && x4 == x3 / 2 && x5 == x4 / 2
    ensures 32 * (x5 % 2) + 16 * (x4 % 2) + 8 * (x3 % 2) + 4 * (x2 % 2) + 2 * (x1 % 2) + v % 2 == v
  {
    assert v == 2 * x1 + v % 2;
    assert x1 == 2 * x2 + x1 % 2;
    assert x2 == 2 * x3 + x2 % 2;
    assert x3 == 2 * x4 + x3 % 2;
    assert x4 == 2 * x5 + x4 % 2;
    assert x5 < 2;
  }

  /** Version 26, worked in the comment at lib/BitMatrix.js:530-531. */
  lemma Version26()
    ensures VersionInformation(26) == [0, 1, 1, 0, 1, 0, 1, 1, 1, 1, 1, 0, 1, 0, 1, 0, 1, 1]
  {
    Version26Data();
    Version26Rest();
    Version26Word([0, 1, 1, 0, 1, 0], [1, 1, 1, 1, 1, 0, 1, 0, 1, 0, 1, 1]);
  }

  lemma Version26Word(data: seq<nat>, rest: seq<nat>)
    requires data == [0, 1, 1, 0, 1, 0] && rest == [1, 1, 1, 1, 1, 0, 1, 0, 1, 0, 1, 1]
    ensures data + rest == [0, 1, 1, 0, 1, 0, 1, 1, 1, 1, 1, 0, 1, 0, 1, 0, 1, 1]
  {
  }

  /** The long division of `011010` followed by twelve zeros, one step per lemma. */
  lemma Version26Rest()
    ensures PolyRest(Bitstream.FieldBits(26, 6) + Zeros(12), VersionDivisor) == [1, 1, 1, 1, 1, 0, 1, 0, 1, 0, 1, 1]
  {
    Version26Data();
    Version26Step1();
    Version26Step2();
    Version26Step3();
    Version26Step4();
    Version26Step5();
    Version26Step6();
  }

  lemma Version26Data()
    ensures Bitstream.FieldBits(26, 6) == [0, 1, 1, 0, 1, 0]
    ensures Bitstream.FieldBits(26, 6) + Zeros(12) == [0, 1, 1, 0, 1, 0, 0, 0, 0, 0, 0, 0, 0, 0, 0, 0, 0, 0]
  {
    assert Bit(26, 0) == 0;
    assert Bit(26, 1) == Bit(13, 0) == 1;
    assert Bit(26, 2) == Bit(13, 1) == Bit(6, 0) == 0;
    assert Bit(26, 3) == Bit(13, 2) == Bit(6, 1) == Bit(3, 0) == 1;
    assert Bit(26, 4) == Bit(13, 3) == Bit(6, 2) == Bit(3, 1) == Bit(1, 0) == 1;
    assert Bit(26, 5) == Bit(13, 4) == Bit(6, 3) == Bit(3, 2) == Bit(1, 1) == Bit(0, 0) == 0;
    assert Bitstream.FieldBits(26, 6) == [0, 1, 1, 0, 1, 0];
  }

  lemma Version26Step1()
    ensures PolyRest([0, 1, 1, 0, 1, 0, 0, 0, 0, 0, 0, 0, 0, 0, 0, 0, 0, 0], VersionDivisor) == PolyRest([1, 1, 0, 1, 0, 0, 0, 0, 0, 0, 0, 0, 0, 0, 0, 0, 0], VersionDivisor)
  {
    assert Step([0, 1, 1, 0, 1, 0, 0, 0, 0, 0, 0, 0, 0, 0, 0, 0, 0, 0], VersionDivisor) == [0, 1, 1, 0, 1, 0, 0, 0, 0, 0, 0, 0, 0, 0, 0, 0, 0, 0];
  }

  lemma Version26Step2()
    ensures PolyRest([1, 1, 0, 1, 0, 0, 0, 0, 0, 0, 0, 0, 0, 0, 0, 0, 0], VersionDivisor) == PolyRest([0, 1, 0, 1, 0, 0, 1, 0, 0, 1, 0, 1, 0, 0, 0, 0], VersionDivisor)
  {
    assert Step([1, 1, 0, 1, 0, 0, 0, 0, 0, 0, 0, 0, 0, 0, 0, 0, 0], VersionDivisor) == [0, 0, 1, 0, 1, 0, 0, 1, 0, 0, 1, 0, 1, 0, 0, 0, 0];
  }

  lemma Version26Step3()
    ensures PolyRest([0, 1, 0, 1, 0, 0, 1, 0, 0, 1, 0, 1, 0, 0, 0, 0], VersionDivisor) == PolyRest([1, 0, 1, 0, 0, 1, 0, 0, 1, 0, 1, 0, 0, 0, 0], VersionDivisor)
  {
    assert Step([0, 1, 0, 1, 0, 0, 1, 0, 0, 1, 0, 1, 0, 0, 0, 0], VersionDivisor) == [0, 1, 0, 1, 0, 0, 1, 0, 0, 1, 0, 1, 0, 0, 0, 0];
  }

  lemma Version26Step4()
    ensures PolyRest([1, 0, 1, 0, 0, 1, 0, 0, 1, 0, 1, 0, 0, 0, 0], VersionDivisor) == PolyRest([1, 0, 1, 1, 1, 0, 1, 1, 0, 0, 0, 1, 0, 0], VersionDivisor)
  {
    assert Step([1, 0, 1, 0, 0, 1, 0, 0, 1, 0, 1, 0, 0, 0, 0], VersionDivisor) == [0, 1, 0, 1, 1, 1, 0, 1, 1, 0, 0, 0, 1, 0, 0];
  }

  lemma Version26Step5()
    ensures PolyRest([1, 0, 1, 1, 1, 0, 1, 1, 0, 0, 0, 1, 0, 0], VersionDivisor) == PolyRest([1, 0, 0, 0, 0, 1, 0, 0, 0, 1, 1, 1, 0], VersionDivisor)
  {
    assert Step([1, 0, 1, 1, 1, 0, 1, 1, 0, 0, 0, 1, 0, 0], VersionDivisor) == [0, 1, 0, 0, 0, 0, 1, 0, 0, 0, 1, 1, 1, 0];
  }

  lemma Version26Step6()
    ensures PolyRest([1, 0, 0, 0, 0, 1, 0, 0, 0, 1, 1, 1, 0], VersionDivisor) == PolyRest([1, 1, 1, 1, 1, 0, 1, 0, 1, 0, 1, 1], VersionDivisor)
  {
    assert Step([1, 0, 0, 0, 0, 1, 0, 0, 0, 1, 1, 1, 0], VersionDivisor) == [0, 1, 1, 1, 1, 1, 0, 1, 0, 1, 0, 1, 1];
  }

  // ---------------------------------------------------------------------
  // Alignment pattern coordinates (getAlignmentCoordinates)

  /**
   * The spacing of lib/BitMatrix.js:521, `Math.ceil(distance / intervals / 2) * 2`,
   * in integers: twice the rounded-up quotient of `distance` by `2 * intervals`.
   */
  function CeilStep(version: nat): nat {
    var intervals := version / 7 + 1;
    var distance := 4 * version + 4;
    2 * ((distance + 2 * intervals - 1) / (2 * intervals))
  }

  /** Row/column 6, then `intervals` tracks spaced by `step` that end at `distance + 6`. */
  function Tracks(version: nat, step: nat): (r: seq<int>)
    ensures |r| == version / 7 + 2
  {
    var intervals := version / 7 + 1;
    var distance := 4 * version + 4;
    [6] + seq(intervals, index requires 0 <= index < intervals => distance + 6 - (intervals - 1 - index) * step)
  }

  /** `getAlignmentCoordinates` as written (lib/BitMatrix.js:517-528). */
  function AlignmentCoordinatesAsWritten(version: nat): seq<int> {
    if version == 1 then [] else Tracks(version, CeilStep(version))
  }

  /**
   * The coordinates of Table E.1 of ISO/IEC 18004: the same rule, except
   * that version 32 is spaced by 26 modules, where the rule gives 28.
   */
  function AlignmentCoordinates(version: nat): seq<int> {
    if version == 1 then [] else Tracks(version, AlignmentStep(version))
  }

  function AlignmentStep(version: nat): nat {
    if version == 32 then 26 else CeilStep(version)
  }

  /** The version 32 row of Table E.1, and what the code as written gives instead. */
  lemma AlignmentVersion32()
    ensures AlignmentCoordinates(32) == [6, 34, 60, 86, 112, 138]
    ensures AlignmentCoordinatesAsWritten(32) == [6, 26, 54, 82, 110, 138]
  {
    assert CeilStep(32) == 28;
  }

  /** Away from version 32 the two agree. */
  lemma AlignmentAgrees(version: nat)
    requires version != 32
    ensures AlignmentCoordinates(version) == AlignmentCoordinatesAsWritten(version)
  {
  }

  /**
   * For versions 2 to 40 the tracks start at 6, end at `size - 7`, number
   * `version / 7 + 2`, and rise strictly by an even spacing, so every
   * alignment pattern lies inside the symbol.
   */
  lemma AlignmentShape(version: nat)
    requires 2 <= version <= 40
    ensures var r := AlignmentCoordinates(version);
            |r| == version / 7 + 2 && r[0] == 6 && r[|r| - 1] == Size(version) - 7 &&
            (forall i :: 0 <= i < |r| - 1 ==> r[i] < r[i + 1]) &&
            (forall i :: 1 <= i < |r| - 1 ==> r[i + 1] - r[i] == AlignmentStep(version)) &&
            (forall i :: 0 <= i < |r| ==> 6 <= r[i] <= Size(version) - 7) &&
            AlignmentStep(version) % 2 == 0
  {
    StepFits(version);
    TracksShape(version, AlignmentStep(version));
  }

  lemma TracksShape(version: nat, step: nat)
    requires 0 < step && (version / 7) * step < 4 * version + 4
    ensures var r := Tracks(version, step);
            r[0] == 6 && r[|r| - 1] == 4 * version + 10 &&
            (forall i :: 0 <= i < |r| - 1 ==> r[i] < r[i + 1]) &&
            (forall i :: 1 <= i < |r| - 1 ==> r[i + 1] - r[i] == step) &&
            (forall i :: 0 <= i < |r| ==> 6 <= r[i] <= 4 * version + 10) &&
            (forall i :: 1 <= i < |r| ==> r[i] == 4 * version + 10 - (|r| - 1 - i) * step)
  {
    var r := Tracks(version, step);
    var n := version / 7 + 1;
    TracksFormula(version, step);
    forall i | 1 <= i < |r| - 1
      ensures r[i + 1] - r[i] == step
    {
      assert (n - i) * step == (n - i - 1) * step + step;
    }
  }

  lemma TracksFormula(version: nat, step: nat)
    requires 0 < step && (version / 7) * step < 4 * version + 4
    ensures var r := Tracks(version, step);
            forall i :: 1 <= i < |r| ==> r[i] == 4 * version + 10 - (|r| - 1 - i) * step && 6 < r[i] <= 4 * version + 10
  {
    var r := Tracks(version, step);
    var n := version / 7 + 1;
    forall i | 1 <= i < |r|
      ensures r[i] == 4 * version + 10 - (n - i) * step && 6 < r[i] <= 4 * version + 10
    {
      MulLe(n - i, n - 1, step);
    }
  }

  /** The spacing is even and the first interior track lies beyond 6. */
  lemma StepFits(version: nat)
    requires 2 <= version <= 40
    ensures var step := AlignmentStep(version);
            0 < step && step % 2 == 0 && (version / 7) * step < 4 * version + 4
  {
    var intervals := version / 7 + 1;
    if intervals == 1 {
    } else if intervals == 2 {
      assert CeilStep(version) == 2 * ((4 * version + 7) / 4);
    } else if intervals == 3 {
      assert CeilStep(version) == 2 * ((4 * version + 9) / 6);
    } else if intervals == 4 {
      assert CeilStep(version) == 2 * ((4 * version + 11) / 8);
    } else if intervals == 5 {
      assert CeilStep(version) == 2 * ((4 * version + 13) / 10);
    } else {
      assert CeilStep(version) == 2 * ((4 * version + 15) / 12);
    }
  }

  /**
   * Alignment tracks other than the first lie at 11 or beyond, and tracks
   * other than the last at `size - 11` or before, so no alignment pattern
   * reaches a finder corner except the three the loops skip.
   */
  lemma AlignmentClear(version: nat)
    requires 2 <= version <= 40
    ensures var r := AlignmentCoordinates(version);
            (forall i :: 0 < i < |r| ==> r[i] >= 11) &&
            (forall i :: 0 <= i < |r| - 1 ==> r[i] <= Size(version) - 11)
  {
    StepFits(version);
    TracksShape(version, AlignmentStep(version));
    if version >= 7 {
      StepBounds(version);
      TracksClear(version, AlignmentStep(version));
    }
  }

  lemma TracksClear(version: nat, step: nat)
    requires 7 <= version && step >= 4 && (version / 7) * step <= 4 * version - 1
    requires var r := Tracks(version, step);
             forall i :: 1 <= i < |r| ==> r[i] == 4 * version + 10 - (|r| - 1 - i) * step
    ensures var r := Tracks(version, step);
            (forall i :: 0 < i < |r| ==> r[i] >= 11) &&
            (forall i :: 0 <= i < |r| - 1 ==> r[i] <= Size(version) - 11)
  {
    var r := Tracks(version, step);
    var n := version / 7 + 1;
    forall i | 0 < i < |r|
      ensures r[i] >= 11
    {
      MulLe(n - i, n - 1, step);
    }
    forall i | 0 < i < |r| - 1
      ensures r[i] <= Size(version) - 11
    {
      MulLe(1, n - i, step);
    }
  }

  /** With two or more intervals the spacing is at least 4 and the interior tracks span less than `4 * version`. */
  lemma StepBounds(version: nat)
    requires 7 <= version <= 40
    ensures var step := AlignmentStep(version);
            step >= 4 && (version / 7) * step <= 4 * version - 1
  {
    var intervals := version / 7 + 1;
    if version == 32 {
    } else if intervals == 2 {
      assert CeilStep(version) == 2 * ((4 * version + 7) / 4);
    } else if intervals == 3 {
      assert CeilStep(version) == 2 * ((4 * version + 9) / 6);
    } else if intervals == 4 {
      assert CeilStep(version) == 2 * ((4 * version + 11) / 8);
    } else if intervals == 5 {
      assert CeilStep(version) == 2 * ((4 * version + 13) / 10);
    } else {
      assert CeilStep(version) == 2 * ((4 * version + 15) / 12);
    }
  }
}
