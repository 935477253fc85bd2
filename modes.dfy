/**
 * The four encoding modes of index.js (section 7.4 of ISO/IEC 18004):
 * how a mode is chosen for a content string, how wide its character-count
 * field is, how many characters fit in a number of bits, and how the
 * content is cut into (value, bit length) chunks.
 *
 * Three things the encoder takes from code it imports are parameters here,
 * bundled in `Foreign`: membership in the Han/Hiragana/Katakana scripts, the
 * Shift JIS code of a character, and the bytes the byte encoder produces.
 */
module Modes {

  import opened Wrappers
  import Bits

  datatype Mode = NumericMode | AlphanumericMode | UtfMode | KanjiMode

  /** What the encoder learns from imported code it does not define. */
  datatype Foreign = Foreign(
    isKanji: char -> bool,
    shiftJis: char -> int,
    byteEncoder: string -> seq<Bits.Byte>)

  /** The argument of the encoder: a string, or any other JavaScript value. */
  datatype Content = Text(s: string) | NotText

  datatype EncodeError = InvalidContent | NoEncodingMode

  /** One piece of the data bit stream: `value` written in `bitLength` bits. */
  datatype Chunk = Chunk(value: int, bitLength: nat)

  /** The 4-bit mode indicator (`valueOf`): one bit per mode, in the order they are tried. */
  function Id(m: Mode): (r: nat)
    ensures r == Bits.Pow2(Rank(m)) && r < 16
  {
    match m
    case NumericMode => 1
    case AlphanumericMode => 2
    case UtfMode => 4
    case KanjiMode => 8
  }

  /** The order in which index.js:180-190 tries the modes. */
  function Rank(m: Mode): nat {
    match m
    case NumericMode => 0
    case AlphanumericMode => 1
    case UtfMode => 2
    case KanjiMode => 3
  }

  // ---------------------------------------------------------------------
  // Character sets

  predicate IsDigit(c: char) {
    '0' <= c <= '9'
  }

  /**
   * The character of alphanumeric code `k`: the 45 characters
   * `0123456789ABCDEFGHIJKLMNOPQRSTUVWXYZ $%*+-./:` in this order
   * (`ALPHACHAR_MAP`, index.js:15).
   */
  function AlphaChar(k: nat): char
    requires k < 45
  {
    if k < 10 then (48 + k) as char
    else if k < 36 then (55 + k) as char
    else if k == 36 then ' '
    else if k == 37 then '$'
    else if k == 38 then '%'
    else if k == 39 then '*'
    else if k == 40 then '+'
    else if k == 41 then '-'
    else if k == 42 then '.'
    else if k == 43 then '/'
    else ':'
  }

  /** The character class of `ALPHANUMERIC_RE` (index.js:10). */
  predicate IsAlphanumeric(c: char) {
    IsDigit(c) || 'A' <= c <= 'Z' || c == ' ' || c == '$' || c == '%' || c == '*' ||
    c == '+' || c == '-' || c == '.' || c == '/' || c == ':'
  }

  /** `ALPHACHAR_MAP.indexOf(c)`: the alphanumeric code of a character. */
  function AlphaCode(c: char): (k: nat)
    requires IsAlphanumeric(c)
    ensures k < 45 && AlphaChar(k) == c
  {
    if IsDigit(c) then c as int - 48
    else if 'A' <= c <= 'Z' then c as int - 55
    else if c == ' ' then 36
    else if c == '$' then 37
    else if c == '%' then 38
    else if c == '*' then 39
    else if c == '+' then 40
    else if c == '-' then 41
    else if c == '.' then 42
    else if c == '/' then 43
    else 44
  }

  predicate IsLatin1(c: char) {
    c as int <= 0xFF
  }

  /**
   * `content.length` in JavaScript: the number of UTF-16 code units, two
   * for a character above U+FFFF and one for every other.
   */
  function Utf16Length(s: string): (r: nat)
    ensures |s| <= r <= 2 * |s|
  {
    if s == [] then 0 else Utf16Length(s[..|s| - 1]) + (if s[|s| - 1] as int > 0xFFFF then 2 else 1)
  }

  /** A string of characters up to U+FFFF has as many code units as characters. */
  lemma {:induction false} BmpLength(s: string)
    requires forall i :: 0 <= i < |s| ==> s[i] as int <= 0xFFFF
    ensures Utf16Length(s) == |s|
  {
    if s != [] {
      BmpLength(s[..|s| - 1]);
    }
  }

  /** A character above U+FFFF counts twice: its string is longer in code units than in characters. */
  lemma {:induction false} AstralLength(s: string, i: nat)
    requires i < |s| && s[i] as int > 0xFFFF
    ensures Utf16Length(s) > |s|
  {
    if i < |s| - 1 {
      AstralLength(s[..|s| - 1], i);
    }
  }

  /** Whether every character of `s` may be written in mode `m`. */
  predicate Covers(m: Mode, s: string, foreign: Foreign) {
    match m
    case NumericMode => AllDigits(s)
    case AlphanumericMode => AllAlphanumeric(s)
    case UtfMode => forall i :: 0 <= i < |s| ==> IsLatin1(s[i])
    case KanjiMode => forall i :: 0 <= i < |s| ==> foreign.isKanji(s[i])
  }

  /** In every mode but Kanji the content's length is its number of characters. */
  lemma CoversLength(m: Mode, s: string, foreign: Foreign)
    requires Covers(m, s, foreign) && m != KanjiMode
    ensures Utf16Length(s) == |s|
  {
    BmpLength(s);
  }

  // ---------------------------------------------------------------------
  // Mode selection

  /**
   * The mode chosen by the `QREncoder` constructor (index.js:176-190): a
   * non-string is rejected, then the first mode whose character set covers
   * the content is taken, and a content no mode covers is rejected.
   */
  function SelectMode(content: Content, foreign: Foreign): (r: Result<Mode, EncodeError>)
    ensures content.NotText? <==> r == Failure(InvalidContent)
    ensures r.Success? ==> Covers(r.value, content.s, foreign)
    ensures r.Success? ==> forall m :: Rank(m) < Rank(r.value) ==> !Covers(m, content.s, foreign)
    ensures r == Failure(NoEncodingMode) <==>
              content.Text? && forall m :: !Covers(m, content.s, foreign)
  {
    match content
    case NotText => Failure(InvalidContent)
    case Text(s) =>
      if Covers(NumericMode, s, foreign) then Success(NumericMode)
      else if Covers(AlphanumericMode, s, foreign) then Success(AlphanumericMode)
      else if Covers(UtfMode, s, foreign) then Success(UtfMode)
      else if Covers(KanjiMode, s, foreign) then Success(KanjiMode)
      else Failure(NoEncodingMode)
  }

  /**
   * `QRView.encodingMode` (index.js:352-366): the indicator of the mode the
   * encoder would choose, or 0b0111 when no mode covers the string.
   */
  function EncodingModeId(s: string, foreign: Foreign): (r: nat)
    ensures r == 7 <==> SelectMode(Text(s), foreign).Failure?
    ensures SelectMode(Text(s), foreign).Success? ==> r == Id(SelectMode(Text(s), foreign).value)
  {
    if Covers(NumericMode, s, foreign) then 1
    else if Covers(AlphanumericMode, s, foreign) then 2
    else if Covers(UtfMode, s, foreign) then 4
    else if Covers(KanjiMode, s, foreign) then 8
    else 7
  }

  /**
   * The character sets are nested: digits are alphanumeric and alphanumeric
   * characters are Latin-1, so a content is rejected only when it has a
   * character beyond U+00FF that is not Kanji; the empty string is numeric.
   */
  lemma CharacterSetsNest(s: string, foreign: Foreign)
    ensures Covers(NumericMode, s, foreign) ==> Covers(AlphanumericMode, s, foreign)
    ensures Covers(AlphanumericMode, s, foreign) ==> Covers(UtfMode, s, foreign)
    ensures s == [] ==> SelectMode(Text(s), foreign) == Success(NumericMode)
    ensures SelectMode(Text(s), foreign) == Failure(NoEncodingMode) <==>
              exists i :: 0 <= i < |s| && !IsLatin1(s[i]) && !Covers(KanjiMode, s, foreign)
  {
    if SelectMode(Text(s), foreign) == Failure(NoEncodingMode) {
      assert !Covers(UtfMode, s, foreign);
    }
  }

  // ---------------------------------------------------------------------
  // Character-count field and capacity

  /** Width of the character-count field (index.js:38-40, 79-81, 115-117, 152-154). */
  function LengthBits(m: Mode, version: int): nat {
    match m
    case NumericMode => if version > 26 then 14 else if version > 9 then 12 else 10
    case AlphanumericMode => if version > 26 then 13 else if version > 9 then 11 else 9
    case UtfMode => if version > 26 then 16 else if version > 9 then 16 else 8
    case KanjiMode => if version > 26 then 12 else if version > 9 then 10 else 8
  }

  /**
   * The field only depends on the tier of the version (1-9, 10-26, 27-40)
   * and never shrinks as the version grows.
   */
  lemma LengthBitsByTier(m: Mode, v: int, w: int)
    requires v <= w
    ensures LengthBits(m, v) <= LengthBits(m, w)
    ensures (v <= 9 && w <= 9) || (10 <= v && w <= 26) || 27 <= v ==>
              LengthBits(m, v) == LengthBits(m, w)
    ensures 8 <= LengthBits(m, v) <= 16
  {
  }

  /** `%` of JavaScript: the remainder takes the sign of the dividend. */
  function JsRem(a: int, d: int): int
    requires d > 0
  {
    if a >= 0 then a % d else -((-a) % d)
  }

  /** `getCapacity`: how many characters fit in `bits` bits (index.js:47-53, 88-90, 124-126, 161-163). */
  function Capacity(m: Mode, bits: int): int {
    match m
    case NumericMode =>
      var rem := JsRem(bits, 10);
      (bits / 10) * 3 + (if rem > 6 then 2 else if rem > 3 then 1 else 0)
    case AlphanumericMode =>
      (bits / 11) * 2 + (if JsRem(bits, 11) > 5 then 1 else 0)
    case UtfMode => bits / 8
    case KanjiMode => bits / 13
  }

  /** The bits `n` characters take in mode `m`: three digits in 10 bits, two characters in 11, and so on. */
  function Cost(m: Mode, n: nat): nat {
    match m
    case NumericMode => 10 * (n / 3) + (if n % 3 == 2 then 7 else if n % 3 == 1 then 4 else 0)
    case AlphanumericMode => 11 * (n / 2) + 6 * (n % 2)
    case UtfMode => 8 * n
    case KanjiMode => 13 * n
  }

  lemma CostGrows(m: Mode, n: nat, k: nat)
    requires n <= k
    ensures Cost(m, n) <= Cost(m, k)
  {
  }

  lemma NumericCapacityTight(bits: int)
    ensures bits < 0 ==> Capacity(NumericMode, bits) < 0
    ensures bits >= 0 ==> Cost(NumericMode, Capacity(NumericMode, bits)) <= bits
    ensures bits >= 0 ==> Cost(NumericMode, Capacity(NumericMode, bits) + 1) > bits
  {
  }

  lemma AlphanumericCapacityTight(bits: int)
    ensures bits < 0 ==> Capacity(AlphanumericMode, bits) < 0
    ensures bits >= 0 ==> Cost(AlphanumericMode, Capacity(AlphanumericMode, bits)) <= bits
    ensures bits >= 0 ==> Cost(AlphanumericMode, Capacity(AlphanumericMode, bits) + 1) > bits
  {
  }

  /**
   * `getCapacity` is exact: `n` characters fit in `bits` bits exactly when
   * `n` is at most the capacity; a negative budget holds nothing.
   */
  lemma CapacityIsLargestFit(m: Mode, bits: int, n: nat)
    ensures n <= Capacity(m, bits) <==> Cost(m, n) <= bits
  {
    match m
    case NumericMode =>
      NumericCapacityTight(bits);
      if bits >= 0 {
        var c := Capacity(m, bits);
        if n <= c { CostGrows(m, n, c); } else { CostGrows(m, c + 1, n); }
      }
    case AlphanumericMode =>
      AlphanumericCapacityTight(bits);
      if bits >= 0 {
        var c := Capacity(m, bits);
        if n <= c { CostGrows(m, n, c); } else { CostGrows(m, c + 1, n); }
      }
    case UtfMode =>
    case KanjiMode =>
  }

  // ---------------------------------------------------------------------
  // Chunks (the `values` generators)

  /** Total number of bits of a list of chunks. */
  function TotalBits(chunks: seq<Chunk>): nat
    decreases |chunks|
  {
    if chunks == [] then 0 else chunks[0].bitLength + TotalBits(chunks[1..])
  }

  /** Every chunk's value fits in its bit length. */
  predicate AllFit(chunks: seq<Chunk>) {
    forall i :: 0 <= i < |chunks| ==> 0 <= chunks[i].value < Bits.Pow2(chunks[i].bitLength)
  }

  /** No chunk is wider than 13 bits, the Kanji width. */
  predicate Narrow(chunks: seq<Chunk>) {
    forall i :: 0 <= i < |chunks| ==> chunks[i].bitLength <= 13
  }

  predicate AllDigits(s: string) {
    forall i :: 0 <= i < |s| ==> IsDigit(s[i])
  }

  /** `parseInt(d, 10)` of a non-empty run of digits. */
  function Decimal(d: string): nat
    requires AllDigits(d)
    decreases |d|
  {
    if d == [] then 0 else 10 * Decimal(d[..|d| - 1]) + (d[|d| - 1] as int - 48)
  }

  function Pow10(k: nat): nat {
    if k == 0 then 1 else 10 * Pow10(k - 1)
  }

  lemma {:induction false} DecimalBound(d: string)
    requires AllDigits(d)
    ensures Decimal(d) < Pow10(|d|)
    decreases |d|
  {
    if d != [] {
      DecimalBound(d[..|d| - 1]);
    }
  }

  /** `BIT_WIDTHS` (index.js:14): the bits of a numeric chunk of 0 to 3 digits. */
  function BitWidth(digits: nat): nat
    requires digits <= 3
  {
    [0, 4, 7, 10][digits]
  }

  /** Numeric `values` (index.js:29-36): groups of three digits, the last group shorter. */
  function NumericValues(s: string): (r: seq<Chunk>)
    requires AllDigits(s)
    ensures |r| == (|s| + 2) / 3
    ensures TotalBits(r) == Cost(NumericMode, |s|)
    ensures AllFit(r) && Narrow(r)
    decreases |s|
  {
    if s == [] then []
    else
      var n := if |s| < 3 then |s| else 3;
      var head, rest := Chunk(Decimal(s[..n]), BitWidth(n)), NumericValues(s[n..]);
      NumericHead(s[..n]);
      NumericCostStep(|s|, n);
      assert ([head] + rest)[1..] == rest;
      [head] + rest
  }

  /** A group of one to three digits fits its width of 4, 7 or 10 bits. */
  lemma NumericHead(d: string)
    requires AllDigits(d) && 1 <= |d| <= 3
    ensures Decimal(d) < Bits.Pow2(BitWidth(|d|))
  {
    DecimalBound(d);
    assert Bits.Pow2(4) == 16 && Bits.Pow2(7) == 128 && Bits.Pow2(10) == 1024;
  }

  lemma NumericCostStep(len: nat, n: nat)
    requires 1 <= len && n == (if len < 3 then len else 3)
    ensures Cost(NumericMode, len) == BitWidth(n) + Cost(NumericMode, len - n)
  {
  }

  /** The `k` decimal digits of `v`, with leading zeros. */
  function Digits(v: nat, k: nat): string
    decreases k
  {
    if k == 0 then [] else Digits(v / 10, k - 1) + [(48 + v % 10) as char]
  }

  /** Reads numeric chunks back: a 10-bit chunk holds 3 digits, a 7-bit one 2, a 4-bit one 1. */
  function NumericDecode(chunks: seq<Chunk>): string
    decreases |chunks|
  {
    if chunks == [] then []
    else
      var c := chunks[0];
      var k := if c.bitLength == 10 then 3 else if c.bitLength == 7 then 2 else 1;
      Digits(if c.value < 0 then 0 else c.value, k) + NumericDecode(chunks[1..])
  }

  lemma {:induction false} DigitsOfDecimal(d: string)
    requires AllDigits(d)
    ensures Digits(Decimal(d), |d|) == d
    decreases |d|
  {
    if d != [] {
      var init, last := d[..|d| - 1], d[|d| - 1] as int - 48;
      Bits.DivModUnique(Decimal(d), 10, Decimal(init), last);
      DigitsOfDecimal(init);
      assert d == init + [d[|d| - 1]];
    }
  }

  lemma NumericDecodeHead(d: string, rest: seq<Chunk>)
    requires AllDigits(d) && 1 <= |d| <= 3
    ensures NumericDecode([Chunk(Decimal(d), BitWidth(|d|))] + rest) == d + NumericDecode(rest)
  {
    DigitsOfDecimal(d);
    assert ([Chunk(Decimal(d), BitWidth(|d|))] + rest)[1..] == rest;
  }

  /** Numeric chunks lose nothing: reading them back gives the digits. */
  lemma {:induction false} NumericRoundTrip(s: string)
    requires AllDigits(s)
    ensures NumericDecode(NumericValues(s)) == s
    decreases |s|
  {
    if s != [] {
      var n := if |s| < 3 then |s| else 3;
      NumericDecodeHead(s[..n], NumericValues(s[n..]));
      NumericRoundTrip(s[n..]);
      assert s == s[..n] + s[n..];
    }
  }

  predicate AllAlphanumeric(s: string) {
    forall i :: 0 <= i < |s| ==> IsAlphanumeric(s[i])
  }

  /** Alphanumeric `values` (index.js:69-77): pairs as `45 * first + second` in 11 bits, a last single character in 6. */
  function AlphanumericValues(s: string): (r: seq<Chunk>)
    requires AllAlphanumeric(s)
    ensures |r| == (|s| + 1) / 2
    ensures TotalBits(r) == Cost(AlphanumericMode, |s|)
    ensures forall i :: 0 <= i < |r| ==> 0 <= r[i].value < 2025
    decreases |s|
  {
    if s == [] then []
    else
      if |s| == 1 then [Chunk(AlphaCode(s[0]), 6)]
      else [Chunk(AlphaCode(s[0]) * 45 + AlphaCode(s[1]), 11)] + AlphanumericValues(s[2..])
  }

  /** Reads alphanumeric chunks back: an 11-bit chunk holds two codes, base 45. */
  function AlphanumericDecode(chunks: seq<Chunk>): string
    decreases |chunks|
  {
    if chunks == [] then [] else AlphaChunkDecode(chunks[0]) + AlphanumericDecode(chunks[1..])
  }

  /** One alphanumeric chunk read back: 11 bits hold two codes, 6 bits one. */
  function AlphaChunkDecode(c: Chunk): string {
    var v := c.value;
    if c.bitLength == 11 then [AlphaChar((v / 45) % 45), AlphaChar(v % 45)] else [AlphaChar(v % 45)]
  }

  /** Every alphanumeric chunk fits its width: a pair is at most 2024 < 2^11, a single code below 45 < 2^6. */
  lemma AlphanumericValuesFit(s: string)
    requires AllAlphanumeric(s)
    ensures AllFit(AlphanumericValues(s)) && Narrow(AlphanumericValues(s))
  {
    var r := AlphanumericValues(s);
    assert Bits.Pow2(6) == 64 && Bits.Pow2(11) == 2048;
    forall i | 0 <= i < |r|
      ensures 0 <= r[i].value < Bits.Pow2(r[i].bitLength) && r[i].bitLength <= 13
    {
      AlphanumericWidths(s, i);
    }
  }

  lemma {:induction false} AlphanumericWidths(s: string, i: nat)
    requires AllAlphanumeric(s) && i < |AlphanumericValues(s)|
    ensures AlphanumericValues(s)[i].bitLength == 11 ||
            (AlphanumericValues(s)[i].bitLength == 6 && AlphanumericValues(s)[i].value < 45)
    decreases |s|
  {
    if |s| >= 2 && i > 0 {
      AlphanumericWidths(s[2..], i - 1);
    }
  }

  /** An 11-bit pair chunk reads back as its two characters. */
  lemma AlphaChunkPair(c0: char, c1: char)
    requires IsAlphanumeric(c0) && IsAlphanumeric(c1)
    ensures AlphaChunkDecode(Chunk(AlphaCode(c0) * 45 + AlphaCode(c1), 11)) == [c0, c1]
  {
    var a, b := AlphaCode(c0), AlphaCode(c1);
    Bits.DivModUnique(a * 45 + b, 45, a, b);
    Bits.DivModUnique(a, 45, 0, a);
  }

  /** Reading chunks back starts with the characters of the first chunk. */
  lemma AlphanumericDecodeFirst(chunks: seq<Chunk>, first: Chunk, rest: seq<Chunk>, prefix: string)
    requires |chunks| > 0 && chunks[0] == first && chunks[1..] == rest && AlphaChunkDecode(first) == prefix
    ensures AlphanumericDecode(chunks) == prefix + AlphanumericDecode(rest)
  {
  }

  /** The chunks of a string of two or more characters start with the chunk of its first pair. */
  lemma AlphanumericValuesPair(s: string)
    requires AllAlphanumeric(s) && |s| >= 2
    ensures AlphanumericValues(s)[0] == Chunk(AlphaCode(s[0]) * 45 + AlphaCode(s[1]), 11)
    ensures AlphanumericValues(s)[1..] == AlphanumericValues(s[2..])
  {
  }

  /** A string that is the first two characters of `s` followed by the rest of `s` is `s`. */
  lemma PairJoin(x: string, s: string)
    requires |s| >= 2 && x == [s[0], s[1]] + s[2..]
    ensures x == s
  {
  }

  /** Alphanumeric chunks lose nothing: reading them back gives the content. */
  lemma {:induction false} AlphanumericRoundTrip(s: string)
    requires AllAlphanumeric(s)
    ensures AlphanumericDecode(AlphanumericValues(s)) == s
    decreases |s|
  {
    if |s| >= 2 {
      AlphanumericValuesPair(s);
      AlphaChunkPair(s[0], s[1]);
      AlphanumericDecodeFirst(AlphanumericValues(s), AlphanumericValues(s)[0], AlphanumericValues(s[2..]), [s[0], s[1]]);
      AlphanumericRoundTrip(s[2..]);
      PairJoin(AlphanumericDecode(AlphanumericValues(s)), s);
    } else if |s| == 1 {
      var a := AlphaCode(s[0]);
      Bits.DivModUnique(a, 45, 0, a);
    }
  }

  /** Byte `values` (index.js:106-113): each byte of the encoder's output in 8 bits. */
  function UtfValues(bytes: seq<Bits.Byte>): (r: seq<Chunk>)
    ensures |r| == |bytes|
    ensures TotalBits(r) == 8 * |bytes|
    ensures AllFit(r) && Narrow(r)
    ensures forall i :: 0 <= i < |r| ==> r[i].value == bytes[i]
    decreases |bytes|
  {
    assert Bits.Pow2(8) == 256 by { Bits.Pow2Values(); }
    if bytes == [] then [] else [Chunk(bytes[0], 8)] + UtfValues(bytes[1..])
  }

  /** The 13-bit value of a Shift JIS code (index.js:145-147). */
  function KanjiValue(code: int): int {
    var reduced := code - (if code >= 0xE040 then 0xC140 else 0x8140);
    (reduced / 256) * 192 + reduced % 256
  }

  /** The Shift JIS codes that are Kanji in the sense of section 7.4.6 of ISO/IEC 18004. */
  predicate IsShiftJisKanji(code: int) {
    (0x8140 <= code <= 0x9FFC || 0xE040 <= code <= 0xEBBF) && 0x40 <= code % 256 <= 0xFC
  }

  /** Reads a 13-bit Kanji value back into a Shift JIS code. */
  function KanjiDecode(v: int): int {
    var high, low := v / 192, v % 192;
    high * 256 + low + (if high >= 0x1F then 0xC140 else 0x8140)
  }

  /** A Kanji value takes 13 bits and gives back its Shift JIS code. */
  lemma KanjiRoundTrip(code: int)
    requires IsShiftJisKanji(code)
    ensures 0 <= KanjiValue(code) < Bits.Pow2(13)
    ensures KanjiDecode(KanjiValue(code)) == code
  {
    assert Bits.Pow2(13) == 8192;
    var base := if code >= 0xE040 then 0xC140 else 0x8140;
    var reduced := code - base;
    var high, low := code / 256 - base / 256, code % 256 - 0x40;
    Bits.DivModUnique(code, 256, code / 256, code % 256);
    Bits.DivModUnique(reduced, 256, high, low);
    Bits.DivModUnique(high * 192 + low, 192, high, low);
  }

  /** Kanji `values` (index.js:142-150): one 13-bit value per character. */
  function KanjiValues(s: string, foreign: Foreign): (r: seq<Chunk>)
    ensures |r| == |s|
    ensures TotalBits(r) == Cost(KanjiMode, |s|)
    ensures forall i :: 0 <= i < |s| ==> r[i] == Chunk(KanjiValue(foreign.shiftJis(s[i])), 13)
    decreases |s|
  {
    if s == [] then []
    else [Chunk(KanjiValue(foreign.shiftJis(s[0])), 13)] + KanjiValues(s[1..], foreign)
  }

  /** `mode.values(content)`: the chunks of the content in the chosen mode. */
  function Values(m: Mode, s: string, foreign: Foreign): (r: seq<Chunk>)
    requires Covers(m, s, foreign)
    ensures Narrow(r)
  {
    match m
    case NumericMode => NumericValues(s)
    case AlphanumericMode => AlphanumericValuesFit(s); AlphanumericValues(s)
    case UtfMode => UtfValues(foreign.byteEncoder(s))
    case KanjiMode => KanjiValues(s, foreign)
  }

  /**
   * The chunks take exactly the bits `getCapacity` reckons with (for the
   * byte mode, when the encoder gives one byte per character), and every
   * value fits its width (for Kanji, when every code is a Shift JIS Kanji).
   */
  lemma ValuesMatchCapacity(m: Mode, s: string, foreign: Foreign)
    requires Covers(m, s, foreign)
    ensures m != UtfMode || |foreign.byteEncoder(s)| == |s| ==>
              TotalBits(Values(m, s, foreign)) == Cost(m, |s|)
    ensures (m == KanjiMode ==> forall i :: 0 <= i < |s| ==> IsShiftJisKanji(foreign.shiftJis(s[i]))) ==>
              AllFit(Values(m, s, foreign))
  {
    match m
    case AlphanumericMode => AlphanumericValuesFit(s);
    case KanjiMode =>
      if forall i :: 0 <= i < |s| ==> IsShiftJisKanji(foreign.shiftJis(s[i])) {
        var r := KanjiValues(s, foreign);
        forall i | 0 <= i < |r|
          ensures 0 <= r[i].value < Bits.Pow2(r[i].bitLength)
        {
          KanjiRoundTrip(foreign.shiftJis(s[i]));
        }
      }
    case _ =>
  }
}

