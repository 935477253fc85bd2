# qrview in Dafny

A model of the encoding core of qrview, a QR Code generator that renders a
string as a PNG image. The model follows the program's own structure:

- `index.js`:
  - `QREncoder` picks an encoding mode and then searches for the first
    version and error correction level whose capacity holds the content.
  - `writeBits` and `#getInitialData` build the data codewords.
  - `encode` splits the codewords into blocks, interleaves them and appends
    the interleaved error correction codewords.
  - `QRView` ties the encoder to the matrix and the image. Its `toPNG`
    derives the scale from the requested width.
- `lib/BitMatrix.js`:
  - A `BitMatrix` class stores a square of modules in byte rows with a
    padding offset.
  - Helpers write into that matrix: `fillBitArea`, the module walk
    `getModuleSequence`, the finder, separator, alignment, timing, format and
    version patterns, and the mask functions.
  - The ISO 18004 penalty score (rules 1 to 4) is computed here.
  - `from` builds a masked symbol and `optimalMask` picks a mask.
- `lib/crc32.js`: the CRC-32 table and checksum (the reflected polynomial
  0xEDB88320).
- `lib/QRPNG.js`:
  - The constructor renders the matrix into the filtered scanline buffer of
    an indexed-colour PNG.
  - `hexToUint32` turns a colour string into a palette word.

Each Dafny module mirrors a part of the program:

| module | file | models |
|---|---|---|
| `Wrappers`, `Bits` | — | option and result values; powers of two, bits, quotient and remainder |
| `Modes` | index.js | the four modes: character sets, length fields, capacities, values; mode selection |
| `Planner` | index.js | available modules, the level list, the version/level search, `toPNG`'s scale |
| `Bitstream` | index.js | `writeBits` and `#getInitialData` on a `ByteView` (an `array<Byte>`) |
| `Interleave` | index.js | `encode`'s block split, reordering and error correction interleaving |
| `QrView` | index.js | `encode` on an encoder, the `QRView` constructor, `toPNG`, `createPNG` |
| `Matrix` | lib/BitMatrix.js | the `BitMatrix` class (`alloc`, constructor, `fill`, `setBit`, `getBit`) and `fillBitArea` |
| `Patterns` | lib/BitMatrix.js | symbol size, masks, format and version words, alignment coordinates |
| `Walk` | lib/BitMatrix.js | `getModuleSequence`: the reserved areas and the zig-zag walk |
| `Placement` | lib/BitMatrix.js | data placement in `from`, `placeFormatModules` |
| `Areas`, `Fixed`, `FixedLayout` | lib/BitMatrix.js | `placeFixedPatterns`, as written and corrected |
| `VersionModules` | lib/BitMatrix.js | `placeVersionModules` |
| `Penalty` | lib/BitMatrix.js | `getLinePenalty`, `getPenaltyScore` |
| `Symbol` | lib/BitMatrix.js | `from` and `optimalMask`, as written and corrected, with what a reader of the symbol sees |
| `Crc32` | lib/crc32.js | the table and `crc32` |
| `Raster` | lib/QRPNG.js | the pixel buffer of the `QRPNG` constructor and `hexToUint32` |

Code that changes state is imperative Dafny:

- `BitMatrix` is a class over an `array2` of cells. Every method that writes
  into it states its new `Snapshot()` as a function of the old one.
- `writeBits` works on an `array<Byte>`, and so does the PNG pixel buffer.
- The loops of the source (the search, the walk, the penalty passes, the CRC
  and the raster loops) are `while` loops with invariants.
- Each method is proved against a specification function. The properties of
  that function are proved as lemmas.

Four defects of the source are modelled twice, as written and corrected
(see "## Findings"):

- The as-written members (`Walk.TracksAsWritten`,
  `Fixed.PlaceFixedPatternsAsWritten`, `Symbol.FromAsWritten`,
  `Symbol.OptimalMaskAsWritten`) are what `QrView` composes, because they
  are what the program does.
- The corrected members (`Walk.IsoTracks`, `Fixed.PlaceFixedPatterns`,
  `Symbol.From`, `Symbol.OptimalMask`) carry the ISO 18004 properties:
  - the data modules hold the codeword bits;
  - both format copies decode to the level and mask;
  - both version blocks hold the version word;
  - every function pattern is in place;
  - the mask has the least penalty.

Some behaviour of the source is modelled as written without being claimed
as a defect:

- The column pass of the penalty rule 1 reads bits of a byte-per-module
  column (`Penalty.ColumnBits`).
- The rule 3 scan stops one position short of the last window.
- The rule 4 count reads each row from bit `offset` to bit `size - 1` of its
  padded bytes, so it skips the row's last `offset` modules.
- The constructor caches the penalty of the matrix it is given, and
  `alloc` gives it a blank one.
- The raster writes a dark module at byte `(margin + j) * scale` of its
  scanline, which counts the filter byte as a pixel.
- The pixel buffer is `scale` times longer than the image needs.

## Model

| member | source | states |
|---|---|---|
| Modes.Id | index.js:24-27 | the mode indicator is 2 to the power of the mode's rank: 1, 2, 4 or 8, so below 16 |
| Modes.SelectMode | index.js:176-190 | non-string content is rejected; otherwise the first of numeric, alphanumeric, Latin-1 and Kanji whose character set covers the string is chosen, no earlier mode covers it, and it fails exactly when no mode covers it |
| Modes.EncodingModeId | index.js:352-366 | `QRView.encodingMode` is 7 exactly when no mode covers the string, and otherwise the indicator of the mode the encoder selects |
| Modes.CharacterSetsNest | index.js:9-13 | numeric content is alphanumeric and alphanumeric content is Latin-1; the empty string is numeric; selection fails exactly when some character is outside Latin-1 and the string is not Kanji |
| Modes.LengthBitsByTier | index.js:38-40 | the count field width never shrinks with the version, is constant within versions 1-9, 10-26 and 27-40, and lies between 8 and 16 bits |
| Modes.NumericCapacityTight | index.js:47-53 | numeric capacity is negative for negative room, and otherwise the largest count whose bits fit: that many digits fit and one more does not |
| Modes.AlphanumericCapacityTight | index.js:88-90 | the same tightness for alphanumeric capacity |
| Modes.CapacityIsLargestFit | index.js:206-208 | for every mode, `n <= getCapacity(bits)` holds exactly when n characters cost at most `bits` bits |
| Modes.NumericValues | index.js:29-36 | one chunk per three digits, whose widths add up to the numeric cost of the string and whose values fit their widths |
| Modes.NumericRoundTrip | index.js:29-36 | decoding the numeric chunks gives the digit string back |
| Modes.AlphanumericValues | index.js:69-77 | one chunk per pair of characters, widths adding up to the alphanumeric cost, values below 45 * 45 |
| Modes.AlphanumericRoundTrip | index.js:69-77 | decoding the alphanumeric chunks gives the string back |
| Modes.UtfValues | index.js:106-113 | one 8-bit chunk per encoded byte, holding that byte |
| Modes.KanjiValues | index.js:142-150 | one 13-bit chunk per character, holding the compacted Shift JIS code of that character |
| Modes.KanjiRoundTrip | index.js:142-150 | for a Shift JIS Kanji code, the compacted value is below 2^13 and decodes back to the code |
| Modes.ValuesMatchCapacity | index.js:47-53 | the chunks a mode writes cost exactly what its capacity assumes (for the byte mode when the encoder yields one byte per character), and all values fit their widths |
| Modes.Utf16Length | index.js:208 | `content.length` counts UTF-16 code units: between the number of characters and twice it |
| Modes.AstralLength | index.js:247 | a character above U+FFFF makes the count larger than the number of characters |
| Modes.CoversLength | index.js:208 | for the numeric, alphanumeric and byte modes the UTF-16 count is the number of characters |
| Planner.AvailableModulesAreIso | index.js:321-336 | for versions 1 to 40 `getAvailableModules` is 8 times the ISO 18004 codeword count plus the remainder bits, so `>> 3` gives the codeword count |
| Planner.Levels | index.js:193 | the levels tried are a prefix of "HQML" of at most four letters |
| Planner.LevelsNeverWeaker | index.js:193 | for a single known level the list ends with it and every level in it is at least as strong; it is empty exactly when the argument does not occur in "HQML"; an empty argument gives "H" |
| Planner.Search | index.js:196-218 | the loop returns the first version, and within it the first level, whose capacity holds the content, or nothing when none does |
| Planner.FirstFitIsUnique | index.js:196-218 | the first fit is unique: two results satisfying it are equal |
| Planner.FirstFitHoldsContent | index.js:200-215 | the chosen plan has a version 1 to 40 and a tried level, its capacity holds the content, every shorter content fits too, and for a single known level it is at least as strong |
| Planner.NewEncoder | index.js:175-219 | the `QREncoder` constructor passes mode selection's rejection on, otherwise keeps the selected mode and the first-fit plan for the content's UTF-16 length |
| Planner.FloorDiv | index.js:438 | `Math.floor` of a quotient: the largest q with q times a positive divisor at most the width, and the mirrored bound for a negative divisor |
| Planner.Scale | index.js:437-439 | a zero width or one below the module count gives 8; otherwise the floor of width over modules, at least 1 for a positive module count, with the bounds of a floor for a negative one; nothing exactly when a positive width meets a zero module count |
| Bitstream.ToInt32 | index.js:232 | a JavaScript shift operand reduced to a signed 32-bit integer: in range, congruent modulo 2^32, unchanged when already in range |
| Bitstream.WriteBits | index.js:221-236 | the buffer after `writeBits` is the old buffer with the field OR-ed in |
| Bitstream.WrittenBits | index.js:221-236 | for a value that fits its width (at most 31 bits), bit `pos` becomes the OR of the old bit and the value's bit at that position inside the field, and stays unchanged outside it |
| Bitstream.WriteAll | index.js:248-251 | the value loop advances the offset by the chunks' total width and writes each chunk in turn |
| Bitstream.Pad | index.js:254-257 | the filler loop writes 236 and 17 alternately from the filler start to the end |
| Bitstream.FillerStartRoundsUp | index.js:252-253 | the filler starts at the first whole byte after the message and a 4-bit terminator |
| Bitstream.InitialData | index.js:243-259 | `#getInitialData` returns a fresh buffer of `dataCodewords` bytes holding the mode indicator, the UTF-16 count, the chunks and the filler |
| Bitstream.InitialBytesMeaning | index.js:243-259 | when it fits, the buffer holds the message bit for bit, then zeros up to the filler start, then alternating 236 and 17 |
| Bitstream.InitialDataMeaning | index.js:243-259 | for a covered content whose count fits the length field, every chunk fits and the buffer holds the mode, count and chunk bits followed by the zero terminator |
| Interleave.BlocksInGroup1 | index.js:273 | between 1 and the block count of blocks are short |
| Interleave.LengthSplit | index.js:272-273 | the data length is block size times blocks plus the number of long blocks |
| Interleave.BlocksTile | index.js:277-282 | the block starts tile the data: the first block starts at 0, each block ends where the next starts, and the last ends at the data length |
| Interleave.InterleavedIndexIsSource | index.js:283-298 | the reorder loop reads position j of block b from exactly the place where block b's j-th codeword lands, so the reordering is a bijection onto the blocks |
| Interleave.ReorderView | index.js:283-298 | the reorder loop yields the reordered data |
| Interleave.BlockEc | index.js:303-307 | each block's error correction is `getEDC` of the block's slice |
| Interleave.Scatter | index.js:309-313 | the scatter loop puts the k-th error correction codeword of block `offset` at k times blocks plus offset and leaves every other slot alone |
| Interleave.EcView | index.js:301-315 | the error correction loop yields the interleaved error correction codewords |
| Interleave.EcInterleavedAt | index.js:302-314 | slot j holds codeword j / blocks of block j % blocks, or 0 when that block's error correction is shorter |
| Interleave.Encode | index.js:266-318 | `encode` returns the reordered data followed by the interleaved error correction |
| Interleave.EncodeDataLayout | index.js:283-298 | the output has data length plus block size times blocks codewords, and the j-th codeword of every block sits at its interleaved index |
| Interleave.EncodeEcLayout | index.js:300-317 | the k-th error correction codeword of block b sits at data length plus k times blocks plus b |
| QrView.PlanHolds | index.js:196-218 | the plan the constructor settles on has room for the indicator, count and content bits, a version 1 to 40 and a level of "MLHQ", and rules out "no version fits" |
| QrView.CodewordsFillSymbol | index.js:269 | `encode` on the search's plan yields exactly `getAvailableModules(version) >> 3` codewords, although the search and `encode` read the table entry in opposite orders |
| QrView.Encode | index.js:266-318 | `encode` on an encoder: nothing without a plan, otherwise the codewords of `#getInitialData` split by the table entry read as `[ecBlockSize, blocks]` |
| QrView.NewView | index.js:401-416 | the `QRView` constructor for a string passes the rejection on, fails exactly when no version fits, and otherwise stores the first-fit version and level, the mode indicator, the codewords, mask 0 and the matrix `optimalMask` builds |
| QrView.ToPng | index.js:419-440 | `toPNG` rasterises the view's matrix at the scale derived from the width, with the colours `hexToUint32` gives |
| QrView.DefaultLevel | index.js:377 | an empty level falls back to "M" and any other is kept |
| QrView.CreatePng | index.js:376-381 | `createPNG` builds the view at the given level or "M" and renders it, and yields an image exactly when the view can be built |
| Matrix.BitMatrix.constructor | lib/BitMatrix.js:108-119 | the constructor keeps the rows and offset and caches the penalty score of the rows it is given |
| Matrix.PaddingUnique | lib/BitMatrix.js:74-81 | the padding offset is the unique offset below 8 that rounds the row up to whole bytes |
| Matrix.Padding | lib/BitMatrix.js:69-81 | the loop finds that offset |
| Matrix.BitMatrix.Alloc | lib/BitMatrix.js:68-90 | `alloc` returns a fresh blank matrix of the version's size, with that padding and the penalty of a blank matrix |
| Matrix.BitMatrix.Get | lib/BitMatrix.js:152-154 | `getBit` reads the module at a row and column |
| Matrix.BitMatrix.SetBit | lib/BitMatrix.js:147-150 | `setBit` changes that one module and nothing else |
| Matrix.BitMatrix.Fill | lib/BitMatrix.js:137-145 | `fill` writes at most `size` values of a row from `start` on and nothing else |
| Matrix.FillBitArea | lib/BitMatrix.js:196-202 | `fillBitArea` paints the rectangle and nothing else |
| Patterns.SizeGivesVersion | lib/BitMatrix.js:368-370 | `(size - 17) >> 2` recovers the version from `getSize` |
| Patterns.MaskRowPeriod | lib/BitMatrix.js:6-15 | each of the eight mask patterns repeats every 12 rows |
| Patterns.MaskColumnPeriod | lib/BitMatrix.js:6-15 | and every 12 columns |
| Patterns.CodewordHasNoRest | lib/BitMatrix.js:509-510 | appending the remainder to a 0/1 message gives a word the divisor divides |
| Patterns.FormatRoundTrip | lib/BitMatrix.js:501-515 | unmasking the format word and reading its first five bits gives the level and mask back |
| Patterns.FormatIsCodeword | lib/BitMatrix.js:501-515 | the unmasked format word is a codeword of the BCH(15,5) code |
| Patterns.VersionInformationMeaning | lib/BitMatrix.js:532-539 | the version word is 0/1, its first six bits spell the version and it is a codeword of the BCH(18,6) code |
| Patterns.Version26 | lib/BitMatrix.js:530-531 | the word for version 26 is the one the source's comment gives |
| Patterns.AlignmentVersion32 | lib/BitMatrix.js:517-529 | at version 32 the coordinates are 6, 34, 60, 86, 112, 138, while the source computes 6, 26, 54, 82, 110, 138 |
| Patterns.AlignmentAgrees | lib/BitMatrix.js:517-529 | at every other version the source's coordinates are the corrected ones |
| Patterns.AlignmentShape | lib/BitMatrix.js:517-529 | from version 2 on there are version / 7 + 2 increasing coordinates from 6 to size - 7, inside the symbol, with equal even steps after the first |
| Patterns.AlignmentClear | lib/BitMatrix.js:517-529 | no alignment centre other than the first lies within 10 modules of the top or left edge |
| Walk.ReservedAt | lib/BitMatrix.js:210-244 | after the reservations a module is set exactly when it lies in a finder area, a non-skipped alignment area, a timing line, the dark module or a version block |
| Walk.Reserve | lib/BitMatrix.js:210-244 | the reservation calls turn a blank matrix into that reserved grid |
| Walk.KeyRoundTrip | lib/BitMatrix.js:246-269 | each step of the zig-zag walk is at a distinct position, and its position gives the step back |
| Walk.AtInjective | lib/BitMatrix.js:246-269 | no two steps visit the same module |
| Walk.GetModuleSequence | lib/BitMatrix.js:209-271 | the loop returns the walk's free modules in walk order |
| Walk.ModuleSequenceExact | lib/BitMatrix.js:246-270 | the sequence lists every free module off column 6, only those, and each once |
| Walk.CornerFree | lib/BitMatrix.js:247-253 | the lower right corner is never reserved |
| Walk.FreeFromStarts | lib/BitMatrix.js:247-253 | so the walk's first module is the lower right corner |
| Placement.MaskedTwice | lib/BitMatrix.js:58 | masking a module twice restores it |
| Placement.PlaceData | lib/BitMatrix.js:51-59 | the placement loop writes, at the j-th module of the sequence, bit j of the codewords XOR-ed with the mask |
| Placement.DataPlacedHit | lib/BitMatrix.js:51-59 | after the loop each listed module holds its masked codeword bit |
| Placement.PlaceFormatModules | lib/BitMatrix.js:301-313 | `placeFormatModules` writes the format bits at their two sets of positions and nothing else |
| Placement.FormatPlacedCopies | lib/BitMatrix.js:301-313 | both copies read back as the format word and decode to the level and mask |
| Areas.AlignFromReserves | lib/BitMatrix.js:221-232 | the reserving alignment loop sets exactly the modules of the non-skipped 5x5 areas |
| Areas.PlaceAlignments | lib/BitMatrix.js:338-352 | the nested loops draw the alignment patterns of every non-skipped pair of tracks |
| Fixed.PlaceFixedPatternsAsWritten | lib/BitMatrix.js:316-366 | `placeFixedPatterns` as written: finders, separators, alignment patterns, the stray square, the timing loop, its two end modules and the dark module |
| Fixed.PlaceFixedPatterns | lib/BitMatrix.js:316-366 | the corrected placement without the stray square and with the timing lines running to size - 9 |
| FixedLayout.FixedCorners | lib/BitMatrix.js:318-334 | each corner holds a finder pattern surrounded by its light separator |
| FixedLayout.FixedTiming | lib/BitMatrix.js:355-365 | the corrected timing lines alternate from 8 to size - 9 starting dark, and the dark module is set |
| FixedLayout.FixedOutside | lib/BitMatrix.js:316-366 | nothing outside the function pattern area changes |
| FixedLayout.FixedAreaReserved | lib/BitMatrix.js:210-244 | every module a pattern is drawn on was reserved by the walk |
| FixedLayout.FixedSparesFormat | lib/BitMatrix.js:301-313 | no pattern is drawn over a format module |
| FixedLayout.StrayOverAlignments | lib/BitMatrix.js:353-354 | from version 2 on the stray square repeats what the last alignment pattern drew |
| FixedLayout.AsWrittenAgrees | lib/BitMatrix.js:353-363 | from version 2 on the as-written placement differs from the corrected one only at (6, size - 9) and (size - 9, 6) |
| FixedLayout.AsWrittenVersion1 | lib/BitMatrix.js:353-363 | at version 1 the source leaves (6, 12) and (12, 6) unset and forces (14, 14) dark, while the corrected placement sets the timing modules and leaves (14, 14) alone |
| VersionModules.PlaceVersionModules | lib/BitMatrix.js:279-291 | `placeVersionModules` writes the version word into both blocks from version 7 on |
| VersionModules.VersionPlacedAt | lib/BitMatrix.js:285-290 | bit i goes to row 5 - i / 3, column size - 9 - i % 3 and to its transpose, and every other module is unchanged |
| VersionModules.VersionBlocksDecode | lib/BitMatrix.js:279-291 | both blocks read back as a version word that spells the version and is a BCH(18,6) codeword |
| Penalty.GetLinePenalty | lib/BitMatrix.js:372-393 | the loop scores a line as 3 for each run reaching five modules plus 1 for each module beyond |
| Penalty.UniformLine | lib/BitMatrix.js:372-393 | a line of n equal modules scores n - 2 from five modules on, else 0 |
| Penalty.LineScoreSplit | lib/BitMatrix.js:372-393 | the score of two lines joined at a colour change is the sum of their scores |
| Penalty.RowsPenalty | lib/BitMatrix.js:435-438 | the row pass sums the line scores of the rows |
| Penalty.ColumnsPenalty | lib/BitMatrix.js:440-446 | the column pass sums the line scores of the columns as the source reads them |
| Penalty.CountBlocks | lib/BitMatrix.js:449-463 | the rule 2 loop counts the 2x2 single-colour blocks |
| Penalty.CountPatterns | lib/BitMatrix.js:466-488 | the rule 3 loop counts the finder-like windows in rows and columns |
| Penalty.CountDark | lib/BitMatrix.js:492-494 | the rule 4 loop counts the dark modules |
| Penalty.MixBand | lib/BitMatrix.js:495-496 | the rule 4 penalty is 0 exactly when dark modules are strictly between 45% and 55%, and 100 when there are none |
| Penalty.GetPenaltyScore | lib/BitMatrix.js:431-499 | the score is the sum of the four rules' penalties |
| Penalty.BlankScore | lib/BitMatrix.js:117 | the score of a blank matrix, the one the constructor caches after `alloc`, is a fixed function of the size |
| Symbol.From | lib/BitMatrix.js:45-66 | corrected `from`: a fresh matrix of the version's size holding the data layer, format, fixed and version patterns |
| Symbol.FromAsWritten | lib/BitMatrix.js:45-66 | `from` as written, with the source's alignment coordinates and fixed patterns |
| Symbol.DataModules | lib/BitMatrix.js:51-59 | in the corrected symbol each module of the sequence carries its masked codeword bit |
| Symbol.FormatInformation | lib/BitMatrix.js:61 | both format copies of the symbol decode to the level and mask |
| Symbol.VersionInformationRead | lib/BitMatrix.js:63 | from version 7 on both version blocks hold the version word |
| Symbol.FunctionPatterns | lib/BitMatrix.js:62 | finders, separators, timing lines and dark module are all in place |
| Symbol.AsWrittenVersion1Symbol | lib/BitMatrix.js:353-354 | at version 1 the as-written symbol has the stray square over data modules and the timing ends light |
| Symbol.FinishedAgrees | lib/BitMatrix.js:62 | from version 2 on the as-written and corrected symbols agree except at the two timing modules |
| Symbol.OptimalMaskAsWritten | lib/BitMatrix.js:92-106 | `optimalMask` as written returns mask 0 and its matrix, because every candidate caches the same blank penalty |
| Symbol.OptimalMask | lib/BitMatrix.js:92-106 | the corrected search returns the first mask with the least penalty of the finished symbol, and its matrix |
| Crc32.BuildTable | lib/crc32.js:4-14 | entry n is n put through eight rounds of the reflected CRC-32 step |
| Crc32.TableUpdateIsBitwise | lib/crc32.js:27 | one table lookup equals eight bitwise CRC rounds on the byte |
| Crc32.TableEntryBound | lib/crc32.js:11 | every entry is below 2^32 |
| Crc32.FeedAppend | lib/crc32.js:21-29 | feeding two byte strings in turn equals feeding their concatenation |
| Crc32.ConcatPair | lib/crc32.js:21-29 | two arguments are checksummed as their concatenation |
| Crc32.Crc32 | lib/crc32.js:16-32 | `crc32(...args)` is the CRC-32 of the arguments concatenated |
| Crc32.ChecksumOfEmpty | lib/crc32.js:31 | the checksum of no bytes is 0 |
| Crc32.ChecksumBound | lib/crc32.js:31 | the checksum is an unsigned 32-bit value |
| Raster.FilterBytes | lib/QRPNG.js:49-51 | the first byte of every scanline, its filter byte, is 0 |
| Raster.DarkModuleBytes | lib/QRPNG.js:53-64 | for a dark module, the `scale` bytes from `((margin + i) * (X + 1) + (margin + j)) * scale` in each of the `scale` rows below are 0 |
| Raster.LightBytes | lib/QRPNG.js:46-47 | a byte no dark module reaches keeps the light value 0xFF |
| Raster.ImageAt | lib/QRPNG.js:42-44 | every byte inside the image rows lies in the buffer and holds its pixel |
| Raster.SideOfVersion1 | lib/QRPNG.js:43 | a version 1 symbol at scale 8 with margin 2 is 200 pixels wide |
| Raster.DrawModule | lib/QRPNG.js:56-64 | one dark module zeroes `scale` runs of `scale` bytes, one row apart, and nothing else |
| Raster.FillFilterBytes | lib/QRPNG.js:49-51 | the filter loop zeroes exactly the first byte of each of the X scanlines |
| Raster.DrawDark | lib/QRPNG.js:55-64 | drawing module (i, j) extends the image drawn so far by that module |
| Raster.PixelData | lib/QRPNG.js:42-67 | the constructor's buffer is the light image with filter bytes and every dark module drawn |
| Raster.HexToUint32 | lib/QRPNG.js:100-104 | `hexToUint32` reads the string without its leading `#` as hexadecimal, appending FF when the original string has at most seven characters; it has a value exactly when those are hex digits |
| Raster.HexValueOfDigits | lib/QRPNG.js:103 | hex digits read back to the number they spell |
| Raster.HexColours | lib/QRPNG.js:100-104 | eight digits give the RGBA word, and `#` with six digits the RGB word with full alpha |
| Raster.DefaultColours | index.js:424-425 | the default colours are white and black with full alpha |
| Raster.QrPng.constructor | lib/QRPNG.js:38-73 | the `QRPNG` constructor stores the two palette words, the side X and the pixel buffer |

## Left out

- `EC_TABLE` (lib/EC_TABLE.js) is not part of this model: it is the parameter `ecTable`. The search reads an entry as `[blocks, ecBlockSize]` and `encode` as `[ecBlockSize, blocks]`, exactly as the source does.
- `getEDC`, `polyRest` over GF(256) and `getGeneratorPoly` (lib/utils.js) are not part of this model: the Reed-Solomon codewords come from the parameter `edc`.
- `Patterns.PolyRest`: the format and version words call `polyRest` on 0/1 polynomials. The model computes that remainder by GF(2) long division. This equals the source's GF(256) remainder only if `polyRest` divides 0/1 coefficients by a monic 0/1 divisor without leaving the subfield {0, 1}. `Patterns.FormatIsCodeword`, `Patterns.VersionInformationMeaning`, `Patterns.Version26` and everything built on them hold under that assumption.
- `KANJI_RE`'s script classes, the Shift JIS table and the `byte-encoder` package are outside the model. They are the fields `isKanji`, `shiftJis` and `byteEncoder` of `Modes.Foreign`.
- Modes.ValuesMatchCapacity: it states the byte mode's cost only when `byteEncoder` yields one byte per character. The capacity test counts characters, not encoded bytes.
- A Kanji character above U+FFFF adds 2 to the count (`Modes.AstralLength`) but yields one 13-bit value. The model writes what the source writes and does not claim a decodable symbol.
- `QREncoder` and `QRView` throw errors; the model returns them instead. `SelectMode` and `NewView` return `Failure`, and `QrView.Encode` returns `None` when no version fits, where the source fails allocating a buffer of undefined length.
- QrView.NewView: it requires every table entry for versions 1 to 40 to have a positive block count and a block size that is not negative. With any other entry the source's `encode` divides by zero or allocates a negative buffer.
- The `QRView` constructor's branch for stored views (`verifyQRView`), `fromJSON` and `reviver` are not modelled; they rebuild a view with `from`, which is modelled.
- `toString`, `inspect` and `toJSON` of `BitMatrix` and `QRView` only format output and are not modelled.
- The PNG container of `QRPNG.buffer` (header, palette, `deflate`, chunk CRCs) is not modelled; `crc32` itself is.
- QrView.ToPng: it takes the margin as a natural number. A negative margin is modelled only in `Planner.Scale`, because the raster has no meaning for it.
- Raster.HexToUint32: `Number` also accepts surrounding whitespace and loses precision above 2^53. Both are left out: a colour with whitespace or more than thirteen hex digits reads as invalid or exact here.
- The rule 4 penalty is computed in floating point in the source; `Penalty.Mix` computes it exactly in integers. The two agree because a ratio of module counts is never within rounding distance of a multiple of 5%.
- The walk's start is stated as two lemmas, `Walk.CornerFree` and `Walk.FreeFromStarts`, rather than as one statement about `getModuleSequence`.

## Findings

| source | as written | input that shows it | evidently intended | confidence | as-written member | corrected member |
|---|---|---|---|---|---|---|
| lib/BitMatrix.js:517-529 | the alignment step is `ceil(distance / intervals / 2) * 2` | version 32: 6, 26, 54, 82, 110, 138 | the ISO 18004 table: 6, 34, 60, 86, 112, 138 | not executed | Patterns.AlignmentVersion32 | Patterns.AlignmentShape |
| lib/BitMatrix.js:353-354 | a light 3x3 square with a dark centre is always drawn at size - 8 to size - 6 | version 1: module (14, 14), a data module, is forced dark and its eight neighbours light | no drawing there; from version 2 on the last alignment pattern already covers it | not executed | FixedLayout.AsWrittenVersion1 | FixedLayout.FixedOutside |
| lib/BitMatrix.js:356-363 | the timing loop stops before size - 9 and the two end modules are set at size - 7, inside the finders | any version: (6, size - 9) and (size - 9, 6), reserved for timing, stay light | both timing lines dark at size - 9 | not executed | FixedLayout.AsWrittenAgrees | FixedLayout.FixedTiming |
| lib/BitMatrix.js:92-117 | `optimalMask` compares `penaltyScore`, which the constructor caches when `alloc` builds the blank matrix | any content: all eight candidates score the same, so mask 0 is returned | the penalty of each finished, masked symbol | not executed | Symbol.OptimalMaskAsWritten | Symbol.OptimalMask |
