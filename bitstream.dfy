/**
 * The data bit stream of the encoder (index.js:221-259): `writeBits`, which
 * ORs a field into a zeroed byte buffer most significant bit first, and
 * `#getInitialData`, which lays out mode indicator, character count, the
 * chunks of the content, the terminator and the 0xEC/0x11 pad bytes.
 *
 * The buffer is a `Uint8Array`: a store keeps the low 8 bits of the value
 * and a store past the end is dropped. Bit `pos` of a buffer is bit
 * `7 - pos % 8` of byte `pos / 8` (bits of a byte numbered from the least
 * significant).
 */
module Bitstream {
  import opened Bits
  import opened Modes

  /** Bit `pos` of a byte buffer, the most significant bit of each byte first. */
  function BitAt(bytes: seq<Byte>, pos: nat): nat
    requires pos < 8 * |bytes|
  {
    Bit(bytes[pos / 8], 7 - pos % 8)
  }

  // ---------------------------------------------------------------------
  // writeBits

  /** JavaScript's ToInt32: the integer with the same low 32 bits, read as two's complement. */
  function ToInt32(x: int): (r: int)
    ensures -0x8000_0000 <= r < 0x8000_0000
    ensures (r - x) % 0x1_0000_0000 == 0
    ensures 0 <= x < 0x8000_0000 ==> r == x
  {
    var w := x % 0x1_0000_0000;
    if w < 0x8000_0000 then w else w - 0x1_0000_0000
  }

  /** `x >> s`: an arithmetic shift of the 32-bit integer, by `s` taken modulo 32 (a floor division). */
  function ShiftRight(x: int, s: nat): int {
    ToInt32(x) / Pow2(s % 32)
  }

  /**
   * The `chunk` that `writeBits(buffer, value, bitLength, offset)` ORs into
   * byte `index`, with the loop's running `remainingBits` written in terms
   * of the end `e` of the field. `& bitMask` with `bitMask = 2^a - 1` keeps
   * the remainder modulo `2^a`.
   */
  function ChunkFor(value: int, bitLength: nat, offset: nat, index: nat): nat {
    var e := offset + bitLength;
    var availableBits := if index == offset / 8 then 8 - offset % 8 else 8;
    var rightShift: nat := if e - 8 * (index + 1) > 0 then e - 8 * (index + 1) else 0;
    var leftShift: nat := if 8 * (index + 1) - e > 0 then 8 * (index + 1) - e else 0;
    (ShiftRight(value, rightShift) % Pow2(availableBits)) * Pow2(leftShift)
  }

  /** The buffer after `writeBits`: bytes `offset >> 3 .. (offset + bitLength - 1) >> 3` get their chunk ORed in. */
  function Written(buffer: seq<Byte>, value: int, bitLength: nat, offset: nat): (r: seq<Byte>)
    ensures |r| == |buffer|
  {
    seq(|buffer|, k requires 0 <= k < |buffer| =>
      if offset / 8 <= k <= (offset + bitLength - 1) / 8
      then Or(buffer[k], ChunkFor(value, bitLength, offset, k)) % 256
      else buffer[k])
  }

  /** `writeBits` (index.js:221-236), in place on the buffer. */
  method WriteBits(buffer: array<Byte>, value: int, bitLength: nat, offset: nat)
    modifies buffer
    ensures buffer[..] == Written(old(buffer[..]), value, bitLength, offset)
  {
    var byteStart := offset / 8;
    var byteEnd := (offset + bitLength - 1) / 8;
    var remainingBits: int := bitLength;
    var index := byteStart;
    while index <= byteEnd
      invariant byteStart <= index && (index <= byteEnd + 1 || index == byteStart)
      invariant remainingBits == if index == byteStart then bitLength else offset + bitLength - 8 * index
      invariant forall k :: 0 <= k < buffer.Length ==>
                  buffer[k] == if byteStart <= k < index
                               then Or(old(buffer[k]), ChunkFor(value, bitLength, offset, k)) % 256
                               else old(buffer[k])
    {
      var availableBits := if index == byteStart then 8 - offset % 8 else 8;
      var rightShift := if remainingBits - availableBits > 0 then remainingBits - availableBits else 0;
      var leftShift := if availableBits - remainingBits > 0 then availableBits - remainingBits else 0;
      var chunk := (ShiftRight(value, rightShift) % Pow2(availableBits)) * Pow2(leftShift);
      assert chunk == ChunkFor(value, bitLength, offset, index);
      if index < buffer.Length {
        buffer[index] := Or(buffer[index], chunk) % 256;
      }
      remainingBits := remainingBits - availableBits;
      index := index + 1;
    }
  }

  /** Bit `i` of `((x >> rs) & (2^a - 1)) << ls` for a non-negative `x`. */
  lemma ShiftedBit(x: nat, rs: nat, ls: nat, a: nat, i: nat)
    ensures Bit((Shr(x, rs) % Pow2(a)) * Pow2(ls), i) ==
              if ls <= i < ls + a then Bit(x, i - ls + rs) else 0
  {
    BitOfProduct(Shr(x, rs) % Pow2(a), ls, i);
    if i >= ls {
      BitOfRemainder(Shr(x, rs), a, i - ls);
      BitOfShr(x, rs, i - ls);
    }
  }

  /** For a value that fits a field of at most 31 bits, the 32-bit shift is a plain quotient. */
  lemma ShiftRightOfField(value: int, bitLength: nat, s: nat)
    requires bitLength <= 31 && 0 <= value < Pow2(bitLength) && s < 32
    ensures ShiftRight(value, s) == Shr(value, s)
  {
    Pow2Values();
    Pow2Monotone(bitLength, 31);
    assert ToInt32(value) == value;
    assert s % 32 == s;
    ShrIsQuotient(value, s);
  }

  /**
   * Bit `i` of the chunk for byte `index` is the field's bit for buffer
   * position `8 * index + 7 - i` when that position lies in the field, and
   * 0 otherwise, provided the value fits its width.
   */
  lemma ChunkBits(value: int, bitLength: nat, offset: nat, index: nat, i: nat)
    requires bitLength <= 31 && 0 <= value < Pow2(bitLength)
    requires offset / 8 <= index <= (offset + bitLength - 1) / 8 && i < 8
    ensures var pos := 8 * index + 7 - i;
            Bit(ChunkFor(value, bitLength, offset, index), i) ==
              if offset <= pos < offset + bitLength then Bit(value, offset + bitLength - 1 - pos) else 0
  {
    var e := offset + bitLength;
    var pos := 8 * index + 7 - i;
    var availableBits := if index == offset / 8 then 8 - offset % 8 else 8;
    var rightShift: nat := if e - 8 * (index + 1) > 0 then e - 8 * (index + 1) else 0;
    var leftShift: nat := if 8 * (index + 1) - e > 0 then 8 * (index + 1) - e else 0;
    assert 8 * (offset / 8) + offset % 8 == offset;
    assert 8 * index <= e - 1;
    assert rightShift < 32;
    ShiftRightOfField(value, bitLength, rightShift);
    ShiftedBit(value, rightShift, leftShift, availableBits, i);
    FieldWindow(offset, bitLength, index, i, availableBits, rightShift, leftShift);
    if leftShift <= i < leftShift + availableBits && pos < offset {
      BitAboveWidth(value, bitLength, i - leftShift + rightShift);
    }
  }

  /**
   * The bits `ChunkFor` keeps for byte `index` are those of the field that
   * fall in that byte, or, in the first byte, also the bits before the
   * field, which lie above the value's width.
   */
  lemma FieldWindow(offset: nat, bitLength: nat, index: nat, i: nat, availableBits: nat, rightShift: nat, leftShift: nat)
    requires offset / 8 <= index <= (offset + bitLength - 1) / 8 && i < 8
    requires availableBits == if index == offset / 8 then 8 - offset % 8 else 8
    requires rightShift == if offset + bitLength - 8 * (index + 1) > 0 then offset + bitLength - 8 * (index + 1) else 0
    requires leftShift == if 8 * (index + 1) - (offset + bitLength) > 0 then 8 * (index + 1) - (offset + bitLength) else 0
    ensures var pos := 8 * index + 7 - i;
            (offset <= pos < offset + bitLength ==> leftShift <= i < leftShift + availableBits) &&
            (leftShift <= i < leftShift + availableBits ==>
               i - leftShift + rightShift == offset + bitLength - 1 - pos &&
               (pos < offset ==> offset + bitLength - 1 - pos >= bitLength))
  {
    assert 8 * (offset / 8) + offset % 8 == offset;
  }

  /**
   * What `writeBits` promises (index.js:221-236): each bit of the field
   * `offset .. offset + bitLength - 1` is ORed with the value's bit of the
   * same rank, the most significant first, and every other bit is kept.
   */
  lemma WrittenBits(buffer: seq<Byte>, value: int, bitLength: nat, offset: nat, pos: nat)
    requires bitLength <= 31 && 0 <= value < Pow2(bitLength)
    requires pos < 8 * |buffer|
    ensures BitAt(Written(buffer, value, bitLength, offset), pos) ==
              if offset <= pos < offset + bitLength
              then (if BitAt(buffer, pos) == 1 || Bit(value, offset + bitLength - 1 - pos) == 1 then 1 else 0)
              else BitAt(buffer, pos)
  {
    var k, i := pos / 8, 7 - pos % 8;
    var w := Written(buffer, value, bitLength, offset);
    assert pos == 8 * k + 7 - i;
    assert BitAt(w, pos) == Bit(w[k], i) && BitAt(buffer, pos) == Bit(buffer[k], i);
    if offset / 8 <= k <= (offset + bitLength - 1) / 8 {
      var chunk := ChunkFor(value, bitLength, offset, k);
      assert w[k] == Or(buffer[k], chunk) % 256;
      Pow2Values();
      BitOfRemainder(Or(buffer[k], chunk), 8, i);
      BitOfOr(buffer[k], chunk, i);
      ChunkBits(value, bitLength, offset, k, i);
    } else {
      assert w[k] == buffer[k];
      assert !(offset <= pos < offset + bitLength);
    }
  }

  // ---------------------------------------------------------------------
  // #getInitialData

  /** The `width`-bit field holding `value`, most significant bit first. */
  function FieldBits(value: nat, width: nat): (r: seq<nat>)
    ensures |r| == width
  {
    seq(width, j requires 0 <= j < width => Bit(value, width - 1 - j))
  }

  /** The bits of the chunks, one field after the other. */
  function Stream(chunks: seq<Chunk>): (r: seq<nat>)
    requires AllFit(chunks)
    ensures |r| == TotalBits(chunks)
    decreases |chunks|
  {
    if chunks == [] then []
    else
      assert AllFit(chunks[1..]) by {
        forall i | 0 <= i < |chunks[1..]| ensures 0 <= chunks[1..][i].value < Pow2(chunks[1..][i].bitLength) {
          assert chunks[1..][i] == chunks[i + 1];
        }
      }
      FieldBits(chunks[0].value, chunks[0].bitLength) + Stream(chunks[1..])
  }

  /** The message: the 4-bit mode indicator, the character count in `lengthBits` bits, then the chunks. */
  function Message(modeId: nat, lengthBits: nat, count: nat, chunks: seq<Chunk>): (r: seq<nat>)
    requires AllFit(chunks)
    ensures |r| == 4 + lengthBits + TotalBits(chunks)
  {
    FieldBits(modeId, 4) + FieldBits(count, lengthBits) + Stream(chunks)
  }

  /** The chunks written one after the other from bit `offset` on, as the loop of index.js:248-251 does. */
  function WriteChunks(buffer: seq<Byte>, chunks: seq<Chunk>, offset: nat): (r: seq<Byte>)
    ensures |r| == |buffer|
    decreases |chunks|
  {
    if chunks == [] then buffer
    else WriteChunks(Written(buffer, chunks[0].value, chunks[0].bitLength, offset),
                     chunks[1..], offset + chunks[0].bitLength)
  }

  /** `fillerStart` of index.js:253: the first byte after a 4-bit terminator and the padding to a byte boundary. */
  function FillerStart(offset: nat): nat {
    var remainderBits := 8 - offset % 8;
    offset / 8 + (if remainderBits < 4 then 2 else 1)
  }

  /** Bytes from `start` on alternate 236 (0xEC) and 17 (0x11), as index.js:254-257 writes them. */
  function Padded(buffer: seq<Byte>, start: nat): (r: seq<Byte>)
    ensures |r| == |buffer|
  {
    seq(|buffer|, k requires 0 <= k < |buffer| =>
      if start <= k then (if (k - start) % 2 == 1 then 17 else 236) else buffer[k])
  }

  /** A zeroed buffer of `n` bytes, as `Buffer.alloc` hands it out. */
  function Zeroed(n: nat): (r: seq<Byte>)
    ensures |r| == n && forall k :: 0 <= k < n ==> r[k] == 0
  {
    seq(n, _ => 0)
  }

  /** The mode indicator and the character count (index.js:246-247) written over a zeroed buffer. */
  function Header(modeId: nat, lengthBits: nat, dataCodewords: nat, count: nat): (r: seq<Byte>)
    ensures |r| == dataCodewords
  {
    Written(Written(Zeroed(dataCodewords), modeId, 4, 0), count, lengthBits, 4)
  }

  /** The buffer of `dataCodewords` bytes that `#getInitialData` returns for a mode id, a character count and the chunks. */
  function InitialBytes(modeId: nat, lengthBits: nat, dataCodewords: nat, count: nat, chunks: seq<Chunk>): (r: seq<Byte>)
    ensures |r| == dataCodewords
  {
    Padded(WriteChunks(Header(modeId, lengthBits, dataCodewords, count), chunks, 4 + lengthBits), FillerStart(4 + lengthBits + TotalBits(chunks)))
  }

  /** The chunk loop of index.js:248-251: each chunk written after the previous one; returns the final offset. */
  method WriteAll(buffer: array<Byte>, chunks: seq<Chunk>, start: nat) returns (offset: nat)
    modifies buffer
    ensures offset == start + TotalBits(chunks)
    ensures buffer[..] == WriteChunks(old(buffer[..]), chunks, start)
  {
    offset := start;
    var rest := chunks;
    while rest != []
      invariant offset + TotalBits(rest) == start + TotalBits(chunks)
      invariant WriteChunks(buffer[..], rest, offset) == WriteChunks(old(buffer[..]), chunks, start)
      decreases |rest|
    {
      var c := rest[0];
      WriteBits(buffer, c.value, c.bitLength, offset);
      offset := offset + c.bitLength;
      rest := rest[1..];
    }
  }

  /** The pad loop of index.js:254-257: 236 and 17 alternately from byte `fillerStart` to the end. */
  method Pad(buffer: array<Byte>, fillerStart: nat)
    modifies buffer
    ensures buffer[..] == Padded(old(buffer[..]), fillerStart)
  {
    var index := 0;
    while index < buffer.Length - fillerStart
      invariant 0 <= index && (index <= buffer.Length - fillerStart || index == 0)
      invariant forall k :: 0 <= k < buffer.Length ==>
                  buffer[k] == if fillerStart <= k < fillerStart + index
                               then (if (k - fillerStart) % 2 == 1 then 17 else 236)
                               else old(buffer[k])
    {
      buffer[fillerStart + index] := if index % 2 == 1 then 17 else 236;
      index := index + 1;
    }
  }

  /** `#getInitialData` (index.js:243-259), filling a fresh buffer of `dataCodewords` bytes in place. */
  method InitialData(mode: Mode, lengthBits: nat, dataCodewords: nat, content: string, foreign: Foreign)
    returns (initialData: array<Byte>)
    requires Covers(mode, content, foreign)
    ensures fresh(initialData)
    ensures initialData[..] == InitialBytes(Id(mode), lengthBits, dataCodewords, Utf16Length(content), Values(mode, content, foreign))
  {
    var chunks := Values(mode, content, foreign);
    initialData := WriteMessage(Id(mode), lengthBits, dataCodewords, Utf16Length(content), chunks);
  }

  /**
   * The writes of index.js:244-257 for a mode id, a character count and
   * its chunks: header, chunks, then the pad bytes from the filler start.
   */
  method WriteMessage(modeId: nat, lengthBits: nat, dataCodewords: nat, count: nat, chunks: seq<Chunk>)
    returns (buffer: array<Byte>)
    ensures fresh(buffer)
    ensures buffer[..] == InitialBytes(modeId, lengthBits, dataCodewords, count, chunks)
  {
    buffer := new Byte[dataCodewords](_ => 0);
    assert buffer[..] == Zeroed(dataCodewords);
    WriteBits(buffer, modeId, 4, 0);
    WriteBits(buffer, count, lengthBits, 4);
    ghost var header := buffer[..];
    assert header == Header(modeId, lengthBits, dataCodewords, count);
    var offset := WriteAll(buffer, chunks, 4 + lengthBits);
    ghost var body := buffer[..];
    assert body == WriteChunks(header, chunks, 4 + lengthBits);
    var remainderBits := 8 - offset % 8;
    var fillerStart := offset / 8 + (if remainderBits < 4 then 2 else 1);
    assert fillerStart == FillerStart(4 + lengthBits + TotalBits(chunks));
    Pad(buffer, fillerStart);
  }

  /** The terminator and padding of index.js:252-253: `fillerStart` is the byte boundary at or after `offset + 4`. */
  lemma FillerStartRoundsUp(offset: nat)
    ensures FillerStart(offset) == (offset + 4 + 7) / 8
    ensures offset + 4 <= 8 * FillerStart(offset) < offset + 4 + 8
  {
  }

  /** The tail of a fitting chunk list fits. */
  lemma RestFits(chunks: seq<Chunk>)
    requires chunks != [] && AllFit(chunks) && Narrow(chunks)
    ensures AllFit(chunks[1..]) && Narrow(chunks[1..])
  {
    var rest := chunks[1..];
    forall i | 0 <= i < |rest| ensures 0 <= rest[i].value < Pow2(rest[i].bitLength) && rest[i].bitLength <= 13 {
      assert rest[i] == chunks[i + 1];
    }
  }

  /** Bit `j` of a stream: from the first field, or from the rest of the stream after it. */
  lemma StreamBit(chunks: seq<Chunk>, j: nat)
    requires chunks != [] && AllFit(chunks) && j < TotalBits(chunks)
    ensures AllFit(chunks[1..])
    ensures Stream(chunks)[j] ==
              if j < chunks[0].bitLength then Bit(chunks[0].value, chunks[0].bitLength - 1 - j)
              else Stream(chunks[1..])[j - chunks[0].bitLength]
  {
    var rest := chunks[1..];
    forall i | 0 <= i < |rest| ensures 0 <= rest[i].value < Pow2(rest[i].bitLength) {
      assert rest[i] == chunks[i + 1];
    }
    assert Stream(chunks) == FieldBits(chunks[0].value, chunks[0].bitLength) + Stream(rest);
  }

  /** Writing a chunk over zeros leaves every bit after it zero. */
  lemma WrittenZeros(buffer: seq<Byte>, value: int, bitLength: nat, offset: nat)
    requires bitLength <= 31 && 0 <= value < Pow2(bitLength)
    requires forall p :: offset <= p < 8 * |buffer| ==> BitAt(buffer, p) == 0
    ensures forall p :: offset + bitLength <= p < 8 * |buffer| ==> BitAt(Written(buffer, value, bitLength, offset), p) == 0
  {
    forall p | offset + bitLength <= p < 8 * |buffer|
      ensures BitAt(Written(buffer, value, bitLength, offset), p) == 0
    {
      WrittenBits(buffer, value, bitLength, offset, p);
    }
  }

  /** Writing fitting chunks one after the other from `offset` into a buffer that is zero from there on lays out their stream. */
  lemma {:induction false} WriteChunksBits(buffer: seq<Byte>, chunks: seq<Chunk>, offset: nat, pos: nat)
    requires AllFit(chunks) && Narrow(chunks)
    requires pos < 8 * |buffer|
    requires forall p :: offset <= p < 8 * |buffer| ==> BitAt(buffer, p) == 0
    ensures pos < offset ==> BitAt(WriteChunks(buffer, chunks, offset), pos) == BitAt(buffer, pos)
    ensures offset <= pos < offset + TotalBits(chunks) ==> BitAt(WriteChunks(buffer, chunks, offset), pos) == Stream(chunks)[pos - offset]
    ensures offset + TotalBits(chunks) <= pos ==> BitAt(WriteChunks(buffer, chunks, offset), pos) == 0
    decreases |chunks|
  {
    if chunks != [] {
      var c, rest := chunks[0], chunks[1..];
      RestFits(chunks);
      var next := Written(buffer, c.value, c.bitLength, offset);
      WrittenZeros(buffer, c.value, c.bitLength, offset);
      var after := offset + c.bitLength;
      WriteChunksBits(next, rest, after, pos);
      ChunksStep(buffer, chunks, offset, pos, next, rest, after);
    }
  }

  lemma WriteChunksUnfold(buffer: seq<Byte>, chunks: seq<Chunk>, offset: nat)
    requires chunks != []
    ensures WriteChunks(buffer, chunks, offset) ==
            WriteChunks(Written(buffer, chunks[0].value, chunks[0].bitLength, offset), chunks[1..], offset + chunks[0].bitLength)
  {
  }

  /** The first chunk written, then the rest: bit `pos` from what the rest of the writes leave there. */
  lemma ChunksStep(buffer: seq<Byte>, chunks: seq<Chunk>, offset: nat, pos: nat, next: seq<Byte>, rest: seq<Chunk>, after: nat)
    requires chunks != [] && AllFit(chunks) && Narrow(chunks)
    requires pos < 8 * |buffer|
    requires forall p :: offset <= p < 8 * |buffer| ==> BitAt(buffer, p) == 0
    requires next == Written(buffer, chunks[0].value, chunks[0].bitLength, offset)
    requires rest == chunks[1..] && after == offset + chunks[0].bitLength && AllFit(rest)
    requires (pos < after ==> BitAt(WriteChunks(next, rest, after), pos) == BitAt(next, pos)) &&
             (after <= pos < after + TotalBits(rest) ==> BitAt(WriteChunks(next, rest, after), pos) == Stream(rest)[pos - after]) &&
             (after + TotalBits(rest) <= pos ==> BitAt(WriteChunks(next, rest, after), pos) == 0)
    ensures pos < offset ==> BitAt(WriteChunks(buffer, chunks, offset), pos) == BitAt(buffer, pos)
    ensures offset <= pos < offset + TotalBits(chunks) ==> BitAt(WriteChunks(buffer, chunks, offset), pos) == Stream(chunks)[pos - offset]
    ensures offset + TotalBits(chunks) <= pos ==> BitAt(WriteChunks(buffer, chunks, offset), pos) == 0
  {
    WriteChunksUnfold(buffer, chunks, offset);
    if pos < offset {
      WrittenBits(buffer, chunks[0].value, chunks[0].bitLength, offset, pos);
    } else if pos < after {
      FirstChunkBit(buffer, chunks, offset, pos);
      assert TotalBits(chunks) == chunks[0].bitLength + TotalBits(rest);
    } else {
      RestChunkBit(chunks, offset, pos);
      var bit := BitAt(WriteChunks(next, rest, after), pos);
      if pos < offset + TotalBits(chunks) {
        assert bit == Stream(rest)[pos - after];
      } else {
        assert bit == 0;
      }
    }
  }

  /** Within the first chunk, the bit written over a zero bit is the stream's. */
  lemma FirstChunkBit(buffer: seq<Byte>, chunks: seq<Chunk>, offset: nat, pos: nat)
    requires chunks != [] && AllFit(chunks) && Narrow(chunks)
    requires offset <= pos < offset + chunks[0].bitLength && pos < 8 * |buffer| && BitAt(buffer, pos) == 0
    ensures BitAt(Written(buffer, chunks[0].value, chunks[0].bitLength, offset), pos) == Stream(chunks)[pos - offset]
  {
    var c := chunks[0];
    WrittenBits(buffer, c.value, c.bitLength, offset, pos);
    var j := pos - offset;
    StreamBit(chunks, j);
    assert c.bitLength - 1 - j == offset + c.bitLength - 1 - pos;
  }

  /** After the first chunk, the stream goes on with the rest of the chunks. */
  lemma RestChunkBit(chunks: seq<Chunk>, offset: nat, pos: nat)
    requires chunks != [] && AllFit(chunks) && Narrow(chunks) && offset + chunks[0].bitLength <= pos
    ensures AllFit(chunks[1..]) && TotalBits(chunks) == chunks[0].bitLength + TotalBits(chunks[1..])
    ensures pos < offset + TotalBits(chunks) ==>
              Stream(chunks)[pos - offset] == Stream(chunks[1..])[pos - (offset + chunks[0].bitLength)]
  {
    if pos < offset + TotalBits(chunks) {
      StreamBit(chunks, pos - offset);
    } else {
      RestFits(chunks);
    }
  }

  /** The two header fields of index.js:246-247, written over a zeroed buffer. */
  lemma HeaderBits(dataCodewords: nat, modeId: nat, lengthBits: nat, count: nat, pos: nat)
    requires modeId < 16 && lengthBits <= 31 && count < Pow2(lengthBits)
    requires pos < 8 * dataCodewords
    ensures BitAt(Header(modeId, lengthBits, dataCodewords, count), pos) ==
              if pos < 4 then Bit(modeId, 3 - pos)
              else if pos < 4 + lengthBits then Bit(count, 3 + lengthBits - pos)
              else 0
  {
    var zeros := Zeroed(dataCodewords);
    assert BitAt(zeros, pos) == 0 by {
      BitOfZero(7 - pos % 8);
    }
    assert Pow2(4) == 16;
    WrittenBits(zeros, modeId, 4, 0, pos);
    WrittenBits(Written(zeros, modeId, 4, 0), count, lengthBits, 4, pos);
  }

  /** Above the header fields a freshly written header is all zeros. */
  lemma HeaderZeroAbove(dataCodewords: nat, modeId: nat, lengthBits: nat, count: nat)
    requires modeId < 16 && lengthBits <= 31 && count < Pow2(lengthBits)
    ensures var header := Header(modeId, lengthBits, dataCodewords, count);
            forall p :: 4 + lengthBits <= p < 8 * |header| ==> BitAt(header, p) == 0
  {
    var header := Header(modeId, lengthBits, dataCodewords, count);
    forall p | 4 + lengthBits <= p < 8 * |header|
      ensures BitAt(header, p) == 0
    {
      HeaderBits(dataCodewords, modeId, lengthBits, count, p);
    }
  }

  /** Bit `pos` of the message: the mode id, the count, or a bit of the chunk stream. */
  lemma MessageBit(modeId: nat, lengthBits: nat, count: nat, chunks: seq<Chunk>, pos: nat)
    requires AllFit(chunks)
    requires pos < 4 + lengthBits + TotalBits(chunks)
    ensures Message(modeId, lengthBits, count, chunks)[pos] ==
              if pos < 4 then Bit(modeId, 3 - pos)
              else if pos < 4 + lengthBits then Bit(count, 3 + lengthBits - pos)
              else Stream(chunks)[pos - 4 - lengthBits]
  {
    var m := Message(modeId, lengthBits, count, chunks);
    if pos < 4 {
      assert m[pos] == FieldBits(modeId, 4)[pos];
    } else if pos < 4 + lengthBits {
      assert m[pos] == FieldBits(count, lengthBits)[pos - 4];
    } else {
      assert m[pos] == Stream(chunks)[pos - 4 - lengthBits];
    }
  }

  /** The header and chunks written over a zeroed buffer hold the message, then zeros. */
  lemma BodyBits(dataCodewords: nat, modeId: nat, lengthBits: nat, count: nat, chunks: seq<Chunk>, pos: nat)
    requires modeId < 16 && lengthBits <= 31 && count < Pow2(lengthBits)
    requires AllFit(chunks) && Narrow(chunks)
    requires pos < 8 * dataCodewords
    ensures var header := Header(modeId, lengthBits, dataCodewords, count);
            var m := Message(modeId, lengthBits, count, chunks);
            BitAt(WriteChunks(header, chunks, 4 + lengthBits), pos) == if pos < |m| then m[pos] else 0
  {
    var header := Header(modeId, lengthBits, dataCodewords, count);
    HeaderZeroAbove(dataCodewords, modeId, lengthBits, count);
    WriteChunksBits(header, chunks, 4 + lengthBits, pos);
    if pos < 4 + lengthBits {
      HeaderBits(dataCodewords, modeId, lengthBits, count, pos);
    }
    if pos < 4 + lengthBits + TotalBits(chunks) {
      MessageBit(modeId, lengthBits, count, chunks, pos);
    }
  }

  /**
   * What `#getInitialData` promises (index.js:243-259): as far as the
   * buffer reaches, it holds the message (mode indicator, character count,
   * chunks) bit for bit, then zero bits up to `fillerStart` (terminator and
   * padding to a byte boundary), then the pad bytes 236, 17, 236, ...
   * This needs the mode id, the count and every chunk value to fit their
   * widths.
   */
  lemma InitialBytesMeaning(modeId: nat, lengthBits: nat, dataCodewords: nat, count: nat, chunks: seq<Chunk>)
    requires modeId < 16 && lengthBits <= 31 && count < Pow2(lengthBits)
    requires AllFit(chunks) && Narrow(chunks)
    ensures var r := InitialBytes(modeId, lengthBits, dataCodewords, count, chunks);
            var m := Message(modeId, lengthBits, count, chunks);
            var start := FillerStart(|m|);
            (forall pos :: 0 <= pos < |m| && pos < 8 * dataCodewords ==> BitAt(r, pos) == m[pos]) &&
            (forall pos :: |m| <= pos < 8 * start && pos < 8 * dataCodewords ==> BitAt(r, pos) == 0) &&
            (forall k :: start <= k < dataCodewords ==> r[k] == if (k - start) % 2 == 0 then 236 else 17)
  {
    var header := Header(modeId, lengthBits, dataCodewords, count);
    var body := WriteChunks(header, chunks, 4 + lengthBits);
    var r := InitialBytes(modeId, lengthBits, dataCodewords, count, chunks);
    var m := Message(modeId, lengthBits, count, chunks);
    var start := FillerStart(|m|);
    assert r == Padded(body, start);
    forall pos | 0 <= pos < 8 * start && pos < 8 * dataCodewords
      ensures BitAt(r, pos) == if pos < |m| then m[pos] else 0
    {
      assert BitAt(r, pos) == BitAt(body, pos);
      BodyBits(dataCodewords, modeId, lengthBits, count, chunks, pos);
    }
  }

  /** For the encoder's own chunks: every mode but Kanji always fits; Kanji fits when each code is a Shift JIS Kanji. */
  lemma InitialDataMeaning(mode: Mode, lengthBits: nat, dataCodewords: nat, content: string, foreign: Foreign)
    requires Covers(mode, content, foreign)
    requires lengthBits <= 31 && Utf16Length(content) < Pow2(lengthBits)
    requires mode == KanjiMode ==> forall i :: 0 <= i < |content| ==> IsShiftJisKanji(foreign.shiftJis(content[i]))
    ensures AllFit(Values(mode, content, foreign))
    ensures var chunks := Values(mode, content, foreign);
            var r := InitialBytes(Id(mode), lengthBits, dataCodewords, Utf16Length(content), chunks);
            var m := Message(Id(mode), lengthBits, Utf16Length(content), chunks);
            (forall pos :: 0 <= pos < |m| && pos < 8 * dataCodewords ==> BitAt(r, pos) == m[pos]) &&
            (forall pos :: |m| <= pos < 8 * FillerStart(|m|) && pos < 8 * dataCodewords ==> BitAt(r, pos) == 0)
  {
    ValuesMatchCapacity(mode, content, foreign);
    InitialBytesMeaning(Id(mode), lengthBits, dataCodewords, Utf16Length(content), Values(mode, content, foreign));
  }
}
