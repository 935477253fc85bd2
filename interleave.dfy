/**
 * Block splitting and interleaving of `QREncoder.encode` (index.js:266-318),
 * after section 7.6 of ISO/IEC 18004: the data codewords are cut into
 * `blocks` blocks, the first `blocksInGroup1` of `blockSize` codewords and
 * the rest one longer; the output takes the data codewords column by column
 * across the blocks, then the error correction codewords the same way.
 *
 * The error correction codewords of a block come from `getEDC`, a
 * Reed-Solomon remainder computed by `polyRest`, which is not part of this
 * model: it is the parameter `edc`, called as `edc(dataBlock, codewords)`.
 */
module Interleave {
  import opened Bits

  // ---------------------------------------------------------------------
  // Block layout

  /** `blockSize`: `Math.floor(length / blocks)` (index.js:272). */
  function BlockSize(length: nat, blocks: nat): nat
    requires blocks > 0
  {
    Quot(length, blocks)
  }

  /** `blocksInGroup1`: `blocks - length % blocks` (index.js:273). */
  function BlocksInGroup1(length: nat, blocks: nat): (r: nat)
    requires blocks > 0
    ensures 0 < r <= blocks
  {
    blocks - Rem(length, blocks)
  }

  /** `blockStartIndexes[b]` (index.js:276-281), defined for `b == blocks` as well. */
  function BlockStart(length: nat, blocks: nat, b: nat): nat
    requires 0 < blocks && b <= blocks
  {
    var blockSize, group1 := BlockSize(length, blocks), BlocksInGroup1(length, blocks);
    if b < group1 then blockSize * b
    else
      MulLe(1, blockSize + 1, b);
      (blockSize + 1) * b - group1
  }

  /** The length of block `b`: `blockSize`, one more in group 2 (index.js:305). */
  function BlockLength(length: nat, blocks: nat, b: nat): nat
    requires blocks > 0
  {
    BlockSize(length, blocks) + (if b < BlocksInGroup1(length, blocks) then 0 else 1)
  }

  /** The data length is `blockSize` per block plus one for each block of group 2. */
  lemma LengthSplit(length: nat, blocks: nat)
    requires blocks > 0
    ensures length == BlockSize(length, blocks) * blocks + (blocks - BlocksInGroup1(length, blocks))
  {
    QuotRem(length, blocks);
  }

  /**
   * The blocks tile the data: they start at 0, each starts where the
   * previous one ends, and the last ends at the data length.
   */
  lemma BlocksTile(length: nat, blocks: nat, b: nat)
    requires 0 < blocks && b < blocks
    ensures BlockStart(length, blocks, 0) == 0
    ensures BlockStart(length, blocks, b) + BlockLength(length, blocks, b) == BlockStart(length, blocks, b + 1)
    ensures BlockStart(length, blocks, blocks) == length
  {
    var blockSize, group1 := BlockSize(length, blocks), BlocksInGroup1(length, blocks);
    LengthSplit(length, blocks);
    assert BlockStart(length, blocks, blocks) == (blockSize + 1) * blocks - group1;
    if b + 1 < group1 {
      assert blockSize * b + blockSize == blockSize * (b + 1);
    } else if b + 1 == group1 {
      assert blockSize * b + blockSize == (blockSize + 1) * (b + 1) - group1;
    } else {
      assert (blockSize + 1) * b + (blockSize + 1) == (blockSize + 1) * (b + 1);
    }
  }

  /** Every block lies inside the data. */
  lemma {:induction false} BlockInside(length: nat, blocks: nat, b: nat)
    requires 0 < blocks && b < blocks
    ensures BlockStart(length, blocks, b) + BlockLength(length, blocks, b) <= length
    decreases blocks - b
  {
    BlocksTile(length, blocks, b);
    if b + 1 < blocks {
      BlockInside(length, blocks, b + 1);
      BlocksTile(length, blocks, b + 1);
    }
  }

  /** `initialData.subarray(start, end)` for block `b` (index.js:304-306). */
  function Block(data: seq<Byte>, blocks: nat, b: nat): (r: seq<Byte>)
    requires 0 < blocks && b < blocks
    ensures |r| == BlockLength(|data|, blocks, b)
  {
    BlockInside(|data|, blocks, b);
    var start := BlockStart(|data|, blocks, b);
    data[start..start + BlockLength(|data|, blocks, b)]
  }

  // ---------------------------------------------------------------------
  // Data interleaving

  /** `blockIndex` of index.js:288-293: the block output position `i` takes its codeword from. */
  function BlockIndex(length: nat, blocks: nat, i: nat): nat
    requires blocks > 0
  {
    Rem(i, blocks) + (if Quot(i, blocks) == BlockSize(length, blocks) then BlocksInGroup1(length, blocks) else 0)
  }

  /** `codewordIndex` of index.js:295: the data codeword that goes to output position `i`. */
  function SourceIndex(length: nat, blocks: nat, i: nat): nat
    requires 0 < blocks
  {
    var blockIndex := BlockIndex(length, blocks, i);
    if blockIndex <= blocks then BlockStart(length, blocks, blockIndex) + Quot(i, blocks) else 0
  }

  /** Where codeword `j` of block `b` goes: column `j` across the blocks, the extra codewords of group 2 last. */
  function InterleavedIndex(length: nat, blocks: nat, b: nat, j: nat): nat
    requires 0 < blocks
  {
    var blockSize, group1 := BlockSize(length, blocks), BlocksInGroup1(length, blocks);
    if j < blockSize || b < group1 then j * blocks + b else blockSize * blocks + (b - group1)
  }

  /**
   * Output position `i` takes codeword `Quot(i, blocks)` of block
   * `BlockIndex(i)`, a codeword that exists, and that block position is
   * interleaved back to `i`: with `InterleavedIndexIsSource` below, the
   * reordering is a bijection.
   */
  lemma PositionInBlock(length: nat, blocks: nat, i: nat)
    requires 0 < blocks && i < length
    ensures BlockIndex(length, blocks, i) < blocks
    ensures Quot(i, blocks) < BlockLength(length, blocks, BlockIndex(length, blocks, i))
    ensures InterleavedIndex(length, blocks, BlockIndex(length, blocks, i), Quot(i, blocks)) == i
  {
    var blockSize, group1 := BlockSize(length, blocks), BlocksInGroup1(length, blocks);
    var q, r := Quot(i, blocks), Rem(i, blocks);
    QuotRem(i, blocks);
    LengthSplit(length, blocks);
    assert q <= blockSize;
    if q == blockSize {
      assert r < blocks - group1;
    }
  }

  /** Codeword `j` of block `b` is taken to its interleaved index. */
  lemma InterleavedIndexIsSource(length: nat, blocks: nat, b: nat, j: nat)
    requires 0 < blocks && b < blocks && j < BlockLength(length, blocks, b)
    ensures InterleavedIndex(length, blocks, b, j) < length
    ensures SourceIndex(length, blocks, InterleavedIndex(length, blocks, b, j)) == BlockStart(length, blocks, b) + j
  {
    if j < BlockSize(length, blocks) {
      ColumnIsSource(length, blocks, b, j);
    } else {
      ExtraIsSource(length, blocks, b);
    }
  }

  /** A codeword in one of the first `blockSize` columns goes to `j * blocks + b`. */
  lemma ColumnIsSource(length: nat, blocks: nat, b: nat, j: nat)
    requires 0 < blocks && b < blocks && j < BlockSize(length, blocks)
    ensures j * blocks + b < length
    ensures SourceIndex(length, blocks, j * blocks + b) == BlockStart(length, blocks, b) + j
  {
    LengthSplit(length, blocks);
    QuotRemOf(j, b, blocks);
    MulLe(j + 1, BlockSize(length, blocks), blocks);
  }

  /** The extra codeword of a group-2 block goes after all the full columns. */
  lemma ExtraIsSource(length: nat, blocks: nat, b: nat)
    requires 0 < blocks && BlocksInGroup1(length, blocks) <= b < blocks
    ensures var i := BlockSize(length, blocks) * blocks + (b - BlocksInGroup1(length, blocks));
            i < length && SourceIndex(length, blocks, i) == BlockStart(length, blocks, b) + BlockSize(length, blocks)
  {
    LengthSplit(length, blocks);
    QuotRemOf(BlockSize(length, blocks), b - BlocksInGroup1(length, blocks), blocks);
  }

  lemma SourceIndexInside(length: nat, blocks: nat, i: nat)
    requires 0 < blocks && i < length
    ensures SourceIndex(length, blocks, i) < length
  {
    PositionInBlock(length, blocks, i);
    BlockInside(length, blocks, BlockIndex(length, blocks, i));
  }

  /** `reorderView` (index.js:284-298). */
  function Reordered(data: seq<Byte>, blocks: nat): (r: seq<Byte>)
    requires blocks > 0
    ensures |r| == |data|
  {
    seq(|data|, i requires 0 <= i < |data| =>
      SourceIndexInside(|data|, blocks, i);
      data[SourceIndex(|data|, blocks, i)])
  }

  // ---------------------------------------------------------------------
  // Error correction interleaving

  /** The error correction codewords `getEDC` gives for block `b` (index.js:307). */
  function EcOf(data: seq<Byte>, ecBlockSize: nat, blocks: nat, edc: (seq<Byte>, nat) -> seq<Byte>, b: nat): seq<Byte>
    requires 0 < blocks && b < blocks
  {
    var dataBlock := Block(data, blocks, b);
    edc(dataBlock, |dataBlock| + ecBlockSize)
  }

  /**
   * `errorCorrectionView` (index.js:301-315): position `j` holds codeword
   * `j / blocks` of block `j % blocks`, or stays 0 when that block has
   * fewer codewords (a store past the end of the view is dropped).
   */
  function EcInterleaved(data: seq<Byte>, ecBlockSize: nat, blocks: nat, edc: (seq<Byte>, nat) -> seq<Byte>): (r: seq<Byte>)
    requires blocks > 0
    ensures |r| == ecBlockSize * blocks
  {
    seq(ecBlockSize * blocks, j requires 0 <= j < ecBlockSize * blocks =>
      var ec := EcOf(data, ecBlockSize, blocks, edc, Rem(j, blocks));
      if Quot(j, blocks) < |ec| then ec[Quot(j, blocks)] else 0)
  }

  lemma EcInterleavedAt(data: seq<Byte>, ecBlockSize: nat, blocks: nat, edc: (seq<Byte>, nat) -> seq<Byte>, j: nat)
    requires 0 < blocks && j < ecBlockSize * blocks
    ensures var ec := EcOf(data, ecBlockSize, blocks, edc, Rem(j, blocks));
            EcInterleaved(data, ecBlockSize, blocks, edc)[j] == if Quot(j, blocks) < |ec| then ec[Quot(j, blocks)] else 0
  {
  }

  // ---------------------------------------------------------------------
  // encode

  /**
   * `encode` (index.js:266-318) after `#getInitialData`: `ecBlockSize` and
   * `blocks` are what index.js:269 reads from the error correction table.
   */
  method Encode(initialData: seq<Byte>, ecBlockSize: nat, blocks: nat, edc: (seq<Byte>, nat) -> seq<Byte>)
    returns (codewords: seq<Byte>)
    requires blocks > 0
    ensures codewords == Reordered(initialData, blocks) + EcInterleaved(initialData, ecBlockSize, blocks, edc)
  {
    var reorderView := ReorderView(initialData, blocks);
    var errorCorrectionView := EcView(initialData, ecBlockSize, blocks, edc);
    codewords := reorderView + errorCorrectionView;
  }

  /** The reorder loop of index.js:283-298, into a zeroed view of the data length. */
  method ReorderView(initialData: seq<Byte>, blocks: nat) returns (view: seq<Byte>)
    requires blocks > 0
    ensures view == Reordered(initialData, blocks)
  {
    var length := |initialData|;
    var blockSize := length / blocks;
    var blocksInGroup1 := blocks - length % blocks;
    QuotRemIsDivMod(length, blocks);
    var reorderView := new Byte[length](_ => 0);
    var reorderViewIndex := 0;
    while reorderViewIndex < length
      invariant 0 <= reorderViewIndex <= length
      invariant forall i :: 0 <= i < reorderViewIndex ==> reorderView[i] == Reordered(initialData, blocks)[i]
    {
      var blockOffset := reorderViewIndex / blocks;
      var blockIndex := reorderViewIndex % blocks + (if blockOffset == blockSize then blocksInGroup1 else 0);
      QuotRemIsDivMod(reorderViewIndex, blocks);
      assert blockIndex == BlockIndex(length, blocks, reorderViewIndex);
      PositionInBlock(length, blocks, reorderViewIndex);
      SourceIndexInside(length, blocks, reorderViewIndex);
      var codewordIndex := BlockStart(length, blocks, blockIndex) + blockOffset;
      reorderView[reorderViewIndex] := initialData[codewordIndex];
      reorderViewIndex := reorderViewIndex + 1;
    }
    view := reorderView[..];
  }

  /** The loops of index.js:300-315, into a zeroed view of `ecBlockSize * blocks` bytes. */
  method EcView(initialData: seq<Byte>, ecBlockSize: nat, blocks: nat, edc: (seq<Byte>, nat) -> seq<Byte>)
    returns (view: seq<Byte>)
    requires blocks > 0
    ensures view == EcInterleaved(initialData, ecBlockSize, blocks, edc)
  {
    var length := |initialData|;
    var blockSize := length / blocks;
    var blocksInGroup1 := blocks - length % blocks;
    QuotRemIsDivMod(length, blocks);
    ghost var spec := EcInterleaved(initialData, ecBlockSize, blocks, edc);
    var errorCorrectionView := new Byte[ecBlockSize * blocks](_ => 0);
    var offset := 0;
    while offset < blocks
      invariant 0 <= offset <= blocks
      invariant forall j :: 0 <= j < errorCorrectionView.Length ==>
                  errorCorrectionView[j] == if Rem(j, blocks) < offset then spec[j] else 0
    {
      var ecCodewords := BlockEc(initialData, ecBlockSize, blocks, edc, blockSize, blocksInGroup1, offset);
      Scatter(errorCorrectionView, ecCodewords, blocks, offset);
      forall j | 0 <= j < errorCorrectionView.Length && Rem(j, blocks) == offset
        ensures errorCorrectionView[j] == spec[j]
      {
        EcInterleavedAt(initialData, ecBlockSize, blocks, edc, j);
      }
      offset := offset + 1;
    }
    view := errorCorrectionView[..];
  }

  /** The error correction codewords of block `offset` (index.js:301-310). */
  method BlockEc(initialData: seq<Byte>, ecBlockSize: nat, blocks: nat, edc: (seq<Byte>, nat) -> seq<Byte>,
                 blockSize: nat, blocksInGroup1: nat, offset: nat)
    returns (ecCodewords: seq<Byte>)
    requires offset < blocks
    requires blockSize == BlockSize(|initialData|, blocks) && blocksInGroup1 == BlocksInGroup1(|initialData|, blocks)
    ensures ecCodewords == EcOf(initialData, ecBlockSize, blocks, edc, offset)
  {
    var start := if offset < blocksInGroup1 then blockSize * offset else (blockSize + 1) * offset - blocksInGroup1;
    var end := start + blockSize + (if offset < blocksInGroup1 then 0 else 1);
    assert start == BlockStart(|initialData|, blocks, offset);
    BlockInside(|initialData|, blocks, offset);
    var dataBlock := initialData[start..end];
    ecCodewords := edc(dataBlock, |dataBlock| + ecBlockSize);
  }

  /**
   * The inner loop of index.js:311-314: codeword `index` goes to slot
   * `index * blocks + offset`; a slot past the end of the view is dropped.
   */
  method Scatter(view: array<Byte>, ecCodewords: seq<Byte>, blocks: nat, offset: nat)
    requires offset < blocks
    modifies view
    ensures forall j :: 0 <= j < view.Length ==>
              view[j] == if Rem(j, blocks) == offset && Quot(j, blocks) < |ecCodewords|
                         then ecCodewords[Quot(j, blocks)] else old(view[j])
  {
    var index := 0;
    while index < |ecCodewords|
      invariant 0 <= index <= |ecCodewords|
      invariant forall j :: 0 <= j < view.Length ==>
                  view[j] == if Rem(j, blocks) == offset && Quot(j, blocks) < index
                             then ecCodewords[Quot(j, blocks)] else old(view[j])
    {
      var slot := index * blocks + offset;
      QuotRemOf(index, offset, blocks);
      if slot < view.Length {
        view[slot] := ecCodewords[index];
      }
      forall j | 0 <= j < view.Length && Rem(j, blocks) == offset && Quot(j, blocks) == index
        ensures j == slot
      {
        QuotRem(j, blocks);
      }
      index := index + 1;
    }
  }

  /** Slot `index * blocks + offset` is column `index` of block `offset`, inside the view exactly when `index < ecBlockSize`. */
  lemma EcSlot(ecBlockSize: nat, blocks: nat, index: nat, offset: nat)
    requires offset < blocks
    ensures Quot(index * blocks + offset, blocks) == index && Rem(index * blocks + offset, blocks) == offset
    ensures index * blocks + offset < ecBlockSize * blocks <==> index < ecBlockSize
  {
    QuotRemOf(index, offset, blocks);
    if index < ecBlockSize {
      MulLe(index + 1, ecBlockSize, blocks);
    } else {
      MulLe(ecBlockSize, index, blocks);
    }
  }

  // ---------------------------------------------------------------------
  // What encode promises

  /**
   * The output holds the data codewords then `ecBlockSize * blocks` error
   * correction codewords, and codeword `j` of data block `b` sits at its
   * interleaved index (index.js:283-298, 317).
   */
  lemma EncodeDataLayout(data: seq<Byte>, ecBlockSize: nat, blocks: nat, edc: (seq<Byte>, nat) -> seq<Byte>, b: nat)
    requires 0 < blocks && b < blocks
    ensures var out := Reordered(data, blocks) + EcInterleaved(data, ecBlockSize, blocks, edc);
            |out| == |data| + ecBlockSize * blocks &&
            forall j :: 0 <= j < BlockLength(|data|, blocks, b) ==>
              InterleavedIndex(|data|, blocks, b, j) < |data| &&
              out[InterleavedIndex(|data|, blocks, b, j)] == Block(data, blocks, b)[j]
  {
    var out := Reordered(data, blocks) + EcInterleaved(data, ecBlockSize, blocks, edc);
    forall j | 0 <= j < BlockLength(|data|, blocks, b)
      ensures InterleavedIndex(|data|, blocks, b, j) < |data|
      ensures out[InterleavedIndex(|data|, blocks, b, j)] == Block(data, blocks, b)[j]
    {
      InterleavedIndexIsSource(|data|, blocks, b, j);
      BlockInside(|data|, blocks, b);
    }
  }

  /** Where codeword `k` of block `b` goes among the error correction codewords. */
  function EcPosition(k: nat, blocks: nat, b: nat): nat {
    k * blocks + b
  }

  /**
   * Error correction codeword `k` of block `b` sits at
   * `|data| + k * blocks + b`, for every `k` that fits in the block's
   * `ecBlockSize` slots (index.js:300-317).
   */
  lemma EncodeEcLayout(data: seq<Byte>, ecBlockSize: nat, blocks: nat, edc: (seq<Byte>, nat) -> seq<Byte>, b: nat)
    requires 0 < blocks && b < blocks
    ensures var out := Reordered(data, blocks) + EcInterleaved(data, ecBlockSize, blocks, edc);
            var ec := EcOf(data, ecBlockSize, blocks, edc, b);
            forall k :: 0 <= k < ecBlockSize && k < |ec| ==>
              |data| + EcPosition(k, blocks, b) < |out| &&
              out[|data| + EcPosition(k, blocks, b)] == ec[k]
  {
    var out := Reordered(data, blocks) + EcInterleaved(data, ecBlockSize, blocks, edc);
    var ec := EcOf(data, ecBlockSize, blocks, edc, b);
    forall k | 0 <= k < ecBlockSize && k < |ec|
      ensures |data| + EcPosition(k, blocks, b) < |out|
      ensures out[|data| + EcPosition(k, blocks, b)] == ec[k]
    {
      EcLayoutAt(data, ecBlockSize, blocks, edc, b, k);
    }
  }

  /** EncodeEcLayout for one codeword `k` of block `b`. */
  lemma EcLayoutAt(data: seq<Byte>, ecBlockSize: nat, blocks: nat, edc: (seq<Byte>, nat) -> seq<Byte>, b: nat, k: nat)
    requires 0 < blocks && b < blocks && k < ecBlockSize && k < |EcOf(data, ecBlockSize, blocks, edc, b)|
    ensures |data| + EcPosition(k, blocks, b) < |Reordered(data, blocks) + EcInterleaved(data, ecBlockSize, blocks, edc)|
    ensures (Reordered(data, blocks) + EcInterleaved(data, ecBlockSize, blocks, edc))[|data| + EcPosition(k, blocks, b)]
            == EcOf(data, ecBlockSize, blocks, edc, b)[k]
  {
    var j := EcPosition(k, blocks, b);
    var front, tail := Reordered(data, blocks), EcInterleaved(data, ecBlockSize, blocks, edc);
    assert tail[j] == EcOf(data, ecBlockSize, blocks, edc, b)[k] by {
      EcSlot(ecBlockSize, blocks, k, b);
      EcInterleavedAt(data, ecBlockSize, blocks, edc, j);
    }
    AfterPrefix(front, tail, j);
  }

  /** Position `|front| + j` of `front + tail` is position `j` of `tail`. */
  lemma AfterPrefix(front: seq<Byte>, tail: seq<Byte>, j: nat)
    requires j < |tail|
    ensures |front| + j < |front + tail| && (front + tail)[|front| + j] == tail[j]
  {
  }
}
