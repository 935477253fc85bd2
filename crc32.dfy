/**
 * The reflected CRC-32 of ISO 3309 / ITU-T V.42 (the checksum of the PNG
 * chunks, section 5.5 of ISO/IEC 15948), computed as lib/crc32.js does it:
 * a 256-entry table built once, then one table lookup per byte.
 *
 * The JavaScript keeps the register in a 32-bit integer and combines values
 * with `^`, `&` and `>>>`.  The model keeps the unsigned reading of that
 * integer as a natural number below 2^32; `^` is `Xor`, defined bit by bit,
 * `& 0xFF` is `% 256` and `>>> k` is division by 2^k.  The independent
 * reference is the bit-at-a-time division `Rounds`, and the table-driven
 * update of the source is proved equal to it.
 */
module Crc32 {

  import opened Bits

  /** The reversed generator polynomial 0x04C11DB7. */
  const Polynomial: nat := 0xEDB8_8320

  /** All 32 bits set: the register's start value and the final mask. */
  const Ones: nat := 0xFFFF_FFFF

  // ---------------------------------------------------------------------
  // The low byte of a register

  /** A value is the `Xor` of its low byte and its high bits. */
  lemma SplitByte(c: nat)
    ensures Xor(c % 256, (c / 256) * Pow2(8)) == c
  {
    Pow2Values();
    XorDisjoint(c % 256, c / 256, 8);
  }

  /** Mixing a byte into a value only touches its low byte. */
  lemma XorByte(c: nat, b: nat)
    requires b < 256
    ensures Xor(c, b) % 256 == Xor(c % 256, b)
    ensures Xor(c, b) / 256 == c / 256
  {
    var low, high := c % 256, (c / 256) * Pow2(8);
    SplitByte(c);
    XorAssoc(low, high, b);
    XorComm(high, b);
    XorAssoc(low, b, high);
    assert Xor(c, b) == Xor(Xor(low, b), high);
    Pow2Values();
    XorBound(low, b, 8);
    XorDisjoint(Xor(low, b), c / 256, 8);
    DivModUnique(Xor(c, b), 256, c / 256, Xor(low, b));
  }

  // ---------------------------------------------------------------------
  // The register, bit at a time

  /** One shift of the register, as in the inner loop of lib/crc32.js:9. */
  function Round(c: nat): nat {
    if c % 2 == 1 then Xor(Polynomial, c / 2) else c / 2
  }

  /** `k` shifts of the register. */
  function Rounds(c: nat, k: nat): nat
    decreases k
  {
    if k == 0 then c else Rounds(Round(c), k - 1)
  }

  /** The table entry for byte `n`: eight rounds starting from `n`. */
  function TableEntry(n: Byte): nat {
    Rounds(n, 8)
  }

  /** Bit-at-a-time update of the register with one byte: the reference. */
  function UpdateBitwise(crc: nat, b: Byte): nat {
    Rounds(Xor(crc, b), 8)
  }

  /** Register after feeding `data`, one byte after another, from `crc`. */
  function Feed(crc: nat, data: seq<Byte>): nat
    decreases |data|
  {
    if data == [] then crc else Feed(UpdateBitwise(crc, data[0]), data[1..])
  }

  /** The checksum: the register starts with all ones and ends complemented. */
  function Checksum(data: seq<Byte>): nat {
    Xor(Feed(Ones, data), Ones)
  }

  /** All the arguments of `crc32(...args)`, one after another. */
  function Concat(args: seq<seq<Byte>>): seq<Byte>
    decreases |args|
  {
    if args == [] then [] else Concat(args[..|args| - 1]) + args[|args| - 1]
  }

  predicate IsCrcTable(table: seq<nat>) {
    |table| == 256 && forall n :: 0 <= n < 256 ==> table[n] == TableEntry(n)
  }

  // ---------------------------------------------------------------------
  // Lemmas about the register

  /** A round is linear over GF(2). */
  lemma RoundLinear(a: nat, b: nat)
    ensures Round(Xor(a, b)) == Xor(Round(a), Round(b))
  {
    var P, a', b' := Polynomial, a / 2, b / 2;
    XorStep(a, b);
    if a % 2 == 1 && b % 2 == 1 {
      // (P ^ a') ^ (P ^ b') == a' ^ b'
      XorAssoc(P, a', Xor(P, b'));
      XorAssoc(a', P, b');
      XorComm(a', P);
      XorAssoc(P, P, Xor(a', b'));
      XorAssoc(P, a', b');
      XorSelf(P);
    } else if a % 2 == 1 {
      XorAssoc(P, a', b');
    } else if b % 2 == 1 {
      XorAssoc(a', P, b');
      XorComm(a', P);
      XorAssoc(P, a', b');
    }
  }

  /** So are `k` rounds. */
  lemma {:induction false} RoundsLinear(a: nat, b: nat, k: nat)
    ensures Rounds(Xor(a, b), k) == Xor(Rounds(a, k), Rounds(b, k))
    decreases k
  {
    if k > 0 {
      RoundLinear(a, b);
      RoundsLinear(Round(a), Round(b), k - 1);
    }
  }

  /** A register whose low `k` bits are clear is only shifted by `k` rounds. */
  lemma {:induction false} RoundsOfHighBits(q: nat, k: nat)
    ensures Rounds(q * Pow2(k), k) == q
    decreases k
  {
    if k > 0 {
      var m := q * Pow2(k - 1);
      ShiftedUp(q, k);
      DivModUnique(2 * m, 2, m, 0);
      RoundsOfHighBits(q, k - 1);
    }
  }

  /** One more factor of two in front. */
  lemma ShiftedUp(q: nat, k: nat)
    requires k > 0
    ensures q * Pow2(k) == 2 * (q * Pow2(k - 1))
  {
    var p := Pow2(k - 1);
    assert Pow2(k) == 2 * p;
    assert q * (2 * p) == 2 * (q * p);
  }

  /** A round keeps the register within 32 bits. */
  lemma RoundBound(c: nat)
    requires c < Pow2(32)
    ensures Round(c) < Pow2(32)
  {
    if c % 2 == 1 {
      Pow2Values();
      XorBound(Polynomial, c / 2, 32);
    }
  }

  lemma {:induction false} RoundsBound(c: nat, k: nat)
    requires c < Pow2(32)
    ensures Rounds(c, k) < Pow2(32)
    decreases k
  {
    if k > 0 {
      RoundBound(c);
      RoundsBound(Round(c), k - 1);
    }
  }

  /** Every table entry is an unsigned 32-bit value. */
  lemma TableEntryBound(n: Byte)
    ensures TableEntry(n) < Pow2(32)
  {
    Pow2Values();
    RoundsBound(n, 8);
  }

  /**
   * The table-driven update of lib/crc32.js:27 agrees with the bitwise
   * update: the low byte goes through the table, the high bytes are shifted.
   */
  lemma TableUpdateIsBitwise(crc: nat, b: Byte)
    ensures Xor(TableEntry(Xor(crc, b) % 256), crc / 256) == UpdateBitwise(crc, b)
  {
    var x := Xor(crc, b);
    SplitByte(x);
    RoundsLinear(x % 256, (x / 256) * Pow2(8), 8);
    RoundsOfHighBits(x / 256, 8);
    XorByte(crc, b);
  }

  /** The update keeps the register within 32 bits, as the JavaScript integer does. */
  lemma UpdateBound(crc: nat, b: Byte)
    requires crc < Pow2(32)
    ensures UpdateBitwise(crc, b) < Pow2(32)
  {
    Pow2Values();
    XorBound(crc, b, 32);
    RoundsBound(Xor(crc, b), 8);
  }

  lemma {:induction false} FeedBound(crc: nat, data: seq<Byte>)
    requires crc < Pow2(32)
    ensures Feed(crc, data) < Pow2(32)
    decreases |data|
  {
    if data != [] {
      UpdateBound(crc, data[0]);
      FeedBound(UpdateBitwise(crc, data[0]), data[1..]);
    }
  }

  /** Feeding two pieces one after the other is feeding their concatenation. */
  lemma {:induction false} FeedAppend(crc: nat, a: seq<Byte>, b: seq<Byte>)
    ensures Feed(crc, a + b) == Feed(Feed(crc, a), b)
    decreases |a|
  {
    if a == [] {
      assert a + b == b;
    } else {
      assert (a + b)[0] == a[0];
      assert (a + b)[1..] == a[1..] + b;
      FeedAppend(UpdateBitwise(crc, a[0]), a[1..], b);
    }
  }

  /** The checksum of no bytes is 0, and every checksum is a 32-bit value. */
  lemma ChecksumOfEmpty()
    ensures Checksum([]) == 0
  {
    XorSelf(Ones);
  }

  lemma ChecksumBound(data: seq<Byte>)
    ensures Checksum(data) < Pow2(32)
  {
    Pow2Values();
    FeedBound(Ones, data);
    XorBound(Feed(Ones, data), Ones, 32);
  }

  /** One turn of the inner loop of lib/crc32.js:26-28 feeds one more byte. */
  lemma TableStep(table: seq<nat>, crc: nat, prefix: seq<Byte>, b: Byte)
    requires IsCrcTable(table)
    requires crc == Feed(Ones, prefix)
    ensures Xor(table[Xor(crc, b) % 256], crc / 256) == Feed(Ones, prefix + [b])
  {
    TableUpdateIsBitwise(crc, b);
    FeedAppend(Ones, prefix, [b]);
    assert Feed(crc, [b]) == UpdateBitwise(crc, b);
  }

  lemma PrefixSnoc(prefix: seq<Byte>, bytes: seq<Byte>, i: nat)
    requires i < |bytes|
    ensures prefix + bytes[..i + 1] == prefix + bytes[..i] + [bytes[i]]
  {
    assert bytes[..i + 1] == bytes[..i] + [bytes[i]];
  }

  lemma ConcatSnoc(args: seq<seq<Byte>>, i: nat)
    requires i < |args|
    ensures Concat(args[..i + 1]) == Concat(args[..i]) + args[i]
  {
    assert args[..i + 1][..i] == args[..i];
  }

  /** Arguments are checksummed as if concatenated: crc32(a, b) == crc32(a ++ b). */
  lemma ConcatPair(a: seq<Byte>, b: seq<Byte>)
    ensures Concat([a, b]) == a + b
  {
    assert [a, b][..1] == [a];
    assert [a][..0] == [];
    assert Concat([a]) == a;
  }

  // ---------------------------------------------------------------------
  // The imperative code

  /** The table construction of lib/crc32.js:4-14. */
  method BuildTable() returns (table: array<nat>)
    ensures fresh(table)
    ensures IsCrcTable(table[..])
  {
    table := new nat[256];
    var n := 0;
    while n < 256
      invariant 0 <= n <= 256
      invariant forall m :: 0 <= m < n ==> table[m] == TableEntry(m)
    {
      var c: nat := n;
      var k := 0;
      while k < 8
        invariant 0 <= k <= 8
        invariant Rounds(c, 8 - k) == TableEntry(n)
      {
        c := if c % 2 == 1 then Xor(Polynomial, c / 2) else c / 2;
        k := k + 1;
      }
      table[n] := c;
      n := n + 1;
    }
  }

  /**
   * `crc32(...args)` of lib/crc32.js:16-32: the register carries across the
   * arguments, so the result is the checksum of their concatenation.
   */
  method Crc32(table: array<nat>, args: seq<seq<Byte>>) returns (r: nat)
    requires IsCrcTable(table[..])
    ensures r == Checksum(Concat(args))
  {
    var crc: nat := Ones;
    var indexA := 0;
    while indexA < |args|
      invariant 0 <= indexA <= |args|
      invariant crc == Feed(Ones, Concat(args[..indexA]))
    {
      var bytes := args[indexA];
      var prefix := Concat(args[..indexA]);
      assert prefix + bytes[..0] == prefix;
      var indexB := 0;
      while indexB < |bytes|
        invariant 0 <= indexB <= |bytes|
        invariant crc == Feed(Ones, prefix + bytes[..indexB])
      {
        var b := bytes[indexB];
        TableStep(table[..], crc, prefix + bytes[..indexB], b);
        PrefixSnoc(prefix, bytes, indexB);
        crc := Xor(table[Xor(crc, b) % 256], crc / 256);
        indexB := indexB + 1;
      }
      assert bytes[..indexB] == bytes;
      ConcatSnoc(args, indexA);
      indexA := indexA + 1;
    }
    assert args[..indexA] == args;
    r := Xor(crc, Ones);
  }
}
