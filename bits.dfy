/**
 * Bit-level views of natural numbers, as the JavaScript sources use them
 * through `^`, `|`, `&`, `>>` and `<<` on small non-negative integers:
 * `Bit(x, i)` is bit `i` of `x` counting from the least significant one,
 * `Xor` and `Or` are defined bit by bit, and `Pow2(k)` is `1 << k`.
 */
module Bits {

  /** A byte as stored in a `Uint8Array`. */
  type Byte = x: int | 0 <= x < 256

  function Pow2(k: nat): (r: nat)
    ensures r > 0
  {
    if k == 0 then 1 else 2 * Pow2(k - 1)
  }

  /** Bit `i` of `x`, the least significant bit being bit 0. */
  function Bit(x: nat, i: nat): (r: nat)
    ensures r < 2
    decreases i
  {
    if i == 0 then x % 2 else Bit(x / 2, i - 1)
  }

  /** Bitwise exclusive or of two naturals, lowest bit first. */
  function Xor(a: nat, b: nat): nat
    decreases a + b
  {
    if a == 0 then b
    else if b == 0 then a
    else 2 * Xor(a / 2, b / 2) + (if a % 2 == b % 2 then 0 else 1)
  }

  /** Bitwise or of two naturals, lowest bit first. */
  function Or(a: nat, b: nat): nat
    decreases a + b
  {
    if a == 0 then b
    else if b == 0 then a
    else 2 * Or(a / 2, b / 2) + (if a % 2 == 1 || b % 2 == 1 then 1 else 0)
  }

  // ---------------------------------------------------------------------
  // Powers of two

  lemma Pow2Values()
    ensures Pow2(3) == 8
    ensures Pow2(8) == 256
    ensures Pow2(31) == 0x8000_0000
    ensures Pow2(32) == 0x1_0000_0000
  {
    assert Pow2(4) == 16;
    assert Pow2(8) == 256;
    assert Pow2(12) == 4096;
    assert Pow2(16) == 65536;
    assert Pow2(20) == 0x10_0000;
    assert Pow2(24) == 0x100_0000;
    assert Pow2(28) == 0x1000_0000;
  }

  lemma Pow2Shift(q: nat, k: nat)
    requires k > 0
    ensures q * Pow2(k) == 2 * (q * Pow2(k - 1))
  {
  }

  lemma {:induction false} Pow2Monotone(a: nat, b: nat)
    requires a <= b
    ensures Pow2(a) <= Pow2(b)
    decreases b
  {
    if a < b {
      Pow2Monotone(a, b - 1);
    }
  }

  lemma {:induction false} Pow2Add(a: nat, b: nat)
    ensures Pow2(a + b) == Pow2(a) * Pow2(b)
    decreases a
  {
    if a > 0 {
      Pow2Add(a - 1, b);
      assert Pow2(a + b) == 2 * Pow2(a - 1 + b);
    }
  }

  // ---------------------------------------------------------------------
  // Single bits

  /** Two naturals with the same lowest bit and the same higher bits are equal. */
  lemma SameBits(x: nat, y: nat)
    requires x % 2 == y % 2 && x / 2 == y / 2
    ensures x == y
  {
  }

  /** Quotient and remainder are the only ones: `x == d * q + r` with `0 <= r < d`. */
  lemma DivModUnique(x: int, d: int, q: int, r: int)
    requires d > 0 && 0 <= r < d && x == d * q + r
    ensures x / d == q && x % d == r
  {
    var q', r' := x / d, x % d;
    assert x == d * q' + r';
    if q' < q {
      assert d * q - d * q' == d * (q - q');
      MulAtLeast(d, q - q');
    } else if q < q' {
      assert d * q' - d * q == d * (q' - q);
      MulAtLeast(d, q' - q);
    }
  }

  lemma MulAtLeast(d: int, k: int)
    requires d > 0 && k >= 1
    ensures d * k >= d
  {
  }

  lemma HalfOfHalf(x: nat, m: nat)
    requires m > 0
    ensures (x / 2) / m == x / (2 * m)
  {
    var q, r := x / (2 * m), x % (2 * m);
    assert x == 2 * m * q + r;
    DivModUnique(x, 2, m * q + r / 2, r % 2);
    DivModUnique(x / 2, m, q, r / 2);
  }

  /** Bit `i` of `x` is the lowest bit of `x / 2^i`. */
  lemma {:induction false} BitIsQuotient(x: nat, i: nat)
    ensures Bit(x, i) == (x / Pow2(i)) % 2
    decreases i
  {
    if i > 0 {
      BitIsQuotient(x / 2, i - 1);
      HalfOfHalf(x, Pow2(i - 1));
    }
  }

  /** A value below 2^n has no bit at position n or beyond. */
  lemma {:induction false} BitAboveWidth(x: nat, n: nat, i: nat)
    requires x < Pow2(n) && n <= i
    ensures Bit(x, i) == 0
    decreases i
  {
    if i > 0 {
      if n > 0 {
        BitAboveWidth(x / 2, n - 1, i - 1);
      } else {
        assert x == 0;
        BitOfZero(i);
      }
    }
  }

  lemma {:induction false} BitOfZero(i: nat)
    ensures Bit(0, i) == 0
    decreases i
  {
    if i > 0 {
      BitOfZero(i - 1);
    }
  }

  /** `x >> s` for a non-negative `x`. */
  function Shr(x: nat, s: nat): (r: nat)
    decreases s
  {
    if s == 0 then x else Shr(x / 2, s - 1)
  }

  /** Shifting right by `s` is division by 2^s. */
  lemma {:induction false} ShrIsQuotient(x: nat, s: nat)
    ensures Shr(x, s) == x / Pow2(s)
    decreases s
  {
    if s > 0 {
      ShrIsQuotient(x / 2, s - 1);
      HalfOfHalf(x, Pow2(s - 1));
    }
  }

  /** Shifting right by `s`: `Bit(x >> s, i) == Bit(x, i + s)`. */
  lemma {:induction false} BitOfShr(x: nat, s: nat, i: nat)
    ensures Bit(Shr(x, s), i) == Bit(x, i + s)
    decreases s
  {
    if s > 0 {
      BitOfShr(x / 2, s - 1, i);
      assert Bit(x, i + s) == Bit(x / 2, i + s - 1);
    }
  }

  /** Shifting left by `s`: the low `s` bits are clear, the rest move up. */
  lemma {:induction false} BitOfProduct(x: nat, s: nat, i: nat)
    ensures Bit(x * Pow2(s), i) == if i < s then 0 else Bit(x, i - s)
    decreases s
  {
    if s > 0 {
      Pow2Shift(x, s);
      var y := x * Pow2(s - 1);
      assert (2 * y) % 2 == 0 && (2 * y) / 2 == y;
      if i > 0 {
        BitOfProduct(x, s - 1, i - 1);
      }
    }
  }

  /** Masking with `2^a - 1` keeps the low `a` bits and clears the rest. */
  lemma {:induction false} BitOfRemainder(x: nat, a: nat, i: nat)
    ensures Bit(x % Pow2(a), i) == if i < a then Bit(x, i) else 0
    decreases a
  {
    if a == 0 {
      BitOfZero(i);
    } else {
      var m := Pow2(a - 1);
      var y := x % Pow2(a);
      assert y % 2 == x % 2 && y / 2 == (x / 2) % m by {
        var q := x / (2 * m);
        assert x == 2 * m * q + y;
        DivModUnique(x, 2, m * q + y / 2, y % 2);
        DivModUnique(x / 2, m, q, y / 2);
      }
      if i > 0 {
        BitOfRemainder(x / 2, a - 1, i - 1);
      }
    }
  }

  // ---------------------------------------------------------------------
  // Exclusive or

  /** The lowest bit of `Xor(a, b)` is the sum of theirs, the rest is `Xor` of the rest. */
  lemma XorStep(a: nat, b: nat)
    ensures Xor(a, b) % 2 == (a + b) % 2
    ensures Xor(a, b) / 2 == Xor(a / 2, b / 2)
  {
    if a != 0 && b != 0 {
      assert a == 2 * (a / 2) + a % 2 && b == 2 * (b / 2) + b % 2;
      if a % 2 == b % 2 {
        DivModUnique(Xor(a, b), 2, Xor(a / 2, b / 2), 0);
        DivModUnique(a + b, 2, a / 2 + b / 2 + a % 2, 0);
      } else {
        DivModUnique(Xor(a, b), 2, Xor(a / 2, b / 2), 1);
        DivModUnique(a + b, 2, a / 2 + b / 2, 1);
      }
    }
  }

  lemma {:induction false} XorComm(a: nat, b: nat)
    ensures Xor(a, b) == Xor(b, a)
    decreases a + b
  {
    if a != 0 && b != 0 {
      XorComm(a / 2, b / 2);
      XorStep(a, b);
      XorStep(b, a);
      SameBits(Xor(a, b), Xor(b, a));
    }
  }

  lemma {:induction false} XorSelf(a: nat)
    ensures Xor(a, a) == 0
    decreases a
  {
    if a != 0 {
      XorSelf(a / 2);
      XorStep(a, a);
    }
  }

  lemma {:induction false} XorAssoc(a: nat, b: nat, c: nat)
    ensures Xor(Xor(a, b), c) == Xor(a, Xor(b, c))
    decreases a + b + c
  {
    if a != 0 && b != 0 && c != 0 {
      XorAssoc(a / 2, b / 2, c / 2);
      XorStep(a, b);
      XorStep(Xor(a, b), c);
      XorStep(b, c);
      XorStep(a, Xor(b, c));
      SameBits(Xor(Xor(a, b), c), Xor(a, Xor(b, c)));
    }
  }

  /** `Xor` of two `k`-bit values is a `k`-bit value. */
  lemma {:induction false} XorBound(a: nat, b: nat, k: nat)
    requires a < Pow2(k) && b < Pow2(k)
    ensures Xor(a, b) < Pow2(k)
    decreases k
  {
    if k > 0 && a != 0 && b != 0 {
      XorBound(a / 2, b / 2, k - 1);
      XorStep(a, b);
    }
  }

  /** Bits below position `k` and bits from position `k` on do not overlap: `Xor` adds them. */
  lemma {:induction false} XorDisjoint(a: nat, q: nat, k: nat)
    requires a < Pow2(k)
    ensures Xor(a, q * Pow2(k)) == a + q * Pow2(k)
    decreases k
  {
    if k > 0 {
      var z := q * Pow2(k - 1);
      Pow2Shift(q, k);
      XorDisjoint(a / 2, q, k - 1);
      XorDisjointStep(a, z);
    }
  }

  lemma XorDisjointStep(a: nat, z: nat)
    requires Xor(a / 2, z) == a / 2 + z
    ensures Xor(a, 2 * z) == a + 2 * z
  {
    var x, s, h := Xor(a, 2 * z), a + 2 * z, a / 2 + z;
    XorStep(a, 2 * z);
    DivModUnique(2 * z, 2, z, 0);
    assert x / 2 == h;
    DivModUnique(s, 2, h, a % 2);
    assert x % 2 == s % 2 && s / 2 == h;
    SameBits(x, s);
  }

  // ---------------------------------------------------------------------
  // Or

  /** Each bit of `Or(a, b)` is set exactly when it is set in `a` or in `b`. */
  lemma {:induction false} BitOfOr(a: nat, b: nat, i: nat)
    ensures Bit(Or(a, b), i) == if Bit(a, i) == 1 || Bit(b, i) == 1 then 1 else 0
    decreases i
  {
    if a == 0 {
      BitOfZero(i);
    } else if b == 0 {
      BitOfZero(i);
    } else {
      var r := Or(a / 2, b / 2);
      assert Or(a, b) % 2 == (if a % 2 == 1 || b % 2 == 1 then 1 else 0);
      assert Or(a, b) / 2 == r;
      if i > 0 {
        BitOfOr(a / 2, b / 2, i - 1);
      }
    }
  }

  /** `Or` of two `k`-bit values is a `k`-bit value. */
  lemma {:induction false} OrBound(a: nat, b: nat, k: nat)
    requires a < Pow2(k) && b < Pow2(k)
    ensures Or(a, b) < Pow2(k)
    decreases k
  {
    if k > 0 && a != 0 && b != 0 {
      OrBound(a / 2, b / 2, k - 1);
    }
  }

  // ---------------------------------------------------------------------
  // Quotient and remainder by a variable divisor

  /** `x / d` by repeated subtraction: a recursive definition keeps the solver away from nonlinear division. */
  function Quot(x: nat, d: nat): nat
    requires d > 0
    decreases x
  {
    if x < d then 0 else 1 + Quot(x - d, d)
  }

  /** `x % d` by repeated subtraction. */
  function Rem(x: nat, d: nat): (r: nat)
    requires d > 0
    ensures r < d
    decreases x
  {
    if x < d then x else Rem(x - d, d)
  }

  lemma {:induction false} QuotRem(x: nat, d: nat)
    requires d > 0
    ensures x == Quot(x, d) * d + Rem(x, d)
    decreases x
  {
    if x >= d {
      QuotRem(x - d, d);
      assert Quot(x, d) * d == d + Quot(x - d, d) * d;
    }
  }

  lemma QuotRemIsDivMod(x: nat, d: nat)
    requires d > 0
    ensures Quot(x, d) == x / d && Rem(x, d) == x % d
  {
    QuotRem(x, d);
    DivModUnique(x, d, Quot(x, d), Rem(x, d));
  }

  /** The quotient and remainder of `q * d + r` with `r < d` are `q` and `r`. */
  lemma QuotRemOf(q: nat, r: nat, d: nat)
    requires r < d
    ensures Quot(q * d + r, d) == q && Rem(q * d + r, d) == r
  {
    QuotRemIsDivMod(q * d + r, d);
    DivModUnique(q * d + r, d, q, r);
  }

  lemma MulLe(a: nat, b: nat, c: nat)
    requires a <= b
    ensures a * c <= b * c
  {
    assert b * c == a * c + (b - a) * c;
  }
}
