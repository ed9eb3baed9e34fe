/** Go's uint64 arithmetic and bitwise operators.

    A uint64 is modelled as a natural number below 2^64, and bit i of a value v is
    the parity of v / 2^i.  The operators `&`, `|` and `&^` are defined bit by bit,
    `x << n` is n doublings modulo 2^64 (so a count of 64 or more gives 0, as in
    Go), `x >> n` is n halvings, and `-` wraps around modulo 2^64.  The lemmas
    characterise every operator by what it does to each bit; `Extensionality`
    turns such bit-wise facts back into equalities of values.
 */
module Bits {

  /** 2^64: every uint64 is below it */
  const Modulus: nat := 0x1_0000_0000_0000_0000

  /** Go's uint64 */
  type U64 = v: nat | v < Modulus

  /** Number of bits in a uint64 */
  const Width: nat := 64

  function Pow2(n: nat): (r: nat)
    ensures r > 0
  {
    if n == 0 then 1 else 2 * Pow2(n - 1)
  }

  /** Bit i of v, bit 0 being the least significant */
  predicate Bit(v: nat, i: nat) {
    if i == 0 then v % 2 == 1 else Bit(v / 2, i - 1)
  }

  /** Go's `a & b` */
  function And(a: nat, b: nat): nat
    decreases a
  {
    if a == 0 || b == 0 then 0
    else 2 * And(a / 2, b / 2) + (if a % 2 == 1 && b % 2 == 1 then 1 else 0)
  }

  /** Go's `a | b` */
  function Or(a: nat, b: nat): nat
    decreases a + b
  {
    if a == 0 then b
    else if b == 0 then a
    else 2 * Or(a / 2, b / 2) + (if a % 2 == 1 || b % 2 == 1 then 1 else 0)
  }

  /** Go's bit clear `a &^ b`: the bits of a that are not in b */
  function AndNot(a: nat, b: nat): nat
    decreases a
  {
    if a == 0 then 0
    else if b == 0 then a
    else 2 * AndNot(a / 2, b / 2) + (if a % 2 == 1 && b % 2 == 0 then 1 else 0)
  }

  /** Go's `x << n` on a uint64 */
  function Shl(x: U64, n: nat): U64 {
    if n == 0 then x else 2 * Shl(x, n - 1) % Modulus
  }

  /** Go's `x >> n` on a uint64 */
  function Shr(x: U64, n: nat): U64 {
    if n == 0 then x else Shr(x, n - 1) / 2
  }

  /** Go's `a - b` on uint64, which wraps around */
  function Sub(a: U64, b: U64): U64 {
    if b <= a then a - b else Modulus - b + a
  }

  /** Go's `uint64(1)<<length - 1`: the lowest `length` bits set */
  function LowMask(length: nat): U64 {
    Sub(Shl(1, length), 1)
  }

  /** x can be stored in a field of the given length without losing bits */
  predicate Fits(x: nat, length: nat) {
    x < Pow2(length)
  }

  // ---------------------------------------------------------------------------
  // Powers of two

  /** Exponents add under multiplication */
  lemma {:induction false} Pow2Add(a: nat, b: nat)
    ensures Pow2(a + b) == Pow2(a) * Pow2(b)
  {
    if b > 0 {
      Pow2Add(a, b - 1);
      assert Pow2(a + b) == 2 * Pow2(a + (b - 1));
    }
  }

  /** The powers of two the register layouts use, each built from smaller ones */
  lemma Pow2Values()
    ensures Pow2(6) == 0x40 && Pow2(8) == 0x100 && Pow2(14) == 0x4000
    ensures Pow2(22) == 0x40_0000 && Pow2(32) == 0x1_0000_0000
    ensures Pow2(63) == 0x8000_0000_0000_0000 && Pow2(Width) == Modulus
  {
    assert Pow2(6) == 0x40;
    assert Pow2(8) == 0x100;
    assert Pow2(10) == 0x400;
    Pow2Add(8, 6);
    Pow2Add(14, 8);
    Pow2Add(22, 10);
    Pow2Add(32, 32);
    assert Pow2(64) == 2 * Pow2(63);
  }

  lemma {:induction false} Pow2Increasing(a: nat, b: nat)
    requires a < b
    ensures Pow2(a) < Pow2(b)
  {
    if a < b - 1 { Pow2Increasing(a, b - 1); }
  }

  /** 2^n is a uint64 for every n below the word width */
  lemma Pow2BelowWidth(n: nat)
    requires n < Width
    ensures Pow2(n) < Modulus
  {
    Pow2Values();
    Pow2Increasing(n, Width);
  }

  // ---------------------------------------------------------------------------
  // Single bits

  lemma {:induction false} BitZero(i: nat)
    ensures !Bit(0, i)
  {
    if i > 0 { BitZero(i - 1); }
  }

  /** 2^k has exactly bit k set */
  lemma {:induction false} BitPow2(k: nat, i: nat)
    ensures Bit(Pow2(k), i) == (i == k)
  {
    if i == 0 {
    } else if k == 0 {
      BitZero(i - 1);
    } else {
      BitPow2(k - 1, i - 1);
    }
  }

  /** v = 2^hi - 2^lo has exactly the bits lo .. hi-1 set */
  lemma {:induction false} BitRange(lo: nat, hi: nat, v: nat, i: nat)
    requires lo <= hi && v + Pow2(lo) == Pow2(hi)
    ensures Bit(v, i) == (lo <= i < hi)
  {
    if lo == hi {
      BitZero(i);
    } else if i > 0 {
      if lo > 0 {
        assert v / 2 + Pow2(lo - 1) == Pow2(hi - 1);
        BitRange(lo - 1, hi - 1, v / 2, i - 1);
      } else {
        assert v / 2 + Pow2(0) == Pow2(hi - 1);
        BitRange(0, hi - 1, v / 2, i - 1);
      }
    }
  }

  /** A value below 2^k has no bit at position k or above */
  lemma {:induction false} BitsBelow(v: nat, k: nat, i: nat)
    requires v < Pow2(k) && k <= i
    ensures !Bit(v, i)
  {
    if k == 0 {
      BitZero(i);
    } else {
      BitsBelow(v / 2, k - 1, i - 1);
    }
  }

  /** Bits above the width of a uint64 are clear */
  lemma BitBeyondWidth(v: U64, i: nat)
    requires Width <= i
    ensures !Bit(v, i)
  {
    Pow2Values();
    BitsBelow(v, Width, i);
  }

  /** Two values with the same bits are equal */
  lemma {:induction false} Extensionality(a: nat, b: nat)
    requires forall i: nat :: Bit(a, i) == Bit(b, i)
    ensures a == b
    decreases a + b
  {
    if a != 0 || b != 0 {
      assert Bit(a, 0) == Bit(b, 0);
      forall i: nat
        ensures Bit(a / 2, i) == Bit(b / 2, i)
      {
        assert Bit(a, i + 1) == Bit(b, i + 1);
      }
      Extensionality(a / 2, b / 2);
    }
  }

  /** A value with no bit at position k or above is below 2^k */
  lemma {:induction false} BelowFromBits(v: nat, k: nat)
    requires forall i: nat :: k <= i ==> !Bit(v, i)
    ensures v < Pow2(k)
  {
    if k == 0 {
      forall i: nat
        ensures Bit(v, i) == Bit(0, i)
      {
        BitZero(i);
      }
      Extensionality(v, 0);
    } else {
      forall i: nat | k - 1 <= i
        ensures !Bit(v / 2, i)
      {
        assert !Bit(v, i + 1);
      }
      BelowFromBits(v / 2, k - 1);
    }
  }

  // ---------------------------------------------------------------------------
  // The bitwise operators, bit by bit

  lemma {:induction false} BitAnd(a: nat, b: nat, i: nat)
    ensures Bit(And(a, b), i) == (Bit(a, i) && Bit(b, i))
    decreases i
  {
    if a == 0 || b == 0 {
      BitZero(i);
    } else if i > 0 {
      BitAnd(a / 2, b / 2, i - 1);
    }
  }

  lemma {:induction false} BitOr(a: nat, b: nat, i: nat)
    ensures Bit(Or(a, b), i) == (Bit(a, i) || Bit(b, i))
    decreases i
  {
    if a == 0 || b == 0 {
      BitZero(i);
    } else if i > 0 {
      BitOr(a / 2, b / 2, i - 1);
    }
  }

  lemma {:induction false} BitAndNot(a: nat, b: nat, i: nat)
    ensures Bit(AndNot(a, b), i) == (Bit(a, i) && !Bit(b, i))
    decreases i
  {
    if a == 0 || b == 0 {
      BitZero(i);
    } else if i > 0 {
      BitAndNot(a / 2, b / 2, i - 1);
    }
  }

  /** `&`, `|` and `&^` of two uint64 values are uint64 values */
  lemma Closed(a: U64, b: U64)
    ensures And(a, b) < Modulus && Or(a, b) < Modulus && AndNot(a, b) < Modulus
  {
    forall i: nat | Width <= i
      ensures !Bit(And(a, b), i) && !Bit(Or(a, b), i) && !Bit(AndNot(a, b), i)
    {
      BitAnd(a, b, i);
      BitOr(a, b, i);
      BitAndNot(a, b, i);
      BitBeyondWidth(a, i);
      BitBeyondWidth(b, i);
    }
    Pow2Values();
    BelowFromBits(And(a, b), Width);
    BelowFromBits(Or(a, b), Width);
    BelowFromBits(AndNot(a, b), Width);
  }

  // ---------------------------------------------------------------------------
  // Shifts, bit by bit

  lemma {:induction false} BitShr(x: U64, n: nat, i: nat)
    ensures Bit(Shr(x, n), i) == Bit(x, n + i)
  {
    if n > 0 {
      BitShr(x, n - 1, i + 1);
    }
  }

  /** Removing the top bit 2^k of a value below 2^(k+1) clears exactly bit k */
  lemma {:induction false} BitDropTop(y: nat, k: nat, j: nat)
    requires Pow2(k) <= y < 2 * Pow2(k)
    ensures Bit(y - Pow2(k), j) == (j != k && Bit(y, j))
  {
    if k == 0 {
      if j > 0 { BitZero(j - 1); }
    } else {
      var h := Pow2(k - 1);
      assert Pow2(k) == 2 * h;
      assert (y - 2 * h) % 2 == y % 2;
      if j > 0 {
        assert (y - 2 * h) / 2 == y / 2 - h;
        BitDropTop(y / 2, k - 1, j - 1);
      }
    }
  }

  /** One doubling modulo 2^64 moves every bit up by one and drops bit 63 */
  lemma BitDouble(y: U64, i: nat)
    ensures Bit(2 * y % Modulus, i) == (1 <= i < Width && Bit(y, i - 1))
  {
    Pow2Values();
    if i == 0 {
    } else if 2 * y < Modulus {
      assert 2 * y % Modulus == 2 * y;
      assert (2 * y) / 2 == y;
      if Width <= i { BitsBelow(y, 63, i - 1); }
    } else {
      var z := y - Pow2(63);
      assert 2 * y % Modulus == 2 * z;
      assert (2 * z) / 2 == z;
      BitDropTop(y, 63, i - 1);
      if Width < i { BitsBelow(y, Width, i - 1); }
    }
  }

  lemma {:induction false} BitShl(x: U64, n: nat, i: nat)
    ensures Bit(Shl(x, n), i) == (n <= i < Width && Bit(x, i - n))
  {
    if n == 0 {
      if Width <= i { BitBeyondWidth(x, i); }
    } else {
      BitDouble(Shl(x, n - 1), i);
      if 1 <= i { BitShl(x, n - 1, i - 1); }
    }
  }

  /** Go's `1 << l` is 2^l below the word width and 0 from there on */
  lemma {:induction false} ShlOne(l: nat)
    ensures Shl(1, l) == if l < Width then Pow2(l) else 0
  {
    if 0 < l < Width {
      ShlOne(l - 1);
      ShlOneBelowWidth(l);
    } else if l == Width {
      ShlOne(l - 1);
      ShlOneAtWidth(l);
    } else if l > Width {
      ShlOne(l - 1);
    }
  }

  lemma ShlOneBelowWidth(l: nat)
    requires 0 < l < Width && Shl(1, l - 1) == Pow2(l - 1)
    ensures Shl(1, l) == Pow2(l)
  {
    Pow2BelowWidth(l);
  }

  lemma ShlOneAtWidth(l: nat)
    requires l == Width && Shl(1, l - 1) == Pow2(l - 1)
    ensures Shl(1, l) == 0
  {
    Pow2Values();
  }

  lemma BitLowMask(l: nat, i: nat)
    ensures Bit(LowMask(l), i) == (i < l && i < Width)
  {
    ShlOne(l);
    Pow2Values();
    if l < Width {
      BitRange(0, l, Pow2(l) - 1, i);
    } else {
      BitRange(0, Width, Modulus - 1, i);
    }
  }
}
