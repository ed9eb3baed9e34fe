/** Go's `setBits`: writing a value into a bit field of a 64-bit register image.

    A field is given by its lowest bit `base` and its `length`; it covers bits
    base .. base+length-1 (those below 64).  `setBits` clears the field and ORs
    in `new << base` WITHOUT masking `new` to the field, so the bits of an
    out-of-range value above the field land in the neighbouring higher bits.
 */
module Field {
  import opened Bits

  /** Go's `(uint64(1)<<length - 1) << base` */
  function FieldMask(base: nat, length: nat): U64 {
    Shl(LowMask(length), base)
  }

  /** Go's `setBits(val, base, length, new)`: `(val &^ mask) | (new << base)` */
  function SetBits(val: U64, base: nat, length: nat, x: U64): U64 {
    Closed(val, FieldMask(base, length));
    var cleared: U64 := AndNot(val, FieldMask(base, length));
    Closed(cleared, Shl(x, base));
    Or(cleared, Shl(x, base))
  }

  /** The field's current value, read the way the register decoder reads it:
      `(val & mask) >> base` */
  function FieldOf(val: U64, base: nat, length: nat): U64 {
    Closed(val, FieldMask(base, length));
    Shr(And(val, FieldMask(base, length)), base)
  }

  /** x cut down to the field length, the truncation `setBits` does not do */
  function Truncate(x: U64, length: nat): U64 {
    Closed(x, LowMask(length));
    And(x, LowMask(length))
  }

  /** The bits of x that do not fit in the field */
  function Excess(x: U64, length: nat): U64 {
    Closed(x, LowMask(length));
    AndNot(x, LowMask(length))
  }

  /** Bit i lies in the field */
  predicate InField(base: nat, length: nat, i: nat) {
    base <= i < base + length && i < Width
  }

  // ---------------------------------------------------------------------------
  // Bit by bit

  lemma BitFieldMask(base: nat, length: nat, i: nat)
    ensures Bit(FieldMask(base, length), i) == InField(base, length, i)
  {
    BitShl(LowMask(length), base, i);
    if base <= i { BitLowMask(length, i - base); }
  }

  /** Inside the field the result holds x's bits; outside it holds the old bits
      ORed with whatever part of `x << base` lands there */
  lemma BitSetBits(val: U64, base: nat, length: nat, x: U64, i: nat)
    ensures Bit(SetBits(val, base, length, x), i) ==
      if InField(base, length, i) then Bit(x, i - base)
      else Bit(val, i) || (base <= i < Width && Bit(x, i - base))
  {
    var mask := FieldMask(base, length);
    Closed(val, mask);
    var cleared: U64 := AndNot(val, mask);
    BitOr(cleared, Shl(x, base), i);
    BitAndNot(val, mask, i);
    BitFieldMask(base, length, i);
    BitShl(x, base, i);
  }

  lemma BitFieldOf(val: U64, base: nat, length: nat, i: nat)
    ensures Bit(FieldOf(val, base, length), i) ==
      (i < length && base + i < Width && Bit(val, base + i))
  {
    Closed(val, FieldMask(base, length));
    BitShr(And(val, FieldMask(base, length)), base, i);
    BitAnd(val, FieldMask(base, length), base + i);
    BitFieldMask(base, length, base + i);
  }

  /** An in-range x has no bit at or above the field length */
  lemma FitsNoHighBit(x: U64, length: nat, j: nat)
    requires Fits(x, length) && length <= j
    ensures !Bit(x, j)
  {
    BitsBelow(x, length, j);
  }

  // ---------------------------------------------------------------------------
  // Properties of setBits

  /** Writing an in-range value changes no bit outside the field */
  lemma SetBitsFrame(val: U64, base: nat, length: nat, x: U64)
    requires Fits(x, length)
    ensures forall i: nat :: !InField(base, length, i) ==>
      (Bit(SetBits(val, base, length, x), i) <==> Bit(val, i))
    ensures AndNot(SetBits(val, base, length, x), FieldMask(base, length)) ==
            AndNot(val, FieldMask(base, length))
  {
    var r := SetBits(val, base, length, x);
    var mask := FieldMask(base, length);
    forall i: nat | !InField(base, length, i)
      ensures Bit(r, i) == Bit(val, i)
    {
      BitSetBits(val, base, length, x, i);
      if base <= i < Width { FitsNoHighBit(x, length, i - base); }
    }
    forall i: nat
      ensures Bit(AndNot(r, mask), i) == Bit(AndNot(val, mask), i)
    {
      BitAndNot(r, mask, i);
      BitAndNot(val, mask, i);
      BitFieldMask(base, length, i);
    }
    Extensionality(AndNot(r, mask), AndNot(val, mask));
  }

  /** Reading the field back after writing an in-range value gives the value */
  lemma SetBitsReadBack(val: U64, base: nat, length: nat, x: U64)
    requires Fits(x, length) && base + length <= Width
    ensures FieldOf(SetBits(val, base, length, x), base, length) == x
  {
    var r := SetBits(val, base, length, x);
    forall i: nat
      ensures Bit(FieldOf(r, base, length), i) == Bit(x, i)
    {
      BitFieldOf(r, base, length, i);
      if i < length {
        BitSetBits(val, base, length, x, base + i);
      } else {
        FitsNoHighBit(x, length, i);
      }
    }
    Extensionality(FieldOf(r, base, length), x);
  }

  /** Writing the same value twice is the same as writing it once, in range or not */
  lemma SetBitsIdempotent(val: U64, base: nat, length: nat, x: U64)
    ensures SetBits(SetBits(val, base, length, x), base, length, x) ==
            SetBits(val, base, length, x)
  {
    var r := SetBits(val, base, length, x);
    forall i: nat
      ensures Bit(SetBits(r, base, length, x), i) == Bit(r, i)
    {
      BitSetBits(r, base, length, x, i);
      BitSetBits(val, base, length, x, i);
    }
    Extensionality(SetBits(r, base, length, x), r);
  }

  /** Writing back the field's own value leaves the register unchanged */
  lemma SetBitsOwnField(val: U64, base: nat, length: nat)
    ensures SetBits(val, base, length, FieldOf(val, base, length)) == val
  {
    var f := FieldOf(val, base, length);
    forall i: nat
      ensures Bit(SetBits(val, base, length, f), i) == Bit(val, i)
    {
      BitSetBits(val, base, length, f, i);
      if base <= i {
        BitFieldOf(val, base, length, i - base);
      }
      if Width <= i { BitBeyondWidth(val, i); }
    }
    Extensionality(SetBits(val, base, length, f), val);
  }

  /** After an in-range write, a second write to the same field replaces it */
  lemma SetBitsOverwrite(val: U64, base: nat, length: nat, x: U64, y: U64)
    requires Fits(x, length)
    ensures SetBits(SetBits(val, base, length, x), base, length, y) ==
            SetBits(val, base, length, y)
  {
    var r := SetBits(val, base, length, x);
    forall i: nat
      ensures Bit(SetBits(r, base, length, y), i) == Bit(SetBits(val, base, length, y), i)
    {
      BitSetBits(r, base, length, y, i);
      BitSetBits(val, base, length, y, i);
      BitSetBits(val, base, length, x, i);
      if base + length <= i < Width { FitsNoHighBit(x, length, i - base); }
    }
    Extensionality(SetBits(r, base, length, y), SetBits(val, base, length, y));
  }

  /** An in-range write leaves any disjoint field reading as before */
  lemma SetBitsOtherField(val: U64, base: nat, length: nat, x: U64, base2: nat, length2: nat)
    requires Fits(x, length)
    requires base + length <= base2 || base2 + length2 <= base
    ensures FieldOf(SetBits(val, base, length, x), base2, length2) == FieldOf(val, base2, length2)
  {
    var r := SetBits(val, base, length, x);
    SetBitsFrame(val, base, length, x);
    forall i: nat
      ensures Bit(FieldOf(r, base2, length2), i) == Bit(FieldOf(val, base2, length2), i)
    {
      BitFieldOf(r, base2, length2, i);
      BitFieldOf(val, base2, length2, i);
    }
    Extensionality(FieldOf(r, base2, length2), FieldOf(val, base2, length2));
  }

  /** An out-of-range write spills: the field just above the written one reads as
      its old value ORed with the bits of x beyond the written field's length */
  lemma SetBitsSpill(val: U64, base: nat, length: nat, x: U64, length2: nat)
    requires base + length + length2 <= Width
    ensures FieldOf(SetBits(val, base, length, x), base + length, length2) ==
            Or(FieldOf(val, base + length, length2), FieldOf(x, length, length2))
  {
    var r := SetBits(val, base, length, x);
    var above := FieldOf(val, base + length, length2);
    var excess := FieldOf(x, length, length2);
    forall i: nat
      ensures Bit(FieldOf(r, base + length, length2), i) == Bit(Or(above, excess), i)
    {
      BitFieldOf(r, base + length, length2, i);
      BitOr(above, excess, i);
      BitFieldOf(val, base + length, length2, i);
      BitFieldOf(x, length, length2, i);
      BitSetBits(val, base, length, x, base + length + i);
    }
    Extensionality(FieldOf(r, base + length, length2), Or(above, excess));
  }

  /** setBits does not truncate: the result is the truncated write with the excess
      bits of x, shifted into place, ORed on top; outside the field a bit can be
      set by the write but never cleared */
  lemma SetBitsNoMasking(val: U64, base: nat, length: nat, x: U64)
    ensures SetBits(val, base, length, x) ==
            Or(SetBits(val, base, length, Truncate(x, length)), Shl(Excess(x, length), base))
    ensures forall i: nat :: !InField(base, length, i) && Bit(val, i) ==>
            Bit(SetBits(val, base, length, x), i)
  {
    var r := SetBits(val, base, length, x);
    var t := Truncate(x, length);
    var e := Excess(x, length);
    var lhs := Or(SetBits(val, base, length, t), Shl(e, base));
    forall i: nat
      ensures Bit(r, i) == Bit(lhs, i)
    {
      BitSetBits(val, base, length, x, i);
      BitSetBits(val, base, length, t, i);
      BitOr(SetBits(val, base, length, t), Shl(e, base), i);
      BitShl(e, base, i);
      if base <= i {
        BitAnd(x, LowMask(length), i - base);
        BitAndNot(x, LowMask(length), i - base);
        BitLowMask(length, i - base);
      }
    }
    Extensionality(r, lhs);
    forall i: nat | !InField(base, length, i) && Bit(val, i)
      ensures Bit(r, i)
    {
      BitSetBits(val, base, length, x, i);
    }
  }

  /** A field read is below 2^length */
  lemma FieldOfFits(val: U64, base: nat, length: nat)
    ensures Fits(FieldOf(val, base, length), length)
  {
    forall i: nat | length <= i
      ensures !Bit(FieldOf(val, base, length), i)
    {
      BitFieldOf(val, base, length, i);
    }
    BelowFromBits(FieldOf(val, base, length), length);
  }

  /** Whatever x is written, the field reads back as x truncated to the field */
  lemma SetBitsReadTruncated(val: U64, base: nat, length: nat, x: U64)
    requires base + length <= Width
    ensures FieldOf(SetBits(val, base, length, x), base, length) == Truncate(x, length)
  {
    var r := SetBits(val, base, length, x);
    forall i: nat
      ensures Bit(FieldOf(r, base, length), i) == Bit(Truncate(x, length), i)
    {
      BitFieldOf(r, base, length, i);
      BitAnd(x, LowMask(length), i);
      BitLowMask(length, i);
      if i < length {
        BitSetBits(val, base, length, x, base + i);
      }
    }
    Extensionality(FieldOf(r, base, length), Truncate(x, length));
  }

  /** Writing x is not the same as writing x truncated to the field: a bit j of x
      at or above the length lands on bit base+j when that is below 64 */
  lemma NoTruncation(val: U64, base: nat, length: nat, x: U64, j: nat)
    requires length <= j && base + j < Width && Bit(x, j) && !Bit(val, base + j)
    ensures Bit(SetBits(val, base, length, x), base + j)
    ensures SetBits(val, base, length, x) != SetBits(val, base, length, Truncate(x, length))
  {
    BitSetBits(val, base, length, x, base + j);
    BitSetBits(val, base, length, Truncate(x, length), base + j);
    BitAnd(x, LowMask(length), j);
    BitLowMask(length, j);
  }

  /** Truncation and excess split x: an in-range x is its own truncation with no
      excess, and a truncated value always fits */
  lemma TruncateExcess(x: U64, length: nat)
    ensures Fits(Truncate(x, length), length)
    ensures Fits(x, length) <==> Excess(x, length) == 0
    ensures Fits(x, length) ==> Truncate(x, length) == x
  {
    var t := Truncate(x, length);
    var e := Excess(x, length);
    forall i: nat | length <= i
      ensures !Bit(t, i)
    {
      BitAnd(x, LowMask(length), i);
      BitLowMask(length, i);
    }
    BelowFromBits(t, length);
    if Fits(x, length) {
      forall i: nat
        ensures Bit(e, i) == Bit(0, i) && Bit(t, i) == Bit(x, i)
      {
        BitZero(i);
        BitAnd(x, LowMask(length), i);
        BitAndNot(x, LowMask(length), i);
        BitLowMask(length, i);
        if length <= i { FitsNoHighBit(x, length, i); }
        if Width <= i { BitBeyondWidth(x, i); }
      }
      Extensionality(e, 0);
      Extensionality(t, x);
    } else if e == 0 {
      forall i: nat | length <= i
        ensures !Bit(x, i)
      {
        BitZero(i);
        BitAndNot(x, LowMask(length), i);
        BitLowMask(length, i);
        if Width <= i { BitBeyondWidth(x, i); }
      }
      BelowFromBits(x, length);
      assert false;
    }
  }
}
