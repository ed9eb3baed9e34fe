/** The P-state registers and their codec.

    Each of the eight P-state MSRs holds, in its 64-bit image, the frequency ID
    (FID, bits 0-7), the divisor ID (DID, bits 8-13), the voltage ID (VID, bits
    14-21) and the enable flag (bit 63).  `setFID`, `setDID` and `setVID` write
    one field with `setBits`; the decoder reads them back with the literal masks
    the program uses.
 */
module PState {
  import opened Bits
  import opened Field

  /** MSR addresses of P-states 0 to 7 */
  const PStateRegisters: seq<U64> :=
    [0xC0010064, 0xC0010065, 0xC0010066, 0xC0010067,
     0xC0010068, 0xC0010069, 0xC001006A, 0xC001006B]

  const FidBase: nat := 0
  const FidLength: nat := 8
  const DidBase: nat := 8
  const DidLength: nat := 6
  const VidBase: nat := 14
  const VidLength: nat := 8
  const EnableBit: nat := 63

  /** The decoder's masks: `1<<63`, `0xff`, `0x3f00` and `0x3fc000` */
  const EnableMask: U64 := 0x8000_0000_0000_0000
  const FidMask: U64 := 0xff
  const DidMask: U64 := 0x3f00
  const VidMask: U64 := 0x3fc000

  function SetFID(val: U64, x: U64): U64 { SetBits(val, FidBase, FidLength, x) }
  function SetDID(val: U64, x: U64): U64 { SetBits(val, DidBase, DidLength, x) }
  function SetVID(val: U64, x: U64): U64 { SetBits(val, VidBase, VidLength, x) }

  /** `val & 0xff` */
  function Fid(val: U64): U64 {
    Closed(val, FidMask);
    And(val, FidMask)
  }

  /** `(val & 0x3f00) >> 8` */
  function Did(val: U64): U64 {
    Closed(val, DidMask);
    Shr(And(val, DidMask), 8)
  }

  /** `(val & 0x3fc000) >> 14` */
  function Vid(val: U64): U64 {
    Closed(val, VidMask);
    Shr(And(val, VidMask), 14)
  }

  /** `val&(1<<63) != 0` */
  predicate IsEnabled(val: U64) {
    And(val, EnableMask) != 0
  }

  /** What the listing shows for a P-state register */
  datatype PStateView = Disabled | Enabled(fid: U64, did: U64, vid: U64)

  /** The integer part of the P-state decoder: the fields are reported only for
      an enabled state; enabled means bit 63 set, whatever the other bits hold */
  function Decode(val: U64): (p: PStateView)
    ensures p.Enabled? <==> Bit(val, EnableBit)
    ensures p.Enabled? ==>
      p.fid == FieldOf(val, FidBase, FidLength) && p.fid < 256 &&
      p.did == FieldOf(val, DidBase, DidLength) && p.did < 64 &&
      p.vid == FieldOf(val, VidBase, VidLength) && p.vid < 256
  {
    EnabledIffBit(val);
    DecodedFields(val);
    if IsEnabled(val) then Enabled(Fid(val), Did(val), Vid(val)) else Disabled
  }

  // ---------------------------------------------------------------------------
  // The literal masks are the field masks

  lemma FidMaskLayout()
    ensures FieldMask(FidBase, FidLength) == FidMask
  {
    Pow2Values();
    forall i: nat
      ensures Bit(FieldMask(FidBase, FidLength), i) == Bit(FidMask, i)
    {
      BitFieldMask(FidBase, FidLength, i);
      BitRange(0, 8, FidMask, i);
    }
    Extensionality(FieldMask(FidBase, FidLength), FidMask);
  }

  lemma DidMaskLayout()
    ensures FieldMask(DidBase, DidLength) == DidMask
  {
    Pow2Values();
    forall i: nat
      ensures Bit(FieldMask(DidBase, DidLength), i) == Bit(DidMask, i)
    {
      BitFieldMask(DidBase, DidLength, i);
      BitRange(8, 14, DidMask, i);
    }
    Extensionality(FieldMask(DidBase, DidLength), DidMask);
  }

  lemma VidMaskLayout()
    ensures FieldMask(VidBase, VidLength) == VidMask
  {
    Pow2Values();
    forall i: nat
      ensures Bit(FieldMask(VidBase, VidLength), i) == Bit(VidMask, i)
    {
      BitFieldMask(VidBase, VidLength, i);
      BitRange(14, 22, VidMask, i);
    }
    Extensionality(FieldMask(VidBase, VidLength), VidMask);
  }

  lemma BitEnableMask(i: nat)
    ensures Bit(EnableMask, i) == (i == EnableBit)
  {
    Pow2Values();
    BitPow2(63, i);
  }

  // ---------------------------------------------------------------------------
  // Decoder

  /** The enabled test looks at bit 63 only */
  lemma EnabledIffBit(val: U64)
    ensures IsEnabled(val) <==> Bit(val, EnableBit)
  {
    var a := And(val, EnableMask);
    BitAnd(val, EnableMask, EnableBit);
    BitEnableMask(EnableBit);
    if Bit(val, EnableBit) {
      BitZero(EnableBit);
    } else {
      forall i: nat
        ensures Bit(a, i) == Bit(0, i)
      {
        BitAnd(val, EnableMask, i);
        BitEnableMask(i);
        BitZero(i);
      }
      Extensionality(a, 0);
    }
  }

  /** The decoder's FID read is the FID field of setBits' layout */
  lemma FidIsField(val: U64)
    ensures Fid(val) == FieldOf(val, FidBase, FidLength)
  {
    FidMaskLayout();
  }

  /** The decoder's DID read is the DID field of setBits' layout */
  lemma DidIsField(val: U64)
    ensures Did(val) == FieldOf(val, DidBase, DidLength)
  {
    DidMaskLayout();
  }

  /** The decoder's VID read is the VID field of setBits' layout */
  lemma VidIsField(val: U64)
    ensures Vid(val) == FieldOf(val, VidBase, VidLength)
  {
    VidMaskLayout();
  }

  /** The decoder's field reads are the field reads of setBits' layout, so each
      is bounded by its field width */
  lemma DecodedFields(val: U64)
    ensures Fid(val) == FieldOf(val, FidBase, FidLength) && Fid(val) < 256
    ensures Did(val) == FieldOf(val, DidBase, DidLength) && Did(val) < 64
    ensures Vid(val) == FieldOf(val, VidBase, VidLength) && Vid(val) < 256
  {
    FidIsField(val);
    DidIsField(val);
    VidIsField(val);
    Pow2Values();
    FieldOfFits(val, FidBase, FidLength);
    FieldOfFits(val, DidBase, DidLength);
    FieldOfFits(val, VidBase, VidLength);
  }

  /** Writing the decoded fields back onto the register reproduces it */
  lemma ReEncode(val: U64)
    ensures SetVID(SetDID(SetFID(val, Fid(val)), Did(val)), Vid(val)) == val
    ensures Decode(val).Enabled? ==>
      var p := Decode(val);
      SetVID(SetDID(SetFID(val, p.fid), p.did), p.vid) == val
  {
    DecodedFields(val);
    SetBitsOwnField(val, FidBase, FidLength);
    SetBitsOwnField(val, DidBase, DidLength);
    SetBitsOwnField(val, VidBase, VidLength);
  }

  // ---------------------------------------------------------------------------
  // Field writers

  /** An in-range FID write is read back, and DID, VID and the enable bit keep
      their values */
  lemma SetFIDEffect(val: U64, x: U64)
    requires x < 256
    ensures Fid(SetFID(val, x)) == x
    ensures Did(SetFID(val, x)) == Did(val) && Vid(SetFID(val, x)) == Vid(val)
    ensures Bit(SetFID(val, x), EnableBit) == Bit(val, EnableBit)
    ensures Decode(SetFID(val, x)) ==
      if Bit(val, EnableBit) then Enabled(x, Did(val), Vid(val)) else Disabled
  {
    var r := SetFID(val, x);
    Pow2Values();
    DecodedFields(val);
    DecodedFields(r);
    SetBitsReadBack(val, FidBase, FidLength, x);
    SetBitsOtherField(val, FidBase, FidLength, x, DidBase, DidLength);
    SetBitsOtherField(val, FidBase, FidLength, x, VidBase, VidLength);
    SetBitsFrame(val, FidBase, FidLength, x);
    assert !InField(FidBase, FidLength, EnableBit);
  }

  /** An in-range DID write is read back, and FID, VID and the enable bit keep
      their values */
  lemma SetDIDEffect(val: U64, x: U64)
    requires x < 64
    ensures Did(SetDID(val, x)) == x
    ensures Fid(SetDID(val, x)) == Fid(val) && Vid(SetDID(val, x)) == Vid(val)
    ensures Bit(SetDID(val, x), EnableBit) == Bit(val, EnableBit)
    ensures Decode(SetDID(val, x)) ==
      if Bit(val, EnableBit) then Enabled(Fid(val), x, Vid(val)) else Disabled
  {
    var r := SetDID(val, x);
    Pow2Values();
    DecodedFields(val);
    DecodedFields(r);
    SetBitsReadBack(val, DidBase, DidLength, x);
    SetBitsOtherField(val, DidBase, DidLength, x, FidBase, FidLength);
    SetBitsOtherField(val, DidBase, DidLength, x, VidBase, VidLength);
    SetBitsFrame(val, DidBase, DidLength, x);
    assert !InField(DidBase, DidLength, EnableBit);
  }

  /** An in-range VID write is read back, and FID, DID and the enable bit keep
      their values */
  lemma SetVIDEffect(val: U64, x: U64)
    requires x < 256
    ensures Vid(SetVID(val, x)) == x
    ensures Fid(SetVID(val, x)) == Fid(val) && Did(SetVID(val, x)) == Did(val)
    ensures Bit(SetVID(val, x), EnableBit) == Bit(val, EnableBit)
    ensures Decode(SetVID(val, x)) ==
      if Bit(val, EnableBit) then Enabled(Fid(val), Did(val), x) else Disabled
  {
    var r := SetVID(val, x);
    Pow2Values();
    DecodedFields(val);
    DecodedFields(r);
    SetBitsReadBack(val, VidBase, VidLength, x);
    SetBitsOtherField(val, VidBase, VidLength, x, FidBase, FidLength);
    SetBitsOtherField(val, VidBase, VidLength, x, DidBase, DidLength);
    SetBitsFrame(val, VidBase, VidLength, x);
    assert !InField(VidBase, VidLength, EnableBit);
  }

  /** An out-of-range FID is not truncated: FID reads back only its low 8 bits,
      and its next 6 bits are ORed into DID */
  lemma SetFIDSpill(val: U64, x: U64)
    ensures Fid(SetFID(val, x)) == Truncate(x, FidLength)
    ensures Did(SetFID(val, x)) == Or(Did(val), FieldOf(x, FidLength, DidLength))
  {
    FidIsField(SetFID(val, x));
    DidIsField(val);
    DidIsField(SetFID(val, x));
    SetBitsReadTruncated(val, FidBase, FidLength, x);
    SetBitsSpill(val, FidBase, FidLength, x, DidLength);
  }

  /** An out-of-range DID is not truncated: DID reads back only its low 6 bits,
      and its next 8 bits are ORed into VID */
  lemma SetDIDSpill(val: U64, x: U64)
    ensures Did(SetDID(val, x)) == Truncate(x, DidLength)
    ensures Vid(SetDID(val, x)) == Or(Vid(val), FieldOf(x, DidLength, VidLength))
  {
    DidIsField(SetDID(val, x));
    VidIsField(val);
    VidIsField(SetDID(val, x));
    SetBitsReadTruncated(val, DidBase, DidLength, x);
    SetBitsSpill(val, DidBase, DidLength, x, VidLength);
  }

  // ---------------------------------------------------------------------------
  // Register table

  /** P-state i lives at MSR 0xC0010064 + i */
  lemma RegisterAddresses()
    ensures |PStateRegisters| == 8
    ensures forall i :: 0 <= i < |PStateRegisters| ==> PStateRegisters[i] == 0xC0010064 + i
  {
  }
}
