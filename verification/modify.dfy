/** The P-state modify step of the command line tool.

    Given the slot chosen with `-pstate` and the parsed requests, the tool reads
    the slot's register on CPU 0, applies enable, then disable, then FID, DID
    and VID (each only when requested, in that order) and writes the result to
    every CPU only when it differs from the value read.
 */
module Modify {
  import opened Wrappers
  import opened Bits
  import opened Field
  import opened PState

  /** The requested changes; a field request is present when its flag was given */
  datatype Request = Request(
    enable: bool, disable: bool,
    fid: Option<U64>, did: Option<U64>, vid: Option<U64>)

  /** No flag given */
  const NoChange: Request := Request(false, false, None, None, None)

  /** Every requested field value fits its field */
  predicate FieldsFit(r: Request) {
    (r.fid.Some? ==> r.fid.value < 256) &&
    (r.did.Some? ==> r.did.value < 64) &&
    (r.vid.Some? ==> r.vid.value < 256)
  }

  /** Enable (`setBits(v, 63, 1, 1)`), then disable (`setBits(v, 63, 1, 0)`) */
  function ApplyFlags(current: U64, r: Request): U64 {
    var enabled := if r.enable then SetBits(current, EnableBit, 1, 1) else current;
    if r.disable then SetBits(enabled, EnableBit, 1, 0) else enabled
  }

  /** A field write that happens only when the field was requested */
  function WriteIf(val: U64, x: Option<U64>, base: nat, length: nat): U64 {
    if x.Some? then SetBits(val, base, length, x.value) else val
  }

  /** The value the tool computes from the value read */
  function NewValue(current: U64, r: Request): U64 {
    var flags := ApplyFlags(current, r);
    var withFid := WriteIf(flags, r.fid, FidBase, FidLength);
    var withDid := WriteIf(withFid, r.did, DidBase, DidLength);
    WriteIf(withDid, r.vid, VidBase, VidLength)
  }

  /** What the modify block does */
  datatype Step =
    | NotRequested                                   // `-pstate` left at -1
    | ReadFailed(error: string)                      // the tool prints and returns
    | Unchanged(current: U64)                        // nothing to write
    | Write(register: U64, current: U64, value: U64) // written to every CPU

  /** The modify block, given the slot and the result of reading its register on
      CPU 0.  A slot of 8 or more makes the table lookup panic, so the caller
      must not pass one; a negative slot skips the block. */
  function PStateStep(slot: int, r: Request, read: Result<U64, string>): (s: Step)
    requires slot < |PStateRegisters|
    ensures s.NotRequested? <==> slot < 0
    ensures s.ReadFailed? <==> 0 <= slot && read.Failure?
    ensures s.Write? <==> 0 <= slot && read.Success? && NewValue(read.value, r) != read.value
    ensures s.Write? ==>
      s.register == 0xC0010064 + slot && s.current == read.value &&
      s.value == NewValue(read.value, r)
    ensures s.Unchanged? ==> read.Success? && NewValue(read.value, r) == read.value
  {
    RegisterAddresses();
    if slot < 0 then NotRequested
    else match read
      case Failure(e) => ReadFailed(e)
      case Success(current) =>
        var value := NewValue(current, r);
        if value != current then Write(PStateRegisters[slot], current, value)
        else Unchanged(current)
  }

  // ---------------------------------------------------------------------------
  // Enable flag

  /** Writing 0 or 1 into the one-bit field at bit 63 sets that bit to it and
      leaves every other bit */
  lemma SetEnableBitBits(val: U64, x: U64, i: nat)
    requires x < 2
    ensures Bit(SetBits(val, EnableBit, 1, x), i) ==
      if i == EnableBit then x == 1 else Bit(val, i)
  {
    SetBitsFrame(val, EnableBit, 1, x);
    if i == EnableBit {
      BitSetBits(val, EnableBit, 1, x, i);
    }
  }

  /** Enable sets bit 63, disable clears it, and either leaves every other bit */
  lemma ApplyFlagsBits(current: U64, r: Request, i: nat)
    ensures Bit(ApplyFlags(current, r), i) ==
      if i != EnableBit then Bit(current, i)
      else if r.disable then false
      else if r.enable then true
      else Bit(current, EnableBit)
  {
    var enabled := if r.enable then SetBits(current, EnableBit, 1, 1) else current;
    SetEnableBitBits(current, 1, i);
    SetEnableBitBits(enabled, 0, i);
  }

  /** The flag step does not touch the fields below bit 63 */
  lemma ApplyFlagsField(current: U64, r: Request, base: nat, length: nat)
    requires base + length <= EnableBit
    ensures FieldOf(ApplyFlags(current, r), base, length) == FieldOf(current, base, length)
  {
    var a := ApplyFlags(current, r);
    forall i: nat
      ensures Bit(FieldOf(a, base, length), i) == Bit(FieldOf(current, base, length), i)
    {
      BitFieldOf(a, base, length, i);
      BitFieldOf(current, base, length, i);
      ApplyFlagsBits(current, r, base + i);
    }
    Extensionality(FieldOf(a, base, length), FieldOf(current, base, length));
  }

  /** An in-range field write changes no bit outside its field */
  lemma WriteIfFrame(val: U64, x: Option<U64>, base: nat, length: nat, i: nat)
    requires x.Some? ==> Fits(x.value, length)
    requires !InField(base, length, i)
    ensures Bit(WriteIf(val, x, base, length), i) == Bit(val, i)
  {
    if x.Some? { SetBitsFrame(val, base, length, x.value); }
  }

  /** With in-range field values, requesting disable leaves the state disabled,
      whether or not enable was also requested; otherwise enable leaves it
      enabled; with neither the enable bit is kept */
  lemma NewValueEnableBit(current: U64, r: Request)
    requires FieldsFit(r)
    ensures Bit(NewValue(current, r), EnableBit) ==
      if r.disable then false else if r.enable then true else Bit(current, EnableBit)
    ensures Decode(NewValue(current, r)).Enabled? <==>
      !r.disable && (r.enable || Decode(current).Enabled?)
  {
    var flags := ApplyFlags(current, r);
    var withFid := WriteIf(flags, r.fid, FidBase, FidLength);
    var withDid := WriteIf(withFid, r.did, DidBase, DidLength);
    Pow2Values();
    ApplyFlagsBits(current, r, EnableBit);
    WriteIfFrame(flags, r.fid, FidBase, FidLength, EnableBit);
    WriteIfFrame(withFid, r.did, DidBase, DidLength, EnableBit);
    WriteIfFrame(withDid, r.vid, VidBase, VidLength, EnableBit);
  }

  /** Because field values are not truncated, disable is undone by an
      out-of-range FID whose bit 63 is set, such as the 2^64 - 1 that hex text
      too large for 64 bits parses to: the state stays enabled, whatever DID
      and VID are requested */
  lemma DisableUndoneBySpill(current: U64, r: Request)
    requires r.disable && r.fid.Some? && Bit(r.fid.value, EnableBit)
    ensures Bit(NewValue(current, r), EnableBit)
    ensures Decode(NewValue(current, r)).Enabled?
  {
    var flags := ApplyFlags(current, r);
    var withFid := WriteIf(flags, r.fid, FidBase, FidLength);
    var withDid := WriteIf(withFid, r.did, DidBase, DidLength);
    BitSetBits(flags, FidBase, FidLength, r.fid.value, EnableBit);
    assert Bit(withFid, EnableBit);
    if r.did.Some? { SetBitsNoMasking(withFid, DidBase, DidLength, r.did.value); }
    assert Bit(withDid, EnableBit);
    if r.vid.Some? { SetBitsNoMasking(withDid, VidBase, VidLength, r.vid.value); }
  }

  // ---------------------------------------------------------------------------
  // Fields

  /** A requested in-range field is read back; an unrequested one keeps its value */
  lemma WriteIfRead(val: U64, x: Option<U64>, base: nat, length: nat)
    requires x.Some? ==> Fits(x.value, length)
    requires base + length <= Width
    ensures FieldOf(WriteIf(val, x, base, length), base, length) ==
            x.GetOr(FieldOf(val, base, length))
  {
    if x.Some? { SetBitsReadBack(val, base, length, x.value); }
  }

  /** A field write, requested or not, leaves a disjoint field reading as before */
  lemma WriteIfOther(val: U64, x: Option<U64>, base: nat, length: nat, base2: nat, length2: nat)
    requires x.Some? ==> Fits(x.value, length)
    requires base + length <= base2 || base2 + length2 <= base
    ensures FieldOf(WriteIf(val, x, base, length), base2, length2) == FieldOf(val, base2, length2)
  {
    if x.Some? { SetBitsOtherField(val, base, length, x.value, base2, length2); }
  }

  /** With in-range values, each requested field reads back as requested and each
      other field keeps the value read */
  lemma NewValueFields(current: U64, r: Request)
    requires FieldsFit(r)
    ensures Fid(NewValue(current, r)) == r.fid.GetOr(Fid(current))
    ensures Did(NewValue(current, r)) == r.did.GetOr(Did(current))
    ensures Vid(NewValue(current, r)) == r.vid.GetOr(Vid(current))
  {
    var flags := ApplyFlags(current, r);
    var withFid := WriteIf(flags, r.fid, FidBase, FidLength);
    var withDid := WriteIf(withFid, r.did, DidBase, DidLength);
    var result := WriteIf(withDid, r.vid, VidBase, VidLength);
    Pow2Values();
    FidIsField(current);
    DidIsField(current);
    VidIsField(current);
    FidIsField(result);
    DidIsField(result);
    VidIsField(result);
    ApplyFlagsField(current, r, FidBase, FidLength);
    ApplyFlagsField(current, r, DidBase, DidLength);
    ApplyFlagsField(current, r, VidBase, VidLength);
    WriteIfRead(flags, r.fid, FidBase, FidLength);
    WriteIfOther(flags, r.fid, FidBase, FidLength, DidBase, DidLength);
    WriteIfOther(flags, r.fid, FidBase, FidLength, VidBase, VidLength);
    WriteIfRead(withFid, r.did, DidBase, DidLength);
    WriteIfOther(withFid, r.did, DidBase, DidLength, FidBase, FidLength);
    WriteIfOther(withFid, r.did, DidBase, DidLength, VidBase, VidLength);
    WriteIfRead(withDid, r.vid, VidBase, VidLength);
    WriteIfOther(withDid, r.vid, VidBase, VidLength, FidBase, FidLength);
    WriteIfOther(withDid, r.vid, VidBase, VidLength, DidBase, DidLength);
  }

  /** With in-range values, the bits between VID and the enable bit, and any
      above it, are those read */
  lemma NewValueOtherBits(current: U64, r: Request)
    requires FieldsFit(r)
    ensures forall i: nat :: VidBase + VidLength <= i && i != EnableBit ==>
      Bit(NewValue(current, r), i) == Bit(current, i)
  {
    var flags := ApplyFlags(current, r);
    var withFid := WriteIf(flags, r.fid, FidBase, FidLength);
    var withDid := WriteIf(withFid, r.did, DidBase, DidLength);
    Pow2Values();
    forall i: nat | VidBase + VidLength <= i && i != EnableBit
      ensures Bit(NewValue(current, r), i) == Bit(current, i)
    {
      ApplyFlagsBits(current, r, i);
      WriteIfFrame(flags, r.fid, FidBase, FidLength, i);
      WriteIfFrame(withFid, r.did, DidBase, DidLength, i);
      WriteIfFrame(withDid, r.vid, VidBase, VidLength, i);
    }
  }

  // ---------------------------------------------------------------------------
  // Writing

  /** With no flag given nothing is written */
  lemma NoRequestNoWrite(slot: int, current: U64)
    requires 0 <= slot < |PStateRegisters|
    ensures NewValue(current, NoChange) == current
    ensures PStateStep(slot, NoChange, Success(current)) == Unchanged(current)
  {
  }

  /** Requesting the state the register is already in writes nothing: enabling
      an enabled state, or rewriting the fields it already holds */
  lemma RequestingCurrentStateNoWrite(slot: int, current: U64)
    requires 0 <= slot < |PStateRegisters|
    requires Bit(current, EnableBit)
    ensures PStateStep(slot, Request(true, false, Some(Fid(current)), Some(Did(current)),
                                     Some(Vid(current))), Success(current)) == Unchanged(current)
  {
    var r := Request(true, false, Some(Fid(current)), Some(Did(current)), Some(Vid(current)));
    var flags := ApplyFlags(current, r);
    forall i: nat
      ensures Bit(flags, i) == Bit(current, i)
    {
      ApplyFlagsBits(current, r, i);
    }
    Extensionality(flags, current);
    DecodedFields(current);
    ReEncode(current);
  }
}
