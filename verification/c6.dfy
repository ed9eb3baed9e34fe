/** The C6 idle state switches.

    Package C6 is governed by bit 32 of MSR 0xC0010292; core C6 by bits 6, 14
    and 22 of MSR 0xC0010296, and counts as enabled only when all three are
    set.  Enabling ORs the bits in, disabling clears them with AND-NOT.
 */
module C6 {
  import opened Wrappers
  import opened Bits

  const PackageRegister: U64 := 0xC0010292
  const CoreRegister: U64 := 0xC0010296
  const PackageBit: nat := 32

  /** `uint64(1 << 32)` */
  function PackageMask(): U64 {
    Shl(1, PackageBit)
  }

  /** `(1 << 22) | (1 << 14) | (1 << 6)` */
  function CoreMask(): U64 {
    Closed(Shl(1, 22), Shl(1, 14));
    var high: U64 := Or(Shl(1, 22), Shl(1, 14));
    Closed(high, Shl(1, 6));
    Or(high, Shl(1, 6))
  }

  /** The bits of the core mask */
  predicate IsCoreBit(i: nat) {
    i == 6 || i == 14 || i == 22
  }

  /** `val&(1<<32) != 0` */
  predicate PackageEnabled(val: U64) {
    And(val, PackageMask()) != 0
  }

  /** `val&coreMask == coreMask` */
  predicate CoreEnabled(val: U64) {
    And(val, CoreMask()) == CoreMask()
  }

  /** `val |= mask` when enabling, `val &^= mask` when disabling */
  function Toggle(val: U64, mask: U64, enable: bool): U64 {
    Closed(val, mask);
    if enable then Or(val, mask) else AndNot(val, mask)
  }

  /** One register write issued by the tool */
  datatype MsrWrite = MsrWrite(register: U64, value: U64)

  /** The writes `enableC6State` issues, given the results of reading the
      package register and then the core register on CPU 0.  A failed package
      read ends it before any write; a failed core read ends it after the
      package write.  The results of the writes themselves are not looked at. */
  function EnableC6State(enable: bool, packageRead: Result<U64, string>,
                         coreRead: Result<U64, string>): (writes: seq<MsrWrite>)
    ensures packageRead.Failure? <==> writes == []
    ensures packageRead.Success? ==>
      writes[0] == MsrWrite(PackageRegister, Toggle(packageRead.value, PackageMask(), enable)) &&
      PackageEnabled(writes[0].value) == enable
    ensures |writes| == 2 <==> packageRead.Success? && coreRead.Success?
    ensures |writes| == 2 ==>
      writes[1] == MsrWrite(CoreRegister, Toggle(coreRead.value, CoreMask(), enable)) &&
      CoreEnabled(writes[1].value) == enable
    ensures |writes| <= 2
  {
    match packageRead
    case Failure(_) => []
    case Success(packageVal) =>
      var packageWrite := MsrWrite(PackageRegister, Toggle(packageVal, PackageMask(), enable));
      PackageToggle(packageVal, enable);
      match coreRead
      case Failure(_) => [packageWrite]
      case Success(coreVal) =>
        CoreToggle(coreVal, enable);
        [packageWrite, MsrWrite(CoreRegister, Toggle(coreVal, CoreMask(), enable))]
  }

  // ---------------------------------------------------------------------------
  // Masks

  lemma BitOne(i: nat)
    ensures Bit(1, i) == (i == 0)
  {
    BitPow2(0, i);
  }

  lemma BitPackageMask(i: nat)
    ensures Bit(PackageMask(), i) == (i == PackageBit)
  {
    BitShl(1, PackageBit, i);
    if PackageBit <= i { BitOne(i - PackageBit); }
  }

  /** A single-bit mask `1 << k` */
  lemma BitShlOne(k: nat, i: nat)
    requires k < Width
    ensures Bit(Shl(1, k), i) == (i == k)
  {
    BitShl(1, k, i);
    if k <= i { BitOne(i - k); }
  }

  lemma BitCoreMask(i: nat)
    ensures Bit(CoreMask(), i) == IsCoreBit(i)
  {
    Closed(Shl(1, 22), Shl(1, 14));
    var high: U64 := Or(Shl(1, 22), Shl(1, 14));
    BitOr(high, Shl(1, 6), i);
    BitOr(Shl(1, 22), Shl(1, 14), i);
    BitShlOne(22, i);
    BitShlOne(14, i);
    BitShlOne(6, i);
  }

  // ---------------------------------------------------------------------------
  // Decoding

  /** Package C6 reads as enabled exactly when bit 32 is set */
  lemma PackageEnabledIff(val: U64)
    ensures PackageEnabled(val) <==> Bit(val, PackageBit)
  {
    var a := And(val, PackageMask());
    BitAnd(val, PackageMask(), PackageBit);
    BitPackageMask(PackageBit);
    if Bit(val, PackageBit) {
      BitZero(PackageBit);
    } else {
      forall i: nat
        ensures Bit(a, i) == Bit(0, i)
      {
        BitAnd(val, PackageMask(), i);
        BitPackageMask(i);
        BitZero(i);
      }
      Extensionality(a, 0);
    }
  }

  /** Core C6 reads as enabled exactly when bits 6, 14 and 22 are all set, so a
      single missing bit reads as disabled */
  lemma CoreEnabledIff(val: U64)
    ensures CoreEnabled(val) <==> Bit(val, 6) && Bit(val, 14) && Bit(val, 22)
  {
    var a := And(val, CoreMask());
    BitAnd(val, CoreMask(), 6);
    BitAnd(val, CoreMask(), 14);
    BitAnd(val, CoreMask(), 22);
    BitCoreMask(6);
    BitCoreMask(14);
    BitCoreMask(22);
    if Bit(val, 6) && Bit(val, 14) && Bit(val, 22) {
      forall i: nat
        ensures Bit(a, i) == Bit(CoreMask(), i)
      {
        BitAnd(val, CoreMask(), i);
        BitCoreMask(i);
      }
      Extensionality(a, CoreMask());
    }
  }

  // ---------------------------------------------------------------------------
  // Toggling

  /** Toggling sets (or clears) exactly the mask's bits */
  lemma BitToggle(val: U64, mask: U64, enable: bool, i: nat)
    ensures Bit(Toggle(val, mask, enable), i) == if Bit(mask, i) then enable else Bit(val, i)
  {
    BitOr(val, mask, i);
    BitAndNot(val, mask, i);
  }

  /** Toggling twice the same way is toggling once */
  lemma ToggleIdempotent(val: U64, mask: U64, enable: bool)
    ensures Toggle(Toggle(val, mask, enable), mask, enable) == Toggle(val, mask, enable)
  {
    var t := Toggle(val, mask, enable);
    forall i: nat
      ensures Bit(Toggle(t, mask, enable), i) == Bit(t, i)
    {
      BitToggle(t, mask, enable, i);
      BitToggle(val, mask, enable, i);
    }
    Extensionality(Toggle(t, mask, enable), t);
  }

  /** The package toggle sets or clears bit 32, keeps every other bit, and the
      result reads back as requested */
  lemma PackageToggle(val: U64, enable: bool)
    ensures Bit(Toggle(val, PackageMask(), enable), PackageBit) == enable
    ensures forall i: nat :: i != PackageBit ==>
      Bit(Toggle(val, PackageMask(), enable), i) == Bit(val, i)
    ensures PackageEnabled(Toggle(val, PackageMask(), enable)) == enable
  {
    var t := Toggle(val, PackageMask(), enable);
    forall i: nat
      ensures Bit(t, i) == if i == PackageBit then enable else Bit(val, i)
    {
      BitToggle(val, PackageMask(), enable, i);
      BitPackageMask(i);
    }
    PackageEnabledIff(t);
  }

  /** The core toggle sets or clears bits 6, 14 and 22, keeps every other bit,
      and the result reads back as requested */
  lemma CoreToggle(val: U64, enable: bool)
    ensures forall i: nat ::
      Bit(Toggle(val, CoreMask(), enable), i) == (if IsCoreBit(i) then enable else Bit(val, i))
    ensures CoreEnabled(Toggle(val, CoreMask(), enable)) == enable
  {
    var t := Toggle(val, CoreMask(), enable);
    forall i: nat
      ensures Bit(t, i) == if IsCoreBit(i) then enable else Bit(val, i)
    {
      BitToggle(val, CoreMask(), enable, i);
      BitCoreMask(i);
    }
    CoreEnabledIff(t);
  }
}
