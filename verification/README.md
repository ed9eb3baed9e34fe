# amd-states-linux: register codec and read-modify-write logic

A Dafny model of the part of `amd-states-linux` that knows what the AMD
P-state and C6 model-specific registers (MSRs) mean, and of how the tool
changes them. The model covers:

- **Bit-field writes.** `setBits`, and `setFID` / `setDID` / `setVID` built on it.
  - FID is bits 0-7 of a P-state register.
  - DID is bits 8-13.
  - VID is bits 14-21.
  - Bit 63 is the enable flag.
- **Decoding a P-state register.** This is the integer part of `pstateToStr`.
- **The P-state modify step.** The tool reads the register chosen with `-pstate`.
  - It applies enable, then disable, then FID, DID and VID, each only when requested.
  - It writes the result only when it changed.
- **C6.**
  - The package and core decoders.
  - `enableC6State`, which ORs the enable bits in or clears them with AND-NOT and issues the writes.
- **`writeMSR`'s best-effort fan-out to every CPU's device file.**
- **The 8-byte little-endian register image** that is read from and written to a device file.

Go's `uint64` is modelled as a natural number below 2^64 (`Bits.U64`).

- `&`, `|` and `&^` are defined bit by bit.
- `x << n` is n doublings modulo 2^64, so shifting by 64 or more gives 0, as in Go.
- `x >> n` is n halvings.
- `-` wraps around.

Every operator is characterised by what it does to each bit. `Bits.Extensionality` turns bit-wise facts back into equalities of values.

Modules:

| module | file | contents |
|---|---|---|
| `Bits` | bits.dfy | uint64 operators and their bit-level laws |
| `Wrappers` | wrappers.dfy | `Option` (a requested or absent value) and `Result` (a value or an error) |
| `Field` | field.dfy | `setBits`, its mask, and field reads |
| `PState` | pstate.dfy | the P-state register table, layout, decoder and field writers |
| `Modify` | modify.dfy | the `-pstate` modify step |
| `C6` | c6.dfy | the C6 decoders and `enableC6State` |
| `Transport` | transport.dfy | `writeMSR`'s fan-out and the little-endian register image |

**`setBits` does not truncate.** It ORs `new << base` in unmasked
(main.go:176), so an out-of-range value spills into the bits above the field
instead of being cut to the field's width. Hence:

- The in-range properties carry the precondition `x < 2^length` (`Bits.Fits`).
- `Field.SetBitsNoMasking`, `Field.SetBitsSpill` and `Field.NoTruncation` state what actually happens to an out-of-range value.
- One consequence is `Modify.DisableUndoneBySpill`: `-disable` together with an FID whose bit 63 is set leaves the P-state enabled. Such an FID is what hex text too large for 64 bits parses to (2^64 - 1).

## Model

| member | source | states |
|---|---|---|
| Bits.BitAnd | main.go:162-164 | bit i of `a & b` is set exactly when it is set in both a and b |
| Bits.BitOr | main.go:176 | bit i of `a OR b` is set exactly when it is set in a or in b |
| Bits.BitAndNot | main.go:176 | bit i of `a &^ b` is set exactly when it is set in a and not in b |
| Bits.Closed | main.go:176 | `&`, OR and `&^` of two uint64 values are again uint64 values |
| Bits.BitShl | main.go:175-176 | bit i of `x << n` is bit i-n of x when n <= i < 64, and clear otherwise: low bits become zero and bits pushed past bit 63 are lost |
| Bits.BitShr | main.go:163-164 | bit i of `x >> n` is bit n+i of x |
| Bits.ShlOne | main.go:175 | `uint64(1) << l` is 2^l for l < 64 and 0 from 64 on |
| Bits.BitLowMask | main.go:175 | `uint64(1)<<length - 1` has exactly the bits below `length` set, and all 64 bits when length >= 64, because 0 - 1 wraps around |
| Field.BitFieldMask | main.go:175 | the mask has exactly bits base .. base+length-1 set, limited to bits below 64 |
| Field.BitSetBits | main.go:173-177 | inside the field, `setBits` leaves the bits of x; outside it, the old bit ORed with whatever bit of `x << base` lands there |
| Field.BitFieldOf | main.go:162-164 | `(val & mask) >> base` has bit i equal to bit base+i of val for i < length, and clear above |
| Field.FieldOfFits | main.go:162-164 | a field read is below 2^length |
| Field.SetBitsFrame | main.go:173-177 | for x < 2^length, every bit outside the field is unchanged; equivalently `result &^ mask == val &^ mask` |
| Field.SetBitsReadBack | main.go:173-177 | for x < 2^length and a field inside the 64 bits, the field reads back as x |
| Field.SetBitsReadTruncated | main.go:173-177 | for any x, the field reads back as x truncated to the field |
| Field.SetBitsIdempotent | main.go:175-176 | writing the same x twice equals writing it once, in range or not |
| Field.SetBitsOwnField | main.go:173-177 | writing a field's own current value back leaves the register unchanged |
| Field.SetBitsOverwrite | main.go:173-177 | after an in-range write, a second write to the same field gives what the second write alone gives |
| Field.SetBitsOtherField | main.go:173-177 | an in-range write leaves every disjoint field reading as before |
| Field.SetBitsSpill | main.go:176 | an out-of-range value ORs its bits beyond the field into the field directly above |
| Field.SetBitsNoMasking | main.go:176 | the result is the truncated write ORed with the excess bits of x shifted into place; outside the field a bit can be set by the write but never cleared |
| Field.NoTruncation | main.go:176 | when x has a bit at or above the field length that lands below bit 64 on a clear bit, writing x sets that bit and differs from writing x truncated |
| PState.Decode | main.go:160-164 | a register decodes as enabled exactly when bit 63 is set, whatever the other bits hold; an enabled register reports its FID (< 256), DID (< 64) and VID (< 256) fields |
| PState.EnabledIffBit | main.go:161 | `val&(1<<63) != 0` holds exactly when bit 63 is set |
| PState.FidMaskLayout | main.go:179-181 | the mask `setFID` clears is `0xff`, the mask the decoder reads FID with |
| PState.DidMaskLayout | main.go:183-185 | the mask `setDID` clears is `0x3f00`, the mask the decoder reads DID with |
| PState.VidMaskLayout | main.go:187-189 | the mask `setVID` clears is `0x3fc000`, the mask the decoder reads VID with |
| PState.DecodedFields | main.go:162-164 | the decoder's FID, DID and VID are the fields `setFID`, `setDID` and `setVID` write, so they are below 256, 64 and 256 |
| PState.ReEncode | main.go:179-189 | writing the decoded FID, DID and VID back onto the register with the three setters reproduces it exactly |
| PState.SetFIDEffect | main.go:179-181 | after `setFID` with x < 256 the FID reads x; DID, VID and bit 63 are unchanged, so the decoded state changes only in FID |
| PState.SetDIDEffect | main.go:183-185 | after `setDID` with x < 64 the DID reads x; FID, VID and bit 63 are unchanged |
| PState.SetVIDEffect | main.go:187-189 | after `setVID` with x < 256 the VID reads x; FID, DID and bit 63 are unchanged |
| PState.SetFIDSpill | main.go:179-181 | for any x, the FID reads x's low 8 bits and x's next 6 bits are ORed into DID |
| PState.SetDIDSpill | main.go:183-185 | for any x, the DID reads x's low 6 bits and x's next 8 bits are ORed into VID |
| PState.RegisterAddresses | main.go:12 | there are eight P-state registers and slot i is MSR 0xC0010064 + i |
| Modify.SetEnableBitBits | main.go:69-73 | `setBits(v, 63, 1, x)` with x = 0 or 1 sets bit 63 to x and leaves every other bit |
| Modify.ApplyFlagsBits | main.go:68-75 | after the enable and disable requests, bit 63 is cleared if disable was requested, else set if enable was requested, else unchanged; no other bit changes |
| Modify.NewValueEnableBit | main.go:67-90 | with in-range field values, a state with both enable and disable requested ends disabled; enable alone ends enabled; with neither the flag is kept |
| Modify.DisableUndoneBySpill | main.go:72-80 | `-disable` with an FID whose bit 63 is set (2^64 - 1, say) leaves bit 63 set whatever DID and VID are requested, so the state still decodes as enabled |
| Modify.NewValueFields | main.go:76-90 | with in-range values, each requested field reads back as requested and each other field keeps the value read |
| Modify.NewValueOtherBits | main.go:67-90 | with in-range values, bits 22-62 and the bits above 63 are those read |
| Modify.PStateStep | main.go:59-98 | a negative slot skips the block; a failed read is reported; otherwise a write happens exactly when the new value differs from the value read, to MSR 0xC0010064 + slot, with the new value |
| Modify.NoRequestNoWrite | main.go:91-98 | with no flag given the new value is the value read and nothing is written |
| Modify.RequestingCurrentStateNoWrite | main.go:67-92 | enabling an enabled state while requesting the FID, DID and VID it already holds writes nothing |
| C6.BitPackageMask | main.go:194 | `1 << 32` has bit 32 and no other bit set |
| C6.BitCoreMask | main.go:195 | `(1<<22) OR (1<<14) OR (1<<6)` has bits 6, 14 and 22 and no other bit set |
| C6.PackageEnabledIff | main.go:41 | package C6 reads as enabled exactly when bit 32 is set |
| C6.CoreEnabledIff | main.go:51 | core C6 reads as enabled exactly when bits 6, 14 and 22 are all set, so one missing bit reads as disabled |
| C6.BitToggle | main.go:203-207 | OR-ing a mask in sets exactly its bits and AND-NOT clears exactly its bits; every other bit is kept |
| C6.ToggleIdempotent | main.go:216-220 | toggling twice in the same direction equals toggling once |
| C6.PackageToggle | main.go:203-207 | enabling sets bit 32 and disabling clears it; every other bit is kept; the result reads back as requested |
| C6.CoreToggle | main.go:216-220 | enabling sets bits 6, 14 and 22 and disabling clears them; every other bit is kept; the result reads back as requested |
| C6.EnableC6State | main.go:191-221 | a failed package read issues no write; otherwise the package register is written with the toggled value, which reads back as requested; a failed core read stops there; otherwise the core register is written with its toggled value, which also reads back as requested |
| Transport.Failures | main.go:117-122 | exactly the paths whose write failed, each with its error, are warned about, and there are no more warnings than paths |
| Transport.WriteMsr | main.go:110-127 | with cpu -1, an enumeration error is returned and nothing is written; otherwise every enumerated path is attempted in order, the failures are only warned about, and the result is success; with any other cpu, only that CPU's device is written and its result returned |
| Transport.DecodeBound | main.go:157 | n little-endian bytes decode to a number below 256^n |
| Transport.DecodeEncode | main.go:138 | decoding the n-byte little-endian image of a number below 256^n gives the number |
| Transport.EncodeDecode | main.go:157 | encoding the number that bytes decode to gives the same bytes |
| Transport.RegisterImageRoundTrip | main.go:137-157 | the 8-byte image a register value is written as reads back as that value, and any 8 bytes read re-encode to the same bytes |

## Left out

- Opening, reading and writing `/dev/cpu/*/msr`, and `filepath.Glob`, are file-system I/O.
  - The model takes the result of the enumeration, each file's write outcome and each read result as parameters.
  - The device path formatting (`fmt.Sprintf("/dev/cpu/%d/msr", cpu)`) is the parameter `devicePath`.
- Reads always go to CPU 0. The model takes the value read, or the read error, as a parameter.
- Flag parsing and hex parsing are left out (main.go:15-25, main.go:77, main.go:82, main.go:87).
  - A parse error is ignored there: text that is not hex gives 0, and a number too large for 64 bits gives 2^64 - 1. Both are then written unmasked.
  - Passing the text `-1` explicitly counts as not requesting the field.
  - The model takes the parsed values as optional requests.
- The ratio and vCore figures of the listing are floating point (main.go:165-166). The model keeps only the integer fields. In Go a DID of 0 makes the ratio +Inf, or NaN when the FID is 0 as well, not a crash.
- All printing is left out. This includes the `-list` loop (main.go:27-57), apart from the decoders it calls.
- The sequencing of `main` is not modelled as one function.
  - This covers the P-state block, then `-c6-enable`, then `-c6-disable`.
  - It also covers `main` returning after a failed P-state read or write, which skips the C6 requests.
  - The modify step reports the failed read as `ReadFailed`. `WriteMsr` returns the write error.
- The results of the two writes in `enableC6State` are ignored by the program (main.go:208, main.go:221). `C6.EnableC6State` lists the writes issued, not their outcomes.
- A slot of 8 or more makes `pstates[*pstate]` panic. `Modify.PStateStep` requires `slot < 8` instead of modelling the panic.
