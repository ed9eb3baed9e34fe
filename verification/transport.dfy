/** Register access through the per-CPU MSR device files.

    A register value travels as an 8-byte little-endian image at the file
    offset equal to the MSR address.  Writing to "all CPUs" enumerates the
    device files and writes each one, warning about, but otherwise ignoring,
    the ones that fail.  The file system itself is not modelled: the
    enumeration result and each file's write outcome are parameters.
 */
module Transport {
  import opened Wrappers
  import opened Bits

  type Byte = x: nat | x < 256

  /** A device file path */
  type Path = string

  /** A per-CPU write that failed, as reported in the warning */
  datatype Warning = Warning(path: Path, error: string)

  /** The warnings for the failed writes among `paths`, in order */
  function Failures(paths: seq<Path>, write: Path -> Option<string>): (ws: seq<Warning>)
    ensures |ws| <= |paths|
    ensures forall w :: w in ws <==> w.path in paths && write(w.path) == Some(w.error)
  {
    if paths == [] then []
    else
      var rest := Failures(paths[..|paths| - 1], write);
      var last := paths[|paths| - 1];
      assert paths == paths[..|paths| - 1] + [last];
      match write(last)
      case Some(e) => rest + [Warning(last, e)]
      case None => rest
  }

  /** Go's `writeMSR(msr, val, cpu)`.  With cpu == -1 the device files found by
      `glob` are written one by one, in order; a failure only produces a
      warning and the result is success, unless the enumeration itself failed.
      With any other cpu the single device file `devicePath(cpu)` is written and
      its outcome returned.  `write(p)` is the outcome of writing the register
      image to file p (None for success). */
  method WriteMsr(cpu: int, glob: Result<seq<Path>, string>,
                  write: Path -> Option<string>, devicePath: int -> Path)
    returns (err: Option<string>, attempted: seq<Path>, warnings: seq<Warning>)
    ensures cpu == -1 && glob.Failure? ==> err == Some(glob.error) && attempted == []
    ensures cpu == -1 && glob.Success? ==> err == None && attempted == glob.value
    ensures cpu == -1 ==> warnings == Failures(attempted, write)
    ensures cpu != -1 ==>
      attempted == [devicePath(cpu)] && err == write(devicePath(cpu)) && warnings == []
  {
    if cpu != -1 {
      return write(devicePath(cpu)), [devicePath(cpu)], [];
    }
    match glob {
      case Failure(e) =>
        return Some(e), [], [];
      case Success(paths) =>
        attempted := [];
        warnings := [];
        var i := 0;
        while i < |paths|
          invariant 0 <= i <= |paths|
          invariant attempted == paths[..i]
          invariant warnings == Failures(attempted, write)
        {
          var path := paths[i];
          attempted := attempted + [path];
          var outcome := write(path);
          if outcome.Some? {
            warnings := warnings + [Warning(path, outcome.value)];
          }
          assert attempted[..|attempted| - 1] == paths[..i];
          i := i + 1;
        }
        assert paths[..|paths|] == paths;
        err := None;
    }
  }

  // ---------------------------------------------------------------------------
  // Little-endian register image

  function Pow256(n: nat): (r: nat)
    ensures r > 0
  {
    if n == 0 then 1 else 256 * Pow256(n - 1)
  }

  /** The low n bytes of v, least significant first */
  function EncodeLE(v: nat, n: nat): (b: seq<Byte>)
    ensures |b| == n
  {
    if n == 0 then [] else [v % 256] + EncodeLE(v / 256, n - 1)
  }

  /** The number whose little-endian bytes are b */
  function DecodeLE(b: seq<Byte>): nat {
    if b == [] then 0 else b[0] + 256 * DecodeLE(b[1..])
  }

  /** `binary.LittleEndian.PutUint64` */
  function PutUint64(v: U64): seq<Byte> {
    EncodeLE(v, 8)
  }

  /** `binary.LittleEndian.Uint64` on the 8-byte buffer */
  function Uint64(b: seq<Byte>): U64
    requires |b| == 8
  {
    DecodeBound(b);
    ImageWidth();
    DecodeLE(b)
  }

  /** Eight bytes cover the 64-bit range exactly */
  lemma ImageWidth()
    ensures Pow256(8) == Modulus
  {
  }

  /** n bytes decode to a number below 256^n */
  lemma {:induction false} DecodeBound(b: seq<Byte>)
    ensures DecodeLE(b) < Pow256(|b|)
  {
    if b != [] {
      DecodeBound(b[1..]);
      assert DecodeLE(b) <= 255 + 256 * (Pow256(|b| - 1) - 1);
    }
  }

  /** Decoding the n-byte image of a number below 256^n gives the number back */
  lemma {:induction false} DecodeEncode(v: nat, n: nat)
    requires v < Pow256(n)
    ensures DecodeLE(EncodeLE(v, n)) == v
  {
    if n > 0 {
      assert v / 256 < Pow256(n - 1);
      DecodeEncode(v / 256, n - 1);
      assert EncodeLE(v, n)[1..] == EncodeLE(v / 256, n - 1);
    }
  }

  /** Encoding the number a byte sequence decodes to gives the bytes back */
  lemma {:induction false} EncodeDecode(b: seq<Byte>)
    ensures EncodeLE(DecodeLE(b), |b|) == b
  {
    if b != [] {
      var d := DecodeLE(b[1..]);
      assert (b[0] + 256 * d) % 256 == b[0];
      assert (b[0] + 256 * d) / 256 == d;
      EncodeDecode(b[1..]);
      assert b == [b[0]] + b[1..];
    }
  }

  /** What `writeMSRToFile` writes, `readMSR` reads back, and the other way round */
  lemma RegisterImageRoundTrip(v: U64, b: seq<Byte>)
    requires |b| == 8
    ensures |PutUint64(v)| == 8 && Uint64(PutUint64(v)) == v
    ensures PutUint64(Uint64(b)) == b
  {
    ImageWidth();
    DecodeEncode(v, 8);
    EncodeDecode(b);
  }
}
