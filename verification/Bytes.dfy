/** Bytes, little-endian fields, and the result type shared by every module. */
module Bytes {
  type byte = b: int | 0 <= b < 256

  const TWO32: nat := 0x1_0000_0000
  const TWO63: nat := 0x8000_0000_0000_0000
  const TWO64: nat := 0x1_0000_0000_0000_0000
  const MIB: nat := 0x10_0000

  type u32 = n: int | 0 <= n < TWO32
  type u64 = n: int | 0 <= n < TWO64

  datatype Option<+T> = None | Some(value: T)

  /** The errors of the reader; `Panic` stands for a Rust slice or overflow panic. */
  datatype Error =
    | BadMagic
    | ContainerTooSmall
    | NoValidHeader
    | InvalidRegionTable
    | BatRegionMissing
    | MetadataRegionMissing
    | MetadataMissing(item: string)
    | InvalidMetadata(reason: string)
    | OffsetOutOfBounds
    | AddressOverflow
    | SectorOutOfRange
    | BlockNotPresent(block: nat)
    | InvalidPayloadBlockState(badBlock: nat, state: nat)
    | SectorBitmapNotPresent(partialBlock: nat)
    | DifferencingNotSupported
    | UnexpectedEof
    | SeekBeforeStart
    | Panic

  datatype Result<+T> = Ok(value: T) | Err(error: Error) {
    predicate IsFailure() { Err? }

    function PropagateFailure<U>(): Result<U>
      requires Err?
    {
      Err(error)
    }

    function Extract(): T
      requires Ok?
    {
      value
    }
  }

  function Min(a: int, b: int): int { if a <= b then a else b }

  function Max(a: int, b: int): int { if a <= b then b else a }

  function Zeros(n: nat): (s: seq<byte>)
    ensures |s| == n && forall i :: 0 <= i < n ==> s[i] == 0
  {
    seq(n, i => 0)
  }

  function Fill(n: nat, v: byte): (s: seq<byte>)
    ensures |s| == n && forall i :: 0 <= i < n ==> s[i] == v
  {
    seq(n, i => v)
  }

  /** `bytes` stored over `d` at `o`. */
  function Splice(d: seq<byte>, o: nat, bytes: seq<byte>): (r: seq<byte>)
    requires o + |bytes| <= |d|
    ensures |r| == |d|
    ensures r[o..o + |bytes|] == bytes
    ensures forall p :: 0 <= p < |d| && !(o <= p < o + |bytes|) ==> r[p] == d[p]
  {
    d[..o] + bytes + d[o + |bytes|..]
  }

  /** Whether `sig` stands at `o`; false when it would run past the end. */
  predicate SignatureAt(d: seq<byte>, o: nat, sig: seq<byte>) {
    o + |sig| <= |d| && d[o..o + |sig|] == sig
  }

  // Out-of-range fields read as zero, as the source's readers do.

  function LeU16(d: seq<byte>, o: nat): (r: nat)
    ensures r < 0x1_0000
  {
    if o + 2 <= |d| then (d[o] as int) + 0x100 * (d[o + 1] as int) else 0
  }

  function LeU32(d: seq<byte>, o: nat): (r: u32) {
    if o + 4 <= |d|
    then (d[o] as int) + 0x100 * (d[o + 1] as int)
         + 0x1_0000 * (d[o + 2] as int) + 0x100_0000 * (d[o + 3] as int)
    else 0
  }

  function LeU64(d: seq<byte>, o: nat): (r: u64) {
    if o + 8 <= |d| then LeU32(d, o) + TWO32 * LeU32(d, o + 4) else 0
  }

  function Guid(d: seq<byte>, o: nat): (r: seq<byte>)
    ensures |r| == 16
  {
    if o + 16 <= |d| then d[o..o + 16] else Zeros(16)
  }

  function ToLe32(v: u32): (r: seq<byte>)
    ensures |r| == 4 && LeU32(r, 0) == v
  {
    [v % 0x100, v / 0x100 % 0x100, v / 0x100 / 0x100 % 0x100, v / 0x100 / 0x100 / 0x100]
  }

  function ToLe64(v: u64): (r: seq<byte>)
    ensures |r| == 8 && LeU64(r, 0) == v
  {
    var r := ToLe32(v % TWO32) + ToLe32(v / TWO32);
    assert r[..4] == ToLe32(v % TWO32) && r[4..] == ToLe32(v / TWO32);
    LeU32Slice(r, 0, 4, 0);
    LeU32Slice(r, 4, 8, 0);
    r
  }

  /** Fields are little-endian, and identifiers are sixteen bytes as they stand. */
  lemma LittleEndian(d: seq<byte>, o: nat)
    requires o + 16 <= |d|
    ensures LeU16(d, o) == (d[o] as int) + 0x100 * (d[o + 1] as int)
    ensures LeU32(d, o) == LeU16(d, o) + 0x1_0000 * LeU16(d, o + 2)
    ensures LeU64(d, o) == LeU32(d, o) + 0x1_0000_0000 * LeU32(d, o + 4)
    ensures ToLe64(LeU64(d, o)) == d[o..o + 8] && Guid(d, o) == d[o..o + 16]
  {
    LongStored(d, o);
    hide ToLe64;
  }

  lemma LongStored(d: seq<byte>, o: nat)
    requires o + 8 <= |d|
    ensures ToLe64(LeU64(d, o)) == d[o..o + 8]
  {
    FieldStored(d, o);
    FieldStored(d, o + 4);
    var lo, hi := LeU32(d, o), LeU32(d, o + 4);
    assert LeU64(d, o) == lo + TWO32 * hi;
    assert ToLe64(LeU64(d, o)) == ToLe32(LeU64(d, o) % TWO32) + ToLe32(LeU64(d, o) / TWO32);
    hide LeU32, LeU64, ToLe32, ToLe64;
    assert (lo + TWO32 * hi) % TWO32 == lo && (lo + TWO32 * hi) / TWO32 == hi;
    assert d[o..o + 8] == d[o..o + 4] + d[o + 4..o + 8];
  }

  lemma FieldStored(d: seq<byte>, o: nat)
    requires o + 4 <= |d|
    ensures ToLe32(LeU32(d, o)) == d[o..o + 4]
  {
    var x, y := ToLe32(LeU32(d, o)), d[o..o + 4];
    LeU32Slice(d, o, o + 4, 0);
    LeU32Injective(x, y, 0);
    assert x[0..4] == x && y[0..4] == y;
  }

  /** A field read from a slice is the field read in place. */
  lemma LeU32Slice(d: seq<byte>, a: nat, b: nat, o: nat)
    requires a <= b <= |d| && o + 4 <= b - a
    ensures LeU32(d[a..b], o) == LeU32(d, a + o)
  {}

  lemma LeU64Slice(d: seq<byte>, a: nat, b: nat, o: nat)
    requires a <= b <= |d| && o + 8 <= b - a
    ensures LeU64(d[a..b], o) == LeU64(d, a + o)
  {
    LeU32Slice(d, a, b, o);
    LeU32Slice(d, a, b, o + 4);
  }

  lemma SliceSlice(d: seq<byte>, a: nat, b: nat, i: nat, j: nat)
    requires a <= b <= |d| && i <= j <= b - a
    ensures d[a..b][i..j] == d[a + i..a + j]
  {
    assert |d[a..b][i..j]| == |d[a + i..a + j]|;
    forall k | 0 <= k < j - i
      ensures d[a..b][i..j][k] == d[a + i..a + j][k]
    {
      assert d[a..b][i..j][k] == d[a..b][i + k] == d[a + (i + k)];
    }
  }

  lemma GuidSlice(d: seq<byte>, a: nat, b: nat, o: nat)
    requires a <= b <= |d| && o + 16 <= b - a
    ensures Guid(d[a..b], o) == Guid(d, a + o)
  {
    SliceSlice(d, a, b, o, o + 16);
  }

  /** Four bytes are determined by the little-endian value they spell. */
  lemma LeU32Injective(x: seq<byte>, y: seq<byte>, o: nat)
    requires o + 4 <= |x| && o + 4 <= |y| && LeU32(x, o) == LeU32(y, o)
    ensures x[o..o + 4] == y[o..o + 4]
  {
    var x1, y1 := (x[o + 2] as int) + 0x100 * (x[o + 3] as int), (y[o + 2] as int) + 0x100 * (y[o + 3] as int);
    LowDigit(x[o], (x[o + 1] as int) + 0x100 * x1, y[o], (y[o + 1] as int) + 0x100 * y1);
    LowDigit(x[o + 1], x1, y[o + 1], y1);
    LowDigit(x[o + 2], x[o + 3], y[o + 2], y[o + 3]);
  }

  lemma LowDigit(a: byte, b: nat, c: byte, d: nat)
    requires (a as int) + 0x100 * b == (c as int) + 0x100 * d
    ensures a == c && b == d
  {}

  /** Store `bytes` into an array and leave the rest of it alone. */
  method CopyInto(buf: array<byte>, at: nat, bytes: seq<byte>)
    requires at + |bytes| <= buf.Length
    modifies buf
    ensures forall p :: at <= p < at + |bytes| ==> buf[p] == bytes[p - at]
    ensures forall p :: 0 <= p < buf.Length && !(at <= p < at + |bytes|) ==> buf[p] == old(buf[p])
  {
    for i := 0 to |bytes|
      invariant forall p :: at <= p < at + i ==> buf[p] == bytes[p - at]
      invariant forall p :: 0 <= p < buf.Length && !(at <= p < at + i) ==> buf[p] == old(buf[p])
    {
      buf[at + i] := bytes[i];
    }
  }
}
