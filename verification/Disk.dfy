/** The abstract disk: what one virtual byte is, and why whole runs of bytes can be read at once. */
module Disk {
  import opened Bytes
  import opened Arith
  import opened Metadata
  import opened Bat

  /** A committed container, its block table and parameters, and the disk it defers to. */
  datatype Disk = Disk(view: seq<byte>, entries: seq<u64>, meta: Meta, parent: Option<Disk>)

  predicate WellFormed(d: Disk) {
    && |d.view| < TWO63
    && Valid(d.meta)
    && Usable(d.meta)
    && (d.parent.Some? ==> WellFormed(d.parent.value))
  }

  /** Where the byte at `v` lives. */
  function TargetOf(d: Disk, v: nat): Result<Target>
    requires WellFormed(d)
  {
    ReadTarget(d.entries, d.meta, v)
  }

  /** Bit `k` of a byte, the least significant first. */
  predicate BitSet(b: nat, k: nat) {
    if k == 0 then b % 2 == 1 else BitSet(b / 2, k - 1)
  }

  function FileByte(d: Disk, offset: nat): Result<byte> {
    if offset < |d.view| then Ok(d.view[offset]) else Err(UnexpectedEof)
  }

  /** What a disk without data of its own shows at `v`: its parent's byte, or zero. */
  function ParentByte(parent: Option<Disk>, v: nat): Result<byte>
    requires parent.Some? ==> WellFormed(parent.value)
    decreases parent, 0
  {
    match parent
    case None => Ok(0)
    case Some(p) => ByteAt(p, v)
  }

  /** The byte a read of the single byte `v` gives. */
  function ByteAt(d: Disk, v: nat): Result<byte>
    requires WellFormed(d)
    decreases d, 1
  {
    match TargetOf(d, v)
    case Err(e) => Err(e)
    case Ok(File(offset)) => FileByte(d, offset)
    case Ok(Zero) => Ok(0)
    case Ok(Parent) => ParentByte(d.parent, v)
    case Ok(Partial(offset, bitmap, bit)) =>
      if bitmap >= |d.view| then Err(UnexpectedEof)
      else if BitSet(d.view[bitmap], bit) then FileByte(d, offset)
      else ParentByte(d.parent, v)
  }

  /** Every byte of `[v, v + n)` resolves. */
  ghost predicate Resolves(d: Disk, v: nat, n: nat)
    requires WellFormed(d)
  {
    forall w :: v <= w < v + n ==> ByteAt(d, w).Ok?
  }

  /** The bytes of `[v, v + n)`. */
  ghost function Span(d: Disk, v: nat, n: nat): (s: seq<byte>)
    requires WellFormed(d) && Resolves(d, v, n)
    ensures |s| == n
  {
    seq(n, i requires 0 <= i < n => ByteAt(d, v + i).value)
  }

  /** How many of `want` bytes at `pos` the disk has. */
  function Wanted(d: Disk, pos: nat, want: nat): nat {
    Min(want, Max(0, d.meta.diskSize - pos))
  }

  // ── Runs inside one block ─────────────────────────────────────────────────

  predicate SameBlock(m: Meta, v: nat, w: nat)
    requires m.blockSize > 0
  {
    Div(v, m.blockSize) == Div(w, m.blockSize)
  }

  /** Bytes of one block differ only in the offset into it. */
  lemma BlockOffset(m: Meta, v: nat, w: nat)
    requires m.blockSize > 0 && v <= w && SameBlock(m, v, w)
    ensures Mod(w, m.blockSize) == Mod(v, m.blockSize) + (w - v)
  {
    DivMod(v, m.blockSize);
    DivMod(w, m.blockSize);
  }

  /** The last byte of a block and the bytes before it. */
  lemma InBlock(m: Meta, v: nat, w: nat)
    requires m.blockSize > 0 && v <= w < (Div(v, m.blockSize) + 1) * m.blockSize
    ensures SameBlock(m, v, w)
  {
    var q, r := Div(v, m.blockSize), Mod(v, m.blockSize);
    DivMod(v, m.blockSize);
    assert (q + 1) * m.blockSize == m.blockSize * q + m.blockSize;
    DivUnique(w, m.blockSize, q, r + (w - v));
  }

  /** Deferring, zero and failing states hold for a whole block; a file address moves along. */
  lemma BlockTarget(d: Disk, v: nat, w: nat)
    requires WellFormed(d) && v <= w < d.meta.diskSize && SameBlock(d.meta, v, w)
    ensures TargetOf(d, v) == Ok(Parent) ==> TargetOf(d, w) == Ok(Parent)
    ensures TargetOf(d, v) == Ok(Zero) ==> TargetOf(d, w) == Ok(Zero)
    ensures TargetOf(d, v).Ok? && TargetOf(d, v).value.File? ==>
              var at := TargetOf(d, v).value.offset + (w - v);
              TargetOf(d, w) == if at < TWO64 then Ok(File(at)) else Err(AddressOverflow)
  {
    hide Validate, Div, Mod, Meta.ChunkRatio, PartialTarget;
    BlockOffset(d.meta, v, w);
  }

  /** A file-backed run resolves exactly when its last byte is inside the container. */
  lemma FileRun(d: Disk, v: nat, n: nat)
    requires WellFormed(d) && n > 0 && v + n <= d.meta.diskSize
    requires SameBlock(d.meta, v, v + n - 1)
    requires TargetOf(d, v).Ok? && TargetOf(d, v).value.File?
    ensures var at := TargetOf(d, v).value.offset;
            && (Resolves(d, v, n) <==> at + n <= |d.view|)
            && (at + n <= |d.view| ==> Span(d, v, n) == d.view[at..at + n])
  {
    hide Validate, TargetOf;
    var at := TargetOf(d, v).value.offset;
    forall w | v <= w < v + n
      ensures ByteAt(d, w).Ok? <==> at + (w - v) < |d.view|
      ensures at + (w - v) < |d.view| ==> ByteAt(d, w) == Ok(d.view[at + (w - v)])
    {
      InsideBlock(d.meta, v, w, v + n - 1);
      BlockTarget(d, v, w);
    }
    if Resolves(d, v, n) {
      assert ByteAt(d, v + n - 1).Ok?;
    }
    if at + n <= |d.view| {
      assert Resolves(d, v, n);
      forall i | 0 <= i < n
        ensures Span(d, v, n)[i] == d.view[at..at + n][i]
      {
        assert ByteAt(d, v + i) == Ok(d.view[at + i]);
      }
    }
  }

  lemma InsideBlock(m: Meta, v: nat, w: nat, last: nat)
    requires m.blockSize > 0 && v <= w <= last && SameBlock(m, v, last)
    ensures SameBlock(m, v, w)
  {
    DivMono(v, w, m.blockSize);
    DivMono(w, last, m.blockSize);
  }

  /** A run of a block in a zero state reads as zeros. */
  lemma ZeroRun(d: Disk, v: nat, n: nat)
    requires WellFormed(d) && n > 0 && v + n <= d.meta.diskSize
    requires SameBlock(d.meta, v, v + n - 1) && TargetOf(d, v) == Ok(Zero)
    ensures Resolves(d, v, n) && Span(d, v, n) == Zeros(n)
  {
    hide Validate, TargetOf;
    forall w | v <= w < v + n
      ensures ByteAt(d, w) == Ok(0)
    {
      InsideBlock(d.meta, v, w, v + n - 1);
      BlockTarget(d, v, w);
    }
  }

  /** `d` defers every byte of the run. */
  ghost predicate Defers(d: Disk, v: nat, n: nat)
    requires WellFormed(d)
  {
    forall w :: v <= w < v + n ==> ByteAt(d, w) == ParentByte(d.parent, w)
  }

  lemma ParentRun(d: Disk, v: nat, n: nat)
    requires WellFormed(d) && n > 0 && v + n <= d.meta.diskSize
    requires SameBlock(d.meta, v, v + n - 1) && TargetOf(d, v) == Ok(Parent)
    ensures Defers(d, v, n)
  {
    hide Validate, TargetOf;
    forall w | v <= w < v + n
      ensures ByteAt(d, w) == ParentByte(d.parent, w)
    {
      InsideBlock(d.meta, v, w, v + n - 1);
      BlockTarget(d, v, w);
    }
  }

  // ── Runs inside one bitmap byte ───────────────────────────────────────────

  /** `bit .. bit + sectors` have the same owner in a bitmap byte. */
  predicate SameOwner(b: byte, bit: nat, sectors: nat) {
    && bit + sectors <= 8
    && forall k :: bit <= k < bit + sectors ==> BitSet(b, k) == BitSet(b, bit)
  }

  /**
   Bytes of one block whose sectors share a bitmap byte: same bitmap address, consecutive
   data addresses, and no overflow, because block and address boundaries are bitmap-byte
   boundaries.
   */
  lemma PartialTargetAlong(d: Disk, v: nat, w: nat)
    requires WellFormed(d) && v <= w < d.meta.diskSize && SameBlock(d.meta, v, w)
    requires SectorOf(d.meta, v) / 8 == SectorOf(d.meta, w) / 8
    requires TargetOf(d, v).Ok? && TargetOf(d, v).value.Partial?
    ensures var t := TargetOf(d, v).value;
            && t.bit == SectorOf(d.meta, v) % 8
            && TargetOf(d, w) == Ok(Partial(t.data + (w - v), t.bitmap, SectorOf(d.meta, w) % 8))
  {
    hide Validate, Div, Mod, Meta.ChunkRatio, ReadTarget, PartialTarget, SectorsPerBlock;
    ReadTargetLocated(d.entries, d.meta, v);
    ReadTargetLocated(d.entries, d.meta, w);
    BlockOffset(d.meta, v, w);
    SameChunk(SectorOf(d.meta, v), SectorOf(d.meta, w));
    var index := Div(v, d.meta.blockSize) + ChunkOf(d.meta, v);
    var base := d.entries[index] / MIB;
    NoOverflowAlong(d.meta, v, w, base);
  }

  lemma SameChunk(s: nat, t: nat)
    requires s / 8 == t / 8
    ensures s / SECTORS_PER_CHUNK == t / SECTORS_PER_CHUNK
    ensures s % SECTORS_PER_CHUNK / 8 == t % SECTORS_PER_CHUNK / 8
    ensures s % SECTORS_PER_CHUNK % 8 == s % 8 && t % SECTORS_PER_CHUNK % 8 == t % 8
  {}

  lemma NoOverflowAlong(m: Meta, v: nat, w: nat, base: nat)
    requires Valid(m) && v <= w && SameBlock(m, v, w)
    requires SectorOf(m, v) / 8 == SectorOf(m, w) / 8
    requires base * MIB + Mod(v, m.blockSize) < TWO64
    ensures base * MIB + Mod(w, m.blockSize) < TWO64
  {
    hide Validate, Div, Mod, Meta.ChunkRatio, SectorsPerBlock;
    SizeBound(m);
    Geometry(m);
    DivMod(v, m.blockSize);
    DivMod(w, m.blockSize);
    var eighths := SectorsPerBlock(m) / 8;
    var k := eighths * Div(v, m.blockSize);
    Eighths(m.sectorSize, SectorsPerBlock(m), eighths);
    MulAssoc(8 * m.sectorSize, eighths, Div(v, m.blockSize));
    BelowAlong(m.sectorSize, v, w, k, base, Mod(v, m.blockSize), Mod(w, m.blockSize));
  }

  lemma Eighths(ss: nat, sectors: nat, eighths: nat)
    requires sectors == 8 * eighths
    ensures sectors * ss == 8 * ss * eighths
  {
    MulAssoc(8, eighths, ss);
    MulComm(eighths, ss);
    MulAssoc(8, ss, eighths);
  }

  /** 2^64, the address unit and block starts are all multiples of eight sectors. */
  lemma BelowAlong(ss: nat, v: nat, w: nat, k: nat, base: nat, o: nat, o': nat)
    requires ss == 512 || ss == 4096
    requires v == 8 * ss * k + o && w == 8 * ss * k + o' && Div(v, ss) / 8 == Div(w, ss) / 8
    requires base * MIB + o < TWO64
    ensures base * MIB + o' < TWO64
  {
    hide Div, Mod;
    var s := Div(v, ss) / 8;
    GroupBounds(v, ss);
    GroupBounds(w, ss);
    MulAdd(8 * ss, s - k, k);
    if ss == 512 {
      SameGroup(4096, base * 0x100, 0x10_0000_0000_0000, s - k, o, o');
    } else {
      SameGroup(32768, base * 0x20, 0x2_0000_0000_0000, s - k, o, o');
    }
  }

  lemma GroupBounds(v: nat, ss: nat)
    requires ss > 0
    ensures var s := Div(v, ss) / 8; 8 * ss * s <= v < 8 * ss * s + 8 * ss
  {
    hide Div, Mod;
    var a := Div(v, ss);
    var s, t := a / 8, a % 8;
    DivMod(v, ss);
    Spread(ss, s, t);
    MulMono(t, 7, ss);
  }

  lemma Spread(ss: nat, s: nat, t: nat)
    ensures ss * (8 * s + t) == 8 * ss * s + t * ss
  {}

  lemma SameGroup(g: nat, a: nat, t: nat, q: int, o: nat, o': nat)
    requires g > 0 && g * q <= o && o' < g * q + g && g * a + o < g * t
    ensures g * a + o' < g * t
  {
    assert g * (a + q) == g * a + g * q && g * (a + q + 1) == g * (a + q) + g;
    if a + q >= t {
      MulMono(t, a + q, g);
    } else {
      MulMono(a + q + 1, t, g);
    }
  }

  /** The sectors of a same-owner run stay in their bitmap byte. */
  lemma RunInByte(m: Meta, v: nat, w: nat, sectors: nat)
    requires m.sectorSize > 0 && v <= w < (SectorOf(m, v) + sectors) * m.sectorSize
    requires SectorOf(m, v) % 8 + sectors <= 8
    ensures SectorOf(m, v) / 8 == SectorOf(m, w) / 8
    ensures SectorOf(m, v) % 8 <= SectorOf(m, w) % 8 < SectorOf(m, v) % 8 + sectors
  {
    var s, t := SectorOf(m, v), SectorOf(m, w);
    DivMono(v, w, m.sectorSize);
    DivMod(w, m.sectorSize);
    hide Div, Mod;
    if t >= s + sectors {
      MulMono(s + sectors, t, m.sectorSize);
      assert false;
    }
  }

  /** Each byte of a same-owner run comes from the child, at consecutive addresses, or is deferred. */
  lemma PartialRun(d: Disk, v: nat, n: nat, sectors: nat)
    requires WellFormed(d) && n > 0 && v + n <= d.meta.diskSize
    requires SameBlock(d.meta, v, v + n - 1)
    requires v + n <= (SectorOf(d.meta, v) + sectors) * d.meta.sectorSize
    requires TargetOf(d, v).Ok? && TargetOf(d, v).value.Partial?
    requires var t := TargetOf(d, v).value;
             t.bitmap < |d.view| && SameOwner(d.view[t.bitmap], t.bit, sectors)
    ensures var t := TargetOf(d, v).value;
            if BitSet(d.view[t.bitmap], t.bit)
            then (Resolves(d, v, n) <==> t.data + n <= |d.view|)
              && (t.data + n <= |d.view| ==> Span(d, v, n) == d.view[t.data..t.data + n])
            else Defers(d, v, n)
  {
    hide Validate, TargetOf, BitSet;
    var t := TargetOf(d, v).value;
    var owned := BitSet(d.view[t.bitmap], t.bit);
    PartialTargetAlong(d, v, v);
    forall w | v <= w < v + n
      ensures ByteAt(d, w) == if owned then FileByte(d, t.data + (w - v)) else ParentByte(d.parent, w)
    {
      InsideBlock(d.meta, v, w, v + n - 1);
      RunInByte(d.meta, v, w, sectors);
      PartialTargetAlong(d, v, w);
    }
    if owned {
      if Resolves(d, v, n) {
        assert ByteAt(d, v + n - 1).Ok?;
      }
      if t.data + n <= |d.view| {
        assert Resolves(d, v, n);
        forall i | 0 <= i < n
          ensures Span(d, v, n)[i] == d.view[t.data..t.data + n][i]
        {
          assert ByteAt(d, v + i) == FileByte(d, t.data + i);
        }
      }
    }
  }

  /** A partial block whose bitmap byte is outside the container does not resolve. */
  lemma BitmapMissing(d: Disk, v: nat)
    requires WellFormed(d)
    requires TargetOf(d, v).Ok? && TargetOf(d, v).value.Partial?
    requires TargetOf(d, v).value.bitmap >= |d.view|
    ensures ByteAt(d, v).Err?
  {}

  // ── Concatenation ─────────────────────────────────────────────────────────

  lemma SpanEmpty(d: Disk, v: nat)
    requires WellFormed(d)
    ensures Resolves(d, v, 0) && Span(d, v, 0) == []
  {}

  /** Adjacent spans join into one. */
  lemma SpanConcat(d: Disk, v: nat, a: nat, b: nat)
    requires WellFormed(d)
    ensures Resolves(d, v, a + b) <==> Resolves(d, v, a) && Resolves(d, v + a, b)
    ensures Resolves(d, v, a + b) ==> Span(d, v, a + b) == Span(d, v, a) + Span(d, v + a, b)
  {
    hide WellFormed, ByteAt;
    if Resolves(d, v, a + b) {
      var whole, parts := Span(d, v, a + b), Span(d, v, a) + Span(d, v + a, b);
      forall i | 0 <= i < a + b
        ensures whole[i] == parts[i]
      {
        if i >= a {
          assert v + a + (i - a) == v + i;
        }
      }
    }
  }
}
