/**
 The rule of the format for one virtual byte, in plain arithmetic on the table and the container,
 and a read of one partial block by it.
 */
module Format {
  import opened Bytes
  import opened Arith
  import opened Metadata
  import opened Bat
  import opened Disk
  import Crc

  // ── Bitmap bits ───────────────────────────────────────────────────────────

  /** The eight bits of a byte spell it. */
  lemma BitSpells(b: byte)
    ensures b == (if BitSet(b, 0) then 1 else 0) + (if BitSet(b, 1) then 2 else 0)
                 + (if BitSet(b, 2) then 4 else 0) + (if BitSet(b, 3) then 8 else 0)
                 + (if BitSet(b, 4) then 16 else 0) + (if BitSet(b, 5) then 32 else 0)
                 + (if BitSet(b, 6) then 64 else 0) + (if BitSet(b, 7) then 128 else 0)
  {
    hide BitSet;
    BitWeights(b);
  }

  lemma BitWeights(b: byte)
    ensures b == Crc.Weight(BitSet(b, 0), 1) + Crc.Weight(BitSet(b, 1), 2) + Crc.Weight(BitSet(b, 2), 4)
                 + Crc.Weight(BitSet(b, 3), 8) + Crc.Weight(BitSet(b, 4), 16) + Crc.Weight(BitSet(b, 5), 32)
                 + Crc.Weight(BitSet(b, 6), 64) + Crc.Weight(BitSet(b, 7), 128)
  {
    hide *;
    NibbleWeights(b, 1);
    NibbleWeights(b / 2 / 2 / 2 / 2, 16);
    EightHalves(b);
    NibbleOn(b, 0);
    NibbleOn(b, 1);
    NibbleOn(b, 2);
    NibbleOn(b, 3);
  }

  lemma EightHalves(b: byte)
    ensures b / 2 / 2 / 2 / 2 / 2 / 2 / 2 / 2 == 0
  {
    assert b / 2 / 2 / 2 / 2 < 16;
  }

  lemma FirstWeight(n: nat, w: nat)
    ensures w * n == w * 2 * (n / 2) + Crc.Weight(BitSet(n, 0), w)
  {
    assert n == 2 * (n / 2) + n % 2;
    MulAssoc(w, 2, n / 2);
    MulAdd(w, 2 * (n / 2), n % 2);
  }

  lemma NextBit(n: nat, k: nat)
    ensures BitSet(n, k + 1) == BitSet(n / 2, k)
  {}

  /** The lowest four bits, and what is left. */
  lemma NibbleWeights(n: nat, w: nat)
    ensures w * n == w * 16 * (n / 2 / 2 / 2 / 2)
                     + Crc.Weight(BitSet(n, 0), w) + Crc.Weight(BitSet(n, 1), 2 * w)
                     + Crc.Weight(BitSet(n, 2), 4 * w) + Crc.Weight(BitSet(n, 3), 8 * w)
  {
    hide BitSet, Crc.Weight;
    var h1 := n / 2;
    var h2 := h1 / 2;
    var h3 := h2 / 2;
    NextBit(n, 0);
    NextBit(n, 1);
    NextBit(h1, 0);
    NextBit(n, 2);
    NextBit(h1, 1);
    NextBit(h2, 0);
    FirstWeight(n, w);
    FirstWeight(h1, 2 * w);
    FirstWeight(h2, 4 * w);
    FirstWeight(h3, 8 * w);
  }

  lemma NibbleOn(n: nat, k: nat)
    ensures BitSet(n, 4 + k) == BitSet(n / 2 / 2 / 2 / 2, k)
  {
    hide BitSet;
    NextBit(n, 3 + k);
    NextBit(n / 2, 2 + k);
    NextBit(n / 2 / 2, 1 + k);
    NextBit(n / 2 / 2 / 2, k);
  }

  /** The binary digit of weight 2^k. */
  predicate DigitOne(n: nat, k: nat) { n / Crc.Pow2(k) % 2 == 1 }

  /** Bit `k` is the parity of the number without its lowest `k` bits. */
  lemma {:induction false} BitByPower(n: nat, k: nat)
    ensures BitSet(n, k) <==> DigitOne(n, k)
  {
    if k > 0 {
      BitByPower(n / 2, k - 1);
      HalfOfPower(n, Crc.Pow2(k - 1));
    }
  }

  lemma HalfOfPower(n: nat, p: nat)
    requires p > 0
    ensures n / (2 * p) == n / 2 / p
  {
    var q, r := n / 2 / p, n / 2 % p;
    DivIsQuotient(n / 2, p);
    DivMod(n / 2, p);
    DivIsQuotient(n, 2 * p);
    hide Div, Mod;
    assert n == 2 * (p * q + r) + n % 2;
    MulAssoc(2, p, q);
    DivUnique(n, 2 * p, q, 2 * r + n % 2);
  }

  // ── One virtual byte ──────────────────────────────────────────────────────

  /** Byte `o` of block `block`, which is block `place` of chunk `chunk`; its sector is `sector`. */
  datatype Spot = Spot(block: nat, o: nat, chunk: nat, place: nat, sector: nat)

  /** The spot of `v` for `ratio` blocks in a chunk of 2^23 sectors. */
  predicate SpotOf(m: Meta, v: nat, ratio: nat, s: Spot) {
    && ratio > 0 && s.o < m.blockSize && s.place < ratio
    && ratio * m.blockSize == 0x80_0000 * m.sectorSize
    && v == s.block * m.blockSize + s.o && s.block == s.chunk * ratio + s.place
    && s.sector * m.sectorSize <= v < (s.sector + 1) * m.sectorSize
  }

  /** What the parent of an image shows, or zero. */
  function Inherited(d: Disk, v: nat): Result<byte>
    requires WellFormed(d)
  {
    if d.parent.Some? then ByteAt(d.parent.value, v) else Ok(0)
  }

  /** The reader's quotients are those of the spot. */
  lemma SpotQuotients(d: Disk, v: nat, ratio: nat, s: Spot)
    requires WellFormed(d) && SpotOf(d.meta, v, ratio, s)
    ensures var m := d.meta;
            && m.ChunkRatio() == ratio && Div(v, m.blockSize) == s.block && Mod(v, m.blockSize) == s.o
            && SectorOf(m, v) == s.sector && ChunkOf(m, v) == s.chunk
  {
    var m := d.meta;
    hide Validate, Div, Mod, ChunkOf;
    ValidUsable(m);
    ChunkOfBlock(m, v);
    MulComm(ratio, m.blockSize);
    MulComm(s.block, m.blockSize);
    MulComm(s.chunk, ratio);
    MulComm(s.sector, m.sectorSize);
    MulAdd(m.sectorSize, s.sector, 1);
    DivUnique(SECTORS_PER_CHUNK * m.sectorSize, m.blockSize, ratio, 0);
    DivUnique(v, m.blockSize, s.block, s.o);
    DivUnique(s.block, ratio, s.chunk, s.place);
    DivUnique(v, m.sectorSize, s.sector, v - m.sectorSize * s.sector);
  }

  /** A block's entry comes after those of the blocks before it and one bitmap entry for each chunk. */
  lemma ByteRule(d: Disk, v: nat, ratio: nat, s: Spot)
    requires WellFormed(d) && v < d.meta.diskSize && SpotOf(d.meta, v, ratio, s)
    ensures if s.block + s.chunk >= |d.entries| then ByteAt(d, v) == Err(BlockNotPresent(s.block))
            else
              var e := d.entries[s.block + s.chunk];
              var state, at := e % 8, e / 0x10_0000 * 0x10_0000 + s.o;
              && (state == 0 ==> ByteAt(d, v) == Inherited(d, v))
              && (state == 1 || state == 2 || state == 3 ==> ByteAt(d, v) == Ok(0))
              && (state == 4 || state == 5 ==> ByteAt(d, v) == Err(InvalidPayloadBlockState(s.block, state)))
              && (state >= 6 && at >= 0x1_0000_0000_0000_0000 ==> ByteAt(d, v) == Err(AddressOverflow))
              && (state == 6 && at < 0x1_0000_0000_0000_0000 ==>
                    ByteAt(d, v) == if at < |d.view| then Ok(d.view[at]) else Err(UnexpectedEof))
  {
    hide Validate, Div, Mod, Meta.ChunkRatio, ReadTarget, LocatedPartial, ChunkOf, SpotOf;
    SpotQuotients(d, v, ratio, s);
    ReadTargetLocated(d.entries, d.meta, v);
  }

  /** The bitmap of a chunk follows its blocks' entries; bit `sector % 2^23` says who owns a sector. */
  lemma PartialByteRule(d: Disk, v: nat, ratio: nat, s: Spot, slot: nat)
    requires WellFormed(d) && v < d.meta.diskSize && SpotOf(d.meta, v, ratio, s)
    requires slot == s.chunk * (ratio + 1) + ratio
    requires s.block + s.chunk < |d.entries| && d.entries[s.block + s.chunk] % 8 == 7
    requires d.entries[s.block + s.chunk] / 0x10_0000 * 0x10_0000 + s.o < 0x1_0000_0000_0000_0000
    ensures var at := d.entries[s.block + s.chunk] / 0x10_0000 * 0x10_0000 + s.o;
            var bit := s.sector % 0x80_0000;
            if slot >= |d.entries| || d.entries[slot] % 8 != 6 then
              ByteAt(d, v) == Err(SectorBitmapNotPresent(s.block))
            else
              var where := d.entries[slot] / 0x10_0000 * 0x10_0000 + bit / 8;
              if where >= |d.view| then ByteAt(d, v) == Err(UnexpectedEof)
              else if DigitOne(d.view[where], bit % 8) then
                ByteAt(d, v) == if at < |d.view| then Ok(d.view[at]) else Err(UnexpectedEof)
              else ByteAt(d, v) == Inherited(d, v)
  {
    hide Validate, Div, Mod, Meta.ChunkRatio, ReadTarget, ChunkOf, BitSet, DigitOne, SpotOf;
    SpotQuotients(d, v, ratio, s);
    ReadTargetLocated(d.entries, d.meta, v);
    var t := TargetOf(d, v);
    if t.Ok? && t.value.Partial? && t.value.bitmap < |d.view| {
      BitByPower(d.view[t.value.bitmap], t.value.bit);
    }
  }

  /** Every byte has its spot. */
  lemma HasSpot(m: Meta, v: nat) returns (ratio: nat, s: Spot)
    requires Valid(m)
    ensures SpotOf(m, v, ratio, s)
  {
    hide Validate, Div, Mod;
    ValidUsable(m);
    Geometry(m);
    ratio := m.ChunkRatio();
    DivMod(v, m.blockSize);
    DivMod(v, m.sectorSize);
    DivMod(Div(v, m.blockSize), ratio);
    var block := Div(v, m.blockSize);
    s := Spot(block, Mod(v, m.blockSize), Div(block, ratio), Mod(block, ratio), Div(v, m.sectorSize));
    MulComm(block, m.blockSize);
    MulComm(s.chunk, ratio);
    MulComm(s.sector, m.sectorSize);
    MulAdd(m.sectorSize, s.sector, 1);
  }

  // ── A partial block with both owners ──────────────────────────────────────

  /** A disk of blocks of 256 MiB, with sectors of 512 bytes. */
  predicate LargeBlocks(m: Meta) {
    m.blockSize == 0x1000_0000 && m.diskSize == 0x10_0000 && m.sectorSize == 512
  }

  /** The first block is partially present at 2 MiB; the bitmap of its chunk is at 3 MiB. */
  predicate PartialFirst(es: seq<u64>) {
    |es| == 17 && es[0] == 0x20_0007 && es[16] == 0x30_0006
  }

  lemma LargeBlocksValid(m: Meta)
    requires LargeBlocks(m)
    ensures Valid(m) && Usable(m)
  {
    hide Div, Mod, CountOnes;
    PowerHasOneBit(28);
    PowersOfTwo();
    DivUnique(0x10_0000, 512, 0x800, 0);
    ValidUsable(m);
  }

  lemma LargeSpot(m: Meta, sector: nat)
    requires LargeBlocks(m) && sector < 0x800
    ensures SpotOf(m, 512 * sector, 16, Spot(0, 512 * sector, 0, 0, sector)) && 512 * sector < m.diskSize
  {}

  lemma LargeFormed(d: Disk)
    requires LargeBlocks(d.meta) && |d.view| < TWO63 && (d.parent.Some? ==> WellFormed(d.parent.value))
    ensures WellFormed(d)
  {
    hide Validate, Usable;
    LargeBlocksValid(d.meta);
  }

  /** The first byte of a sector of such a block. */
  lemma FirstOfSector(d: Disk, sector: nat)
    requires WellFormed(d) && LargeBlocks(d.meta) && PartialFirst(d.entries)
    requires 0x30_0100 < |d.view| && sector < 0x800
    ensures ByteAt(d, 512 * sector)
         == if DigitOne(d.view[0x30_0000 + sector / 8], sector % 8) then Ok(d.view[0x20_0000 + 512 * sector])
            else Inherited(d, 512 * sector)
  {
    hide *;
    var o := 512 * sector;
    LargeSpot(d.meta, sector);
    PartialFirstAt(d.entries, o);
    OwnedOrNot(d, o, 16, Spot(0, o, 0, 0, sector), 16, sector, 0x20_0000 + o, 0x30_0000 + sector / 8);
  }

  /** The rule for given places of the data and the bitmap byte. */
  lemma OwnedOrNot(d: Disk, v: nat, ratio: nat, s: Spot, slot: nat, bit: nat, at: nat, where: nat)
    requires WellFormed(d) && v < d.meta.diskSize && SpotOf(d.meta, v, ratio, s)
    requires s.block + s.chunk < |d.entries| && d.entries[s.block + s.chunk] % 8 == 7
    requires slot == s.chunk * (ratio + 1) + ratio < |d.entries| && d.entries[slot] % 8 == 6
    requires bit == s.sector % 0x80_0000
    requires at == d.entries[s.block + s.chunk] / 0x10_0000 * 0x10_0000 + s.o < |d.view|
    requires where == d.entries[slot] / 0x10_0000 * 0x10_0000 + bit / 8 < |d.view|
    ensures ByteAt(d, v) == if DigitOne(d.view[where], bit % 8) then Ok(d.view[at]) else Inherited(d, v)
  {
    assert |d.view| < TWO63;
    hide *;
    PartialByteRule(d, v, ratio, s, slot);
  }

  lemma PartialFirstAt(es: seq<u64>, o: nat)
    requires PartialFirst(es)
    ensures |es| == 17 && es[0] % 8 == 7 && es[0] / 0x10_0000 * 0x10_0000 + o == 0x20_0000 + o
    ensures es[16] % 8 == 6 && es[16] / 0x10_0000 * 0x10_0000 == 0x30_0000
  {}

  lemma InheritedSays(d: Disk, v: nat)
    requires WellFormed(d)
    ensures d.parent.Some? ==> WellFormed(d.parent.value)
    ensures Inherited(d, v) == if d.parent.None? then Ok(0) else ByteAt(d.parent.value, v)
  {
    hide ByteAt;
  }

  lemma DigitsOfOne()
    ensures DigitOne(1, 0) && !DigitOne(1, 1)
  {
    assert Crc.Pow2(0) == 1 && Crc.Pow2(1) == 2;
  }

  /** With only the lowest bitmap bit set, the first sector is the image's own and the second is not. */
  lemma BothOwners(d: Disk)
    requires LargeBlocks(d.meta) && PartialFirst(d.entries)
    requires 0x30_0100 < |d.view| < TWO63 && d.view[0x20_0000] == 0xAB && d.view[0x30_0000] == 0x01
    requires d.parent.Some? ==> WellFormed(d.parent.value)
    ensures WellFormed(d) && ByteAt(d, 0) == Ok(0xAB)
    ensures ByteAt(d, 512) == if d.parent.None? then Ok(0) else ByteAt(d.parent.value, 512)
  {
    hide *;
    DigitsOfOne();
    LargeFormed(d);
    InheritedSays(d, 512);
    FirstOfSector(d, 0);
    FirstOfSector(d, 1);
  }
}
