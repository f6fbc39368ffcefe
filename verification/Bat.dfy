/** The block allocation table: from a virtual byte to a container address or a sector bitmap bit. */
module Bat {
  import opened Bytes
  import opened Metadata
  import opened Arith

  datatype Target =
    | File(offset: nat)
    | Parent
    | Zero
    | Partial(data: nat, bitmap: nat, bit: nat)

  function CheckedMul(a: nat, b: nat): Option<nat> {
    if a * b < TWO64 then Some(a * b) else None
  }

  function CheckedAdd(a: Option<nat>, b: nat): Option<nat> {
    if a.Some? && a.value + b < TWO64 then Some(a.value + b) else None
  }

  /** The entries of a BAT region; a trailing partial entry is dropped. */
  function Entries(region: seq<byte>): (es: seq<u64>)
    ensures |es| == |region| / 8
    ensures forall i :: 0 <= i < |es| ==> es[i] == LeU64(region, i * 8)
  {
    seq(|region| / 8, i requires 0 <= i => LeU64(region, i * 8))
  }

  method ParseBat(region: seq<byte>) returns (es: seq<u64>)
    ensures es == Entries(region)
  {
    es := [];
    for i := 0 to |region| / 8
      invariant es == Entries(region)[..i]
    {
      es := es + [LeU64(region, i * 8)];
    }
  }

  function PayloadIndex(block: nat, ratio: nat): nat
    requires ratio > 0
  {
    block + Div(block, ratio)
  }

  function BitmapIndex(block: nat, ratio: nat): nat
    requires ratio > 0
  {
    Div(block, ratio) * (ratio + 1) + ratio
  }

  /** What the translation divides by. */
  predicate Usable(m: Meta) {
    m.blockSize > 0 && m.sectorSize > 0 && m.ChunkRatio() > 0
  }

  lemma ValidUsable(m: Meta)
    requires Valid(m)
    ensures Usable(m)
  {
    Geometry(m);
  }

  /** Where the byte at `v` lives, as the reader computes it, with every 64-bit check it makes. */
  function ReadTarget(entries: seq<u64>, m: Meta, v: nat): Result<Target>
    requires Usable(m)
  {
    if v >= m.diskSize then Err(SectorOutOfRange)
    else
      var block, inBlock := Div(v, m.blockSize), Mod(v, m.blockSize);
      var index := block + Div(block, m.ChunkRatio());
      if index >= |entries| then Err(BlockNotPresent(block))
      else
        var state := entries[index] % 8;
        if state == 0 then Ok(Parent)
        else if state == 1 || state == 2 || state == 3 then Ok(Zero)
        else if state != 6 && state != 7 then Err(InvalidPayloadBlockState(block, state))
        else
          var address := CheckedAdd(CheckedMul(entries[index] / MIB, MIB), inBlock);
          if address.None? then Err(AddressOverflow)
          else if state == 6 then Ok(File(address.value))
          else PartialTarget(entries, m, block, inBlock, address.value)
  }

  function PartialTarget(entries: seq<u64>, m: Meta, block: nat, inBlock: nat, address: nat): (r: Result<Target>)
    requires Usable(m)
    ensures r.Ok? ==> r.value.Partial?
  {
    var ratio := m.ChunkRatio();
    var index := CheckedAdd(CheckedMul(Div(block, ratio), ratio + 1), ratio);
    if index.None? then Err(AddressOverflow)
    else if index.value >= |entries| || entries[index.value] % 8 != 6 then Err(SectorBitmapNotPresent(block))
    else
      var sector := CheckedAdd(CheckedMul(Mod(block, ratio), SectorsPerBlock(m)), Div(inBlock, m.sectorSize));
      if sector.None? then Err(AddressOverflow)
      else
        var bitmap := CheckedAdd(CheckedMul(entries[index.value] / MIB, MIB), sector.value / 8);
        if bitmap.None? then Err(AddressOverflow)
        else Ok(Partial(address, bitmap.value, sector.value % 8))
  }

  // ── The same translation stated by sectors and chunks ─────────────────────

  /** Sector number within the whole disk. */
  function SectorOf(m: Meta, v: nat): nat
    requires m.sectorSize > 0
  {
    Div(v, m.sectorSize)
  }

  function ChunkOf(m: Meta, v: nat): nat
    requires m.sectorSize > 0
  {
    SectorOf(m, v) / SECTORS_PER_CHUNK
  }

  function BitOf(m: Meta, v: nat): nat
    requires m.sectorSize > 0
  {
    SectorOf(m, v) % SECTORS_PER_CHUNK
  }

  /** A chunk's bitmap entry follows the entries of its payload blocks. */
  function BitmapSlot(m: Meta, v: nat): nat
    requires Usable(m)
  {
    ChunkOf(m, v) * (m.ChunkRatio() + 1) + m.ChunkRatio()
  }

  /**
   The translation as the format defines it, without overflow checks on anything but the
   payload address: sector `s` belongs to chunk `s / 2^23` and owns bit `s % 2^23` of that
   chunk's bitmap.
   */
  function Located(entries: seq<u64>, m: Meta, v: nat): Result<Target>
    requires Usable(m)
  {
    if v >= m.diskSize then Err(SectorOutOfRange)
    else
      var block := Div(v, m.blockSize);
      if block + ChunkOf(m, v) >= |entries| then Err(BlockNotPresent(block))
      else
        var e := entries[block + ChunkOf(m, v)];
        var address := e / MIB * MIB + Mod(v, m.blockSize);
        match e % 8
        case 0 => Ok(Parent)
        case 1 => Ok(Zero)
        case 2 => Ok(Zero)
        case 3 => Ok(Zero)
        case 6 => if address >= TWO64 then Err(AddressOverflow) else Ok(File(address))
        case 7 =>
          if address >= TWO64 then Err(AddressOverflow)
          else LocatedPartial(entries, m, v, address)
        case _ => Err(InvalidPayloadBlockState(block, e % 8))
  }

  function LocatedPartial(entries: seq<u64>, m: Meta, v: nat, address: nat): Result<Target>
    requires Usable(m)
  {
    var slot := BitmapSlot(m, v);
    if slot >= |entries| || entries[slot] % 8 != 6 then Err(SectorBitmapNotPresent(Div(v, m.blockSize)))
    else Ok(Partial(address, entries[slot] / MIB * MIB + BitOf(m, v) / 8, BitOf(m, v) % 8))
  }

  /** Chunk number and bitmap bit of a byte, from its block and the offset in it. */
  lemma ChunkOfBlock(m: Meta, v: nat)
    requires Valid(m)
    ensures Usable(m)
    ensures Div(Div(v, m.blockSize), m.ChunkRatio()) == ChunkOf(m, v)
    ensures Mod(Div(v, m.blockSize), m.ChunkRatio()) * SectorsPerBlock(m) + Div(Mod(v, m.blockSize), m.sectorSize)
         == BitOf(m, v)
  {
    hide Validate, Meta.ChunkRatio, SectorsPerBlock, Div, Mod;
    Geometry(m);
    ValidUsable(m);
    DivIsQuotient(SectorOf(m, v), SECTORS_PER_CHUNK);
    var ratio, spb := m.ChunkRatio(), SectorsPerBlock(m);
    var block, inBlock := Div(v, m.blockSize), Mod(v, m.blockSize);
    SectorOfBlock(block, inBlock, spb, m.sectorSize);
    DivMod(v, m.blockSize);
    assert v == block * (spb * m.sectorSize) + inBlock;
    SplitSectors(block, Div(inBlock, m.sectorSize), ratio, spb);
  }

  lemma SectorOfBlock(block: nat, inBlock: nat, spb: nat, ss: nat)
    requires ss > 0 && inBlock < spb * ss
    ensures Div(block * (spb * ss) + inBlock, ss) == block * spb + Div(inBlock, ss)
    ensures Div(inBlock, ss) < spb
  {
    hide Div, Mod;
    var k := Div(inBlock, ss);
    DivMod(inBlock, ss);
    MulAssoc(block, spb, ss);
    MulComm(block * spb, ss);
    MulAdd(ss, block * spb, k);
    DivUnique(block * (spb * ss) + inBlock, ss, block * spb + k, Mod(inBlock, ss));
    MulComm(k, ss);
    if k >= spb {
      MulMono(spb, k, ss);
    }
  }

  lemma SplitSectors(block: nat, k: nat, ratio: nat, spb: nat)
    requires ratio > 0 && k < spb
    ensures ratio * spb > 0
    ensures Div(block * spb + k, ratio * spb) == Div(block, ratio)
    ensures Mod(block * spb + k, ratio * spb) == Mod(block, ratio) * spb + k
  {
    hide Div, Mod;
    var q, r := Div(block, ratio), Mod(block, ratio);
    DivMod(block, ratio);
    SplitBlocks(block, ratio, spb, q, r);
    MulMono(1, ratio, spb);
    MulMono(r + 1, ratio, spb);
    MulAdd(spb, r, 1);
    DivUnique(block * spb + k, ratio * spb, q, r * spb + k);
  }

  lemma SplitBlocks(block: nat, ratio: nat, spb: nat, q: nat, r: nat)
    requires block == ratio * q + r
    ensures block * spb == (ratio * spb) * q + r * spb
  {
    MulAdd(spb, ratio * q, r);
    MulAssoc(ratio, q, spb);
    MulComm(q, spb);
    MulAssoc(ratio, spb, q);
  }

  /** The reader's computation meets the format's: only the payload address can overflow. */
  lemma ReadTargetLocated(entries: seq<u64>, m: Meta, v: nat)
    requires Valid(m)
    ensures Usable(m) && ReadTarget(entries, m, v) == Located(entries, m, v)
  {
    hide Validate, PartialTarget, LocatedPartial, Meta.ChunkRatio, Div, Mod, ChunkOf;
    ValidUsable(m);
    if v < m.diskSize {
      ChunkOfBlock(m, v);
      var index := PayloadIndex(Div(v, m.blockSize), m.ChunkRatio());
      if index < |entries| && entries[index] % 8 == 7 {
        var address := entries[index] / MIB * MIB + Mod(v, m.blockSize);
        if address < TWO64 {
          PartialLocated(entries, m, v, address);
        }
      }
    }
  }

  lemma PartialLocated(entries: seq<u64>, m: Meta, v: nat, address: nat)
    requires Valid(m) && Usable(m) && v < m.diskSize
    ensures PartialTarget(entries, m, Div(v, m.blockSize), Mod(v, m.blockSize), address)
         == LocatedPartial(entries, m, v, address)
  {
    hide Validate, Meta.ChunkRatio, SectorsPerBlock, Div, Mod, ChunkOf, BitOf, PartialTarget;
    ChunkOfBlock(m, v);
    SmallProducts(m, v);
    BitBelow(m, v);
    PartialUnchecked(entries, m, Div(v, m.blockSize), Mod(v, m.blockSize), address, BitmapSlot(m, v), BitOf(m, v));
  }

  lemma BitBelow(m: Meta, v: nat)
    requires m.sectorSize > 0
    ensures BitOf(m, v) < SECTORS_PER_CHUNK
  {
    hide Div;
  }

  /** For a slot and a bit this small the checks of the bitmap address are idle. */
  lemma PartialUnchecked(entries: seq<u64>, m: Meta, block: nat, inBlock: nat, address: nat, slot: nat, bit: nat)
    requires Usable(m) && slot < TWO63 && bit < SECTORS_PER_CHUNK
    requires slot == Div(block, m.ChunkRatio()) * (m.ChunkRatio() + 1) + m.ChunkRatio()
    requires bit == Mod(block, m.ChunkRatio()) * SectorsPerBlock(m) + Div(inBlock, m.sectorSize)
    ensures PartialTarget(entries, m, block, inBlock, address)
         == if slot >= |entries| || entries[slot] % 8 != 6 then Err(SectorBitmapNotPresent(block))
            else Ok(Partial(address, entries[slot] / MIB * MIB + bit / 8, bit % 8))
  {
    hide Meta.ChunkRatio, SectorsPerBlock, Div, Mod;
    var a, b := Div(block, m.ChunkRatio()) * (m.ChunkRatio() + 1), Mod(block, m.ChunkRatio()) * SectorsPerBlock(m);
    assert a <= slot && b <= bit;
    MulMono(0, Mod(block, m.ChunkRatio()), SectorsPerBlock(m));
  }

  /** None of the intermediate values of the bitmap address comes near 64 bits. */
  lemma SmallProducts(m: Meta, v: nat)
    requires Valid(m) && Usable(m) && v < m.diskSize
    ensures BitmapSlot(m, v) < TWO63
    ensures 0 <= Mod(Div(v, m.blockSize), m.ChunkRatio()) * SectorsPerBlock(m) <= BitOf(m, v) < SECTORS_PER_CHUNK
  {
    hide Validate, Meta.ChunkRatio, SectorsPerBlock, Div, Mod;
    Geometry(m);
    SizeBound(m);
    ChunkOfBlock(m, v);
    DivLess(v, m.sectorSize);
    MulMono(ChunkOf(m, v), DISK_SIZE_MAX, m.ChunkRatio() + 1);
    MulMono(0, Mod(Div(v, m.blockSize), m.ChunkRatio()), SectorsPerBlock(m));
  }

  lemma SizeBound(m: Meta)
    requires Valid(m)
    ensures 0 < m.diskSize <= DISK_SIZE_MAX && BLOCK_SIZE_MIN <= m.blockSize <= BLOCK_SIZE_MAX
    ensures m.sectorSize == 512 || m.sectorSize == 4096
    ensures Mod(m.diskSize, m.sectorSize) == 0
  {}

  // ── Payload slots and bitmap slots ────────────────────────────────────────

  /** A payload index sits in its block's chunk, at the block's place, and is never a bitmap slot. */
  lemma PayloadIndexPlace(block: nat, ratio: nat)
    requires ratio > 0
    ensures Div(PayloadIndex(block, ratio), ratio + 1) == Div(block, ratio)
    ensures Mod(PayloadIndex(block, ratio), ratio + 1) == Mod(block, ratio) < ratio
    ensures BitmapIndex(block, ratio) == Div(PayloadIndex(block, ratio), ratio + 1) * (ratio + 1) + ratio
    ensures Mod(BitmapIndex(block, ratio), ratio + 1) == ratio
  {
    hide Div, Mod;
    var q, r := Div(block, ratio), Mod(block, ratio);
    DivMod(block, ratio);
    assert PayloadIndex(block, ratio) == (ratio + 1) * q + r;
    DivUnique(PayloadIndex(block, ratio), ratio + 1, q, r);
    assert BitmapIndex(block, ratio) == (ratio + 1) * q + ratio;
    DivUnique(BitmapIndex(block, ratio), ratio + 1, q, ratio);
  }

  /** Every index that is not a bitmap slot is the payload index of exactly one block. */
  lemma PayloadIndexOnto(index: nat, ratio: nat) returns (block: nat)
    requires ratio > 0 && Mod(index, ratio + 1) != ratio
    ensures PayloadIndex(block, ratio) == index
    ensures forall b: nat :: PayloadIndex(b, ratio) == index ==> b == block
  {
    hide Div, Mod;
    var q, r := Div(index, ratio + 1), Mod(index, ratio + 1);
    block := ratio * q + r;
    DivUnique(block, ratio, q, r);
    DivMod(index, ratio + 1);
    assert index == (ratio + 1) * q + r;
    forall b: nat | PayloadIndex(b, ratio) == index
      ensures b == block
    {
      PayloadIndexPlace(b, ratio);
      DivMod(b, ratio);
    }
  }

  lemma PayloadIndexIncreasing(a: nat, b: nat, ratio: nat)
    requires ratio > 0 && a < b
    ensures PayloadIndex(a, ratio) < PayloadIndex(b, ratio)
  {
    DivMono(a, b, ratio);
  }

  /**
   Two bytes of one chunk that both translate to a bitmap bit: their bitmap bytes lie in the one
   MiB of the chunk's bitmap block, and they share a bit exactly when they share a sector.
   */
  lemma BitmapPlaceInjective(entries: seq<u64>, m: Meta, v: nat, w: nat)
    requires Valid(m) && Usable(m) && ChunkOf(m, v) == ChunkOf(m, w)
    requires ReadTarget(entries, m, v).Ok? && ReadTarget(entries, m, v).value.Partial?
    requires ReadTarget(entries, m, w).Ok? && ReadTarget(entries, m, w).value.Partial?
    ensures BitmapSlot(m, v) == BitmapSlot(m, w) < |entries|
    ensures var a, b := ReadTarget(entries, m, v).value, ReadTarget(entries, m, w).value;
            var base := entries[BitmapSlot(m, v)] / MIB * MIB;
            && base <= a.bitmap < base + MIB && base <= b.bitmap < base + MIB
            && (a.bitmap == b.bitmap && a.bit == b.bit <==> SectorOf(m, v) == SectorOf(m, w))
  {
    hide Validate, ReadTarget, SectorOf, Meta.ChunkRatio, Div, Mod;
    ReadTargetLocated(entries, m, v);
    ReadTargetLocated(entries, m, w);
    SameBit(SectorOf(m, v), SectorOf(m, w));
  }

  lemma SameBit(s: nat, t: nat)
    requires s / SECTORS_PER_CHUNK == t / SECTORS_PER_CHUNK
    ensures s % SECTORS_PER_CHUNK / 8 < MIB && t % SECTORS_PER_CHUNK / 8 < MIB
    ensures var a, b := s % SECTORS_PER_CHUNK, t % SECTORS_PER_CHUNK;
            a / 8 == b / 8 && a % 8 == b % 8 <==> s == t
  {
    assert s == SECTORS_PER_CHUNK * (s / SECTORS_PER_CHUNK) + s % SECTORS_PER_CHUNK;
    assert t == SECTORS_PER_CHUNK * (t / SECTORS_PER_CHUNK) + t % SECTORS_PER_CHUNK;
  }
}
