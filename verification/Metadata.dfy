/** Disk parameters: parsing, validation, and the geometry that validation guarantees. */
module Metadata {
  import opened Bytes
  import opened Crc
  import Arith

  const SECTORS_PER_CHUNK: nat := 0x80_0000
  const BLOCK_SIZE_MIN: nat := 0x10_0000
  const BLOCK_SIZE_MAX: nat := 0x1000_0000
  const DISK_SIZE_MAX: nat := 0x4000_0000_0000

  const METADATA_SIGNATURE: seq<byte> := [0x6D, 0x65, 0x74, 0x61, 0x64, 0x61, 0x74, 0x61]
  const FILE_PARAMETERS: seq<byte> :=
    [0x37, 0x67, 0xA1, 0xCA, 0x36, 0xFA, 0x43, 0x4D, 0xB3, 0xB6, 0x33, 0xF0, 0xAA, 0x44, 0xE7, 0x6B]
  const VIRTUAL_DISK_SIZE: seq<byte> :=
    [0x24, 0x42, 0xA5, 0x2F, 0x1B, 0xCD, 0x76, 0x48, 0xB2, 0x11, 0x5B, 0xE0, 0x7A, 0x6C, 0xE3, 0x2C]
  const VIRTUAL_DISK_SIZE_QEMU: seq<byte> :=
    [0x24, 0x42, 0xA5, 0x2F, 0x1B, 0xCD, 0x76, 0x48, 0xB2, 0x11, 0x5D, 0xBE, 0xD8, 0x3B, 0xF4, 0xB8]
  const LOGICAL_SECTOR_SIZE: seq<byte> :=
    [0x1D, 0xBF, 0x41, 0x81, 0x6F, 0xA9, 0x09, 0x47, 0xBA, 0x47, 0xF2, 0x33, 0xA8, 0xFA, 0xAB, 0x5F]

  datatype Meta = Meta(blockSize: u32, hasParent: bool, diskSize: u64, sectorSize: u32) {
    /** Payload entries between two sector bitmap entries of the BAT. */
    function ChunkRatio(): nat
      requires blockSize > 0
    {
      Arith.Div(SECTORS_PER_CHUNK * sectorSize, blockSize)
    }
  }

  function CountOnes(n: nat): nat {
    if n == 0 then 0 else n % 2 + CountOnes(n / 2)
  }

  function Validate(m: Meta): (r: Result<()>)
    ensures r != Err(Panic)
  {
    if m.blockSize < BLOCK_SIZE_MIN || m.blockSize > BLOCK_SIZE_MAX then
      Err(InvalidMetadata("BlockSize must be in [1 MB, 256 MB]"))
    else if CountOnes(m.blockSize) != 1 then
      Err(InvalidMetadata("BlockSize must be a power of two"))
    else if m.sectorSize != 512 && m.sectorSize != 4096 then
      Err(InvalidMetadata("LogicalSectorSize must be 512 or 4096"))
    else if m.diskSize == 0 then
      Err(InvalidMetadata("VirtualDiskSize cannot be zero"))
    else if m.diskSize > DISK_SIZE_MAX then
      Err(InvalidMetadata("VirtualDiskSize exceeds the 64 TiB spec limit"))
    else if Arith.Mod(m.diskSize, m.sectorSize) != 0 then
      Err(InvalidMetadata("VirtualDiskSize must be a multiple of LogicalSectorSize"))
    else Ok(())
  }

  predicate Valid(m: Meta) {
    Validate(m).Ok?
  }

  lemma {:induction false} OneBit(n: nat) returns (k: nat)
    requires CountOnes(n) == 1
    ensures n == Pow2(k)
  {
    if n % 2 == 1 {
      if n / 2 > 0 {
        SomeBit(n / 2);
      }
      k := 0;
    } else {
      k := OneBit(n / 2);
      k := k + 1;
    }
  }

  lemma {:induction false} SomeBit(n: nat)
    requires n > 0
    ensures CountOnes(n) >= 1
  {
    if n % 2 == 0 {
      SomeBit(n / 2);
    }
  }

  lemma {:induction false} Pow2Monotone(a: nat, b: nat)
    requires a <= b
    ensures Pow2(a) <= Pow2(b)
  {
    if a < b {
      Pow2Monotone(a, b - 1);
    }
  }

  predicate BlockSizes(bs: nat) {
    || bs == 0x10_0000 || bs == 0x20_0000 || bs == 0x40_0000 || bs == 0x80_0000 || bs == 0x100_0000
    || bs == 0x200_0000 || bs == 0x400_0000 || bs == 0x800_0000 || bs == 0x1000_0000
  }

  lemma {:induction false} PowerHasOneBit(k: nat)
    ensures CountOnes(Pow2(k)) == 1
  {
    if k > 0 {
      PowerHasOneBit(k - 1);
    }
  }

  lemma PowersOfTwo()
    ensures Pow2(19) == 0x8_0000 && Pow2(20) == 0x10_0000 && Pow2(21) == 0x20_0000 && Pow2(22) == 0x40_0000
    ensures Pow2(23) == 0x80_0000 && Pow2(24) == 0x100_0000 && Pow2(25) == 0x200_0000
    ensures Pow2(26) == 0x400_0000 && Pow2(27) == 0x800_0000 && Pow2(28) == 0x1000_0000
    ensures Pow2(29) == 0x2000_0000
  {
    assert Pow2(10) == 0x400;
    assert Pow2(19) == 0x8_0000;
  }

  lemma NineBlockSizes(m: Meta)
    requires Valid(m)
    ensures BlockSizes(m.blockSize)
  {
    var k := OneBit(m.blockSize);
    hide Pow2, CountOnes;
    PowersOfTwo();
    if k <= 19 {
      Pow2Monotone(k, 19);
    } else if k >= 29 {
      Pow2Monotone(29, k);
    }
  }

  /** What validation accepts, in full. */
  lemma ValidExactly(m: Meta)
    ensures Valid(m) <==>
              && BlockSizes(m.blockSize)
              && (m.sectorSize == 512 || m.sectorSize == 4096)
              && 0 < m.diskSize <= DISK_SIZE_MAX && Arith.Mod(m.diskSize, m.sectorSize) == 0
  {
    hide CountOnes, Arith.Mod, Pow2;
    if Valid(m) {
      NineBlockSizes(m);
    }
    PowersOfTwo();
    forall k | 20 <= k <= 28
      ensures CountOnes(Pow2(k)) == 1
    {
      PowerHasOneBit(k);
    }
    assert CountOnes(Pow2(20)) == 1 && CountOnes(Pow2(21)) == 1 && CountOnes(Pow2(22)) == 1;
    assert CountOnes(Pow2(23)) == 1 && CountOnes(Pow2(24)) == 1 && CountOnes(Pow2(25)) == 1;
    assert CountOnes(Pow2(26)) == 1 && CountOnes(Pow2(27)) == 1 && CountOnes(Pow2(28)) == 1;
  }

  /** Sectors in one payload block. */
  function SectorsPerBlock(m: Meta): nat
    requires m.sectorSize > 0
  {
    Arith.Div(m.blockSize, m.sectorSize)
  }

  /**
   What validation buys every address computation: a chunk is exactly 2^23 sectors, blocks
   are whole numbers of bitmap bytes, and a block boundary is never inside a bitmap byte.
   */
  lemma Geometry(m: Meta)
    requires Valid(m)
    ensures m.ChunkRatio() * m.blockSize == SECTORS_PER_CHUNK * m.sectorSize
    ensures 16 <= m.ChunkRatio() <= 32768
    ensures SectorsPerBlock(m) * m.sectorSize == m.blockSize
    ensures SectorsPerBlock(m) % 8 == 0 && SectorsPerBlock(m) >= 256
    ensures m.ChunkRatio() * SectorsPerBlock(m) == SECTORS_PER_CHUNK
  {
    hide Arith.Div, Arith.Mod, CountOnes;
    NineBlockSizes(m);
    if m.blockSize == 0x10_0000 {
      if m.sectorSize == 512 { GeometryCase(m, 4096, 256); } else { GeometryCase(m, 32768, 32); }
    }
    if m.blockSize == 0x20_0000 {
      if m.sectorSize == 512 { GeometryCase(m, 2048, 512); } else { GeometryCase(m, 16384, 64); }
    }
    if m.blockSize == 0x40_0000 {
      if m.sectorSize == 512 { GeometryCase(m, 1024, 1024); } else { GeometryCase(m, 8192, 128); }
    }
    if m.blockSize == 0x80_0000 {
      if m.sectorSize == 512 { GeometryCase(m, 512, 2048); } else { GeometryCase(m, 4096, 256); }
    }
    if m.blockSize == 0x100_0000 {
      if m.sectorSize == 512 { GeometryCase(m, 256, 4096); } else { GeometryCase(m, 2048, 512); }
    }
    if m.blockSize == 0x200_0000 {
      if m.sectorSize == 512 { GeometryCase(m, 128, 8192); } else { GeometryCase(m, 1024, 1024); }
    }
    if m.blockSize == 0x400_0000 {
      if m.sectorSize == 512 { GeometryCase(m, 64, 16384); } else { GeometryCase(m, 512, 2048); }
    }
    if m.blockSize == 0x800_0000 {
      if m.sectorSize == 512 { GeometryCase(m, 32, 32768); } else { GeometryCase(m, 256, 4096); }
    }
    if m.blockSize == 0x1000_0000 {
      if m.sectorSize == 512 { GeometryCase(m, 16, 65536); } else { GeometryCase(m, 128, 8192); }
    }
  }

  lemma GeometryCase(m: Meta, ratio: nat, eighths: nat)
    requires m.sectorSize == 512 || m.sectorSize == 4096
    requires 16 <= ratio <= 32768 && eighths >= 32
    requires ratio * m.blockSize == SECTORS_PER_CHUNK * m.sectorSize
    requires eighths * (8 * m.sectorSize) == m.blockSize > 0
    requires ratio * (8 * eighths) == SECTORS_PER_CHUNK
    ensures m.ChunkRatio() == ratio && SectorsPerBlock(m) == 8 * eighths
  {
    Arith.DivUnique(SECTORS_PER_CHUNK * m.sectorSize, m.blockSize, ratio, 0);
    Arith.DivUnique(m.blockSize, m.sectorSize, 8 * eighths, 0);
  }

  // ── Parsing ───────────────────────────────────────────────────────────────

  /** Table entry `i` names item `guid`, whose data of at least `need` bytes lies in the region. */
  predicate ItemHere(region: seq<byte>, i: nat, guid: seq<byte>, need: nat) {
    var base := 32 + i * 32;
    && base + 32 <= |region|
    && Guid(region, base) == guid
    && LeU32(region, base + 16) + LeU32(region, base + 20) <= |region|
    && LeU32(region, base + 20) >= need
  }

  /** Data offset of the last such item among the first `n` entries. */
  function LastItem(region: seq<byte>, n: nat, guid: seq<byte>, need: nat): (r: Option<nat>)
    ensures r.Some? ==> r.value + need <= |region|
  {
    if n == 0 then None
    else if ItemHere(region, n - 1, guid, need) then Some(LeU32(region, 32 + (n - 1) * 32 + 16))
    else LastItem(region, n - 1, guid, need)
  }

  /** The last virtual disk size item under either identifier. */
  function LastSize(region: seq<byte>, n: nat): (r: Option<nat>)
    ensures r.Some? ==> r.value + 8 <= |region|
  {
    if n == 0 then None
    else if ItemHere(region, n - 1, VIRTUAL_DISK_SIZE, 8) || ItemHere(region, n - 1, VIRTUAL_DISK_SIZE_QEMU, 8)
    then Some(LeU32(region, 32 + (n - 1) * 32 + 16))
    else LastSize(region, n - 1)
  }

  /** The parameters the metadata region records; the sector size defaults to 512. */
  function Parsed(region: seq<byte>): (r: Result<Meta>)
    ensures r != Err(Panic)
  {
    if |region| < 8 then Err(MetadataMissing("region out of bounds"))
    else if region[..8] != METADATA_SIGNATURE then Err(MetadataMissing("bad metadata signature"))
    else
      var n := LeU16(region, 10);
      var fp, size := LastItem(region, n, FILE_PARAMETERS, 8), LastSize(region, n);
      var ss := LastItem(region, n, LOGICAL_SECTOR_SIZE, 4);
      if fp.None? then Err(MetadataMissing("BlockSize"))
      else if size.None? then Err(MetadataMissing("VirtualDiskSize"))
      else Ok(Meta(LeU32(region, fp.value), LeU32(region, fp.value + 4) / 2 % 2 == 1,
                   LeU64(region, size.value), if ss.Some? then LeU32(region, ss.value) else 512))
  }

  method ParseMetadata(region: seq<byte>) returns (r: Result<Meta>)
    ensures r == Parsed(region)
  {
    hide LeU16, LeU32, LeU64, Guid;
    if |region| < 8 {
      return Err(MetadataMissing("region out of bounds"));
    }
    if region[..8] != METADATA_SIGNATURE {
      return Err(MetadataMissing("bad metadata signature"));
    }
    var count := LeU16(region, 10);
    var params: Option<nat>, size: Option<nat>, sector: Option<nat> := None, None, None;
    for i := 0 to count
      invariant params == LastItem(region, i, FILE_PARAMETERS, 8)
      invariant size == LastSize(region, i)
      invariant sector == LastItem(region, i, LOGICAL_SECTOR_SIZE, 4)
    {
      var base := 32 + i * 32;
      if base + 32 <= |region| {
        var guid, itemOff, itemLen := Guid(region, base), LeU32(region, base + 16), LeU32(region, base + 20);
        if itemOff + itemLen <= |region| {
          DistinctItems();
          if guid == FILE_PARAMETERS && itemLen >= 8 {
            params := Some(itemOff);
          } else if (guid == VIRTUAL_DISK_SIZE || guid == VIRTUAL_DISK_SIZE_QEMU) && itemLen >= 8 {
            size := Some(itemOff);
          } else if guid == LOGICAL_SECTOR_SIZE && itemLen >= 4 {
            sector := Some(itemOff);
          }
        }
      }
    }
    if params.None? {
      return Err(MetadataMissing("BlockSize"));
    }
    if size.None? {
      return Err(MetadataMissing("VirtualDiskSize"));
    }
    return Ok(Meta(LeU32(region, params.value), LeU32(region, params.value + 4) / 2 % 2 == 1,
                   LeU64(region, size.value), if sector.Some? then LeU32(region, sector.value) else 512));
  }

  lemma DistinctItems()
    ensures FILE_PARAMETERS != VIRTUAL_DISK_SIZE && FILE_PARAMETERS != VIRTUAL_DISK_SIZE_QEMU
    ensures FILE_PARAMETERS != LOGICAL_SECTOR_SIZE
    ensures LOGICAL_SECTOR_SIZE != VIRTUAL_DISK_SIZE && LOGICAL_SECTOR_SIZE != VIRTUAL_DISK_SIZE_QEMU
  {
    assert FILE_PARAMETERS[0] == 0x37 && LOGICAL_SECTOR_SIZE[0] == 0x1D;
    assert VIRTUAL_DISK_SIZE[0] == VIRTUAL_DISK_SIZE_QEMU[0] == 0x24;
  }
}
