/** The region table: where the BAT and the metadata live. */
module Region {
  import opened Bytes
  import opened Crc
  import opened Header

  const ENTRY_COUNT_MAX: nat := 2048

  const BAT_GUID: seq<byte> :=
    [0x66, 0x77, 0xC2, 0x2D, 0x23, 0xF6, 0x00, 0x42, 0x9D, 0x64, 0x11, 0x5E, 0x9B, 0xFD, 0x4A, 0x08]
  const METADATA_GUID: seq<byte> :=
    [0x06, 0xA2, 0x7C, 0x8B, 0x90, 0x47, 0x9A, 0x4B, 0xB8, 0xFE, 0x57, 0x5F, 0x05, 0x0F, 0x88, 0x6E]

  datatype Region = Region(offset: u64, length: u32) {
    function End(): nat { offset + length }
  }

  datatype RegionTable = RegionTable(bat: Region, metadata: Region)

  /** The first 64 KiB, zero-extended: what the checksum covers. */
  function Covered(slice: seq<byte>): (r: seq<byte>)
    ensures |r| == TABLE_SIZE
  {
    if |slice| >= TABLE_SIZE then slice[..TABLE_SIZE] else slice + Zeros(TABLE_SIZE - |slice|)
  }

  /** Entries the parser visits: the declared count, capped, that lie inside the slice. */
  function Visited(slice: seq<byte>): nat
    requires |slice| >= 16
  {
    Min(Min(LeU32(slice, 8), ENTRY_COUNT_MAX), (|slice| - 16) / 32)
  }

  function EntryGuid(slice: seq<byte>, i: nat): seq<byte> { Guid(slice, 16 + i * 32) }

  function EntryRegion(slice: seq<byte>, i: nat): Region {
    Region(LeU64(slice, 16 + i * 32 + 16), LeU32(slice, 16 + i * 32 + 24))
  }

  /** The region of the last of the first `n` entries with the given identifier. */
  function LastRegion(slice: seq<byte>, n: nat, guid: seq<byte>): Option<Region>
  {
    if n == 0 then None
    else if EntryGuid(slice, n - 1) == guid then Some(EntryRegion(slice, n - 1))
    else LastRegion(slice, n - 1, guid)
  }

  predicate AllInside(slice: seq<byte>, n: nat, containerLen: nat) {
    forall i :: 0 <= i < n ==> EntryRegion(slice, i).End() <= containerLen
  }

  lemma {:induction false} LastInside(slice: seq<byte>, n: nat, guid: seq<byte>, containerLen: nat)
    requires AllInside(slice, n, containerLen)
    ensures var r := LastRegion(slice, n, guid);
            r.Some? ==> r.value.End() <= containerLen
  {
    hide EntryRegion, EntryGuid;
    if n > 0 {
      LastInside(slice, n - 1, guid, containerLen);
    }
  }

  /** The two regions a table at the head of `slice` names, or why it is refused. */
  function Table(slice: seq<byte>, containerLen: nat): (r: Result<RegionTable>)
    ensures r.Ok? ==> r.value.bat.End() <= containerLen && r.value.metadata.End() <= containerLen
    ensures r != Err(Panic)
  {
    if |slice| < 16 || slice[..4] != TABLE_SIGNATURE then Err(InvalidRegionTable)
    else if Crc32c(Unsigned(Covered(slice))) != LeU32(slice, 4) then Err(InvalidRegionTable)
    else if !AllInside(slice, Visited(slice), containerLen) then Err(OffsetOutOfBounds)
    else
      LastInside(slice, Visited(slice), BAT_GUID, containerLen);
      LastInside(slice, Visited(slice), METADATA_GUID, containerLen);
      var bat := LastRegion(slice, Visited(slice), BAT_GUID);
      var metadata := LastRegion(slice, Visited(slice), METADATA_GUID);
      if bat.None? then Err(BatRegionMissing)
      else if metadata.None? then Err(MetadataRegionMissing)
      else Ok(RegionTable(bat.value, metadata.value))
  }

  method ParseRegionTable(data: seq<byte>, offset: nat, containerLen: u64) returns (r: Result<RegionTable>)
    requires offset <= |data|
    ensures r == Table(data[offset..], containerLen)
  {
    hide Crc32c, LeU32, LeU64, AllInside, LastRegion;
    if |data| < offset + 16 {
      return Err(InvalidRegionTable);
    }
    var slice := data[offset..];
    if slice[..4] != TABLE_SIGNATURE {
      return Err(InvalidRegionTable);
    }
    var crc := ComputeCrc32c(Unsigned(Covered(slice)));
    if crc != LeU32(slice, 4) {
      return Err(InvalidRegionTable);
    }
    var inside, bat, metadata := ScanEntries(slice, containerLen);
    if !inside {
      return Err(OffsetOutOfBounds);
    }
    if bat.None? {
      return Err(BatRegionMissing);
    }
    if metadata.None? {
      return Err(MetadataRegionMissing);
    }
    return Ok(RegionTable(bat.value, metadata.value));
  }

  method ScanEntries(slice: seq<byte>, containerLen: u64)
    returns (inside: bool, bat: Option<Region>, metadata: Option<Region>)
    requires |slice| >= 16
    ensures inside == AllInside(slice, Visited(slice), containerLen)
    ensures inside ==> bat == LastRegion(slice, Visited(slice), BAT_GUID)
    ensures inside ==> metadata == LastRegion(slice, Visited(slice), METADATA_GUID)
  {
    hide LeU32, LeU64, Guid;
    var count := Min(LeU32(slice, 8), ENTRY_COUNT_MAX);
    bat, metadata := None, None;
    var i := 0;
    while i < count
      invariant i <= count && i <= Visited(slice)
      invariant AllInside(slice, i, containerLen)
      invariant bat == LastRegion(slice, i, BAT_GUID)
      invariant metadata == LastRegion(slice, i, METADATA_GUID)
    {
      var base := 16 + i * 32;
      if base + 32 > |slice| {
        break;
      }
      var guid, region := Guid(slice, base), Region(LeU64(slice, base + 16), LeU32(slice, base + 24));
      assert region == EntryRegion(slice, i);
      if region.End() >= TWO64 || region.End() > containerLen {
        return false, bat, metadata;
      }
      DistinctGuids();
      if guid == BAT_GUID {
        bat := Some(region);
      } else if guid == METADATA_GUID {
        metadata := Some(region);
      }
      i := i + 1;
    }
    assert i == Visited(slice);
    return true, bat, metadata;
  }

  lemma DistinctGuids()
    ensures BAT_GUID != METADATA_GUID
  {
    assert BAT_GUID[0] == 0x66 && METADATA_GUID[0] == 0x06;
  }
}
