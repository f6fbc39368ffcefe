/** The analyser: which findings it reports on the blocks that the repair tool can rewrite. */
module Integrity {
  import opened Bytes
  import opened Arith
  import opened Header
  import opened Region
  import Metadata
  import Bat
  import Coverage
  import LogCheck
  import Orders
  import Sweeps

  const MIN_SIZE: nat := 0x5_0000
  const ITEM_COUNT_MAX: nat := 256

  datatype Copy = First | Second

  datatype Finding =
    | ContainerTruncated
    | BadMagic
    | HeaderChecksumMismatch(copy: Copy)
    | BothHeaderCopiesInvalid
    | DirtyLog
    | RegionTableChecksumMismatch(copy: Copy)
    | BothRegionTableCopiesInvalid
    | InLog(logFinding: LogCheck.LogFinding)
    | BatSizeMetadataMismatch
    | VirtualDiskSizeOverreported
    | MetadataItemsOverlap(items: Sweeps.ItemsOverlap)
    | SectorBitmapInvalidState(index: nat)
    | PartiallyPresentBlock(index: nat)
    | UndefinedBlockState(index: nat)
    | UnmappedBlockInNonDifferencing(index: nat)
    | BatEntryUnaligned(index: nat)
    | BatEntryInStructuralRegion(index: nat)
    | BatEntryBeyondContainer(index: nat)
    | MissingSectorBitmap(index: nat, slot: nat)
    | BatEntriesOverlap(a: nat, b: nat)
    | Other(code: nat)

  // ── Checksummed blocks ────────────────────────────────────────────────────

  predicate TableOk(data: seq<byte>, at: nat) {
    && at + TABLE_SIZE <= |data|
    && SignatureAt(data, at, TABLE_SIGNATURE)
    && ChecksumOk(data[at..at + TABLE_SIZE])
  }

  method CheckTable(data: seq<byte>, at: nat) returns (ok: bool)
    ensures ok == TableOk(data, at)
  {
    hide ChecksumOk;
    if |data| < at + TABLE_SIZE {
      return false;
    }
    var block := data[at..at + TABLE_SIZE];
    SliceSlice(data, at, at + TABLE_SIZE, 0, 4);
    if block[..4] != TABLE_SIGNATURE {
      return false;
    }
    ok := VerifyCrc32c(block);
  }

  function HeaderFindings(data: seq<byte>): seq<Finding> {
    match (HeaderOk(data, HEADER1), HeaderOk(data, HEADER2))
    case (true, true) => []
    case (false, true) => [HeaderChecksumMismatch(First)]
    case (true, false) => [HeaderChecksumMismatch(Second)]
    case (false, false) => [BothHeaderCopiesInvalid]
  }

  function TableFindings(data: seq<byte>): seq<Finding> {
    match (TableOk(data, TABLE1), TableOk(data, TABLE2))
    case (true, true) => []
    case (false, true) => [RegionTableChecksumMismatch(First)]
    case (true, false) => [RegionTableChecksumMismatch(Second)]
    case (false, false) => [BothRegionTableCopiesInvalid]
  }

  // ── Regions ───────────────────────────────────────────────────────────────

  /** What the analyser knows of the image's layout. */
  datatype Layout = Layout(bat: Region, metadata: Region, blockSize: Option<u32>, sectorSize: Option<u32>,
                           diskSize: Option<u64>, hasParent: bool)
  {
    function ChunkRatio(): Option<nat> {
      if blockSize.None? || blockSize.value == 0 then None
      else if sectorSize.None? then Some(Div(Metadata.SECTORS_PER_CHUNK * 512, blockSize.value))
      else if sectorSize.value == 0 then None
      else Some(Div(Metadata.SECTORS_PER_CHUNK * sectorSize.value, blockSize.value))
    }

    function Count(): nat { bat.length / 8 }

    /** The size formula divides by the chunk ratio, which is zero for blocks larger than a chunk. */
    predicate DividesByZero() {
      diskSize.Some? && ChunkRatio() == Some(0)
    }

    /** Entries that describe a chunk's sector bitmap instead of a payload block. */
    predicate IsBitmapSlot(i: nat) {
      ChunkRatio().Some? && Mod(i, ChunkRatio().value + 1) == ChunkRatio().value
    }
  }

  /** Metadata table entries visited. */
  function ItemVisits(region: seq<byte>): nat {
    Min(Min(LeU16(region, 10), ITEM_COUNT_MAX), if |region| >= 32 then (|region| - 32) / 32 else 0)
  }

  function ItemOffset(region: seq<byte>, i: nat): u32 { LeU32(region, 32 + i * 32 + 16) }

  /** Offset from the region's start of the last of `n` items with `guid` and `width` bytes in the container. */
  function LastField(region: seq<byte>, room: nat, n: nat, guid: seq<byte>, width: nat): (r: Option<nat>)
    ensures r.Some? ==> r.value + width <= room
  {
    if n == 0 then None
    else if Guid(region, 32 + (n - 1) * 32) == guid && ItemOffset(region, n - 1) + width <= room
    then Some(ItemOffset(region, n - 1))
    else LastField(region, room, n - 1, guid, width)
  }

  /** The container has a metadata table where the region table says. */
  predicate HasItems(data: seq<byte>, metadata: Region) {
    && metadata.End() <= |data|
    && metadata.length >= 8
    && data[metadata.offset..metadata.offset + 8] == Metadata.METADATA_SIGNATURE
  }

  /** Where in the region the file parameters, the sector size and the disk size are. */
  datatype Fields = Fields(params: Option<nat>, sector: Option<nat>, size: Option<nat>)

  function FieldsIn(region: seq<byte>, room: nat): Fields {
    Fields(LastField(region, room, ItemVisits(region), Metadata.FILE_PARAMETERS, 8),
           LastField(region, room, ItemVisits(region), Metadata.LOGICAL_SECTOR_SIZE, 4),
           LastField(region, room, ItemVisits(region), Metadata.VIRTUAL_DISK_SIZE, 8))
  }

  function Described(data: seq<byte>, bat: Region, metadata: Region, at: Fields): Layout {
    Layout(bat, metadata,
           if at.params.Some? then Some(LeU32(data, metadata.offset + at.params.value)) else None,
           if at.sector.Some? then Some(LeU32(data, metadata.offset + at.sector.value)) else None,
           if at.size.Some? then Some(LeU64(data, metadata.offset + at.size.value)) else None,
           at.params.Some? && LeU32(data, metadata.offset + at.params.value + 4) / 2 % 2 == 1)
  }

  function LayoutOf(data: seq<byte>, bat: Region, metadata: Region): Layout {
    if !HasItems(data, metadata) then Layout(bat, metadata, None, None, None, false)
    else
      Described(data, bat, metadata,
                FieldsIn(data[metadata.offset..metadata.End()], |data| - metadata.offset))
  }

  /** The regions a 64 KiB table names, checksums aside. */
  function TableRegions(block: seq<byte>): Option<RegionTable>
    requires |block| == TABLE_SIZE
  {
    var bat := LastRegion(block, Visited(block), BAT_GUID);
    var metadata := LastRegion(block, Visited(block), METADATA_GUID);
    if bat.None? || metadata.None? then None else Some(RegionTable(bat.value, metadata.value))
  }

  function RegionsAt(data: seq<byte>, at: nat): Option<RegionTable> {
    if TableOk(data, at) then TableRegions(data[at..at + TABLE_SIZE]) else None
  }

  /** From the first table copy that verifies and names both regions. */
  function NamedRegions(data: seq<byte>): Option<RegionTable> {
    var first := RegionsAt(data, TABLE1);
    if first.Some? then first else RegionsAt(data, TABLE2)
  }

  function ParsedLayout(data: seq<byte>): Option<Layout> {
    match NamedRegions(data)
    case None => None
    case Some(t) => Some(LayoutOf(data, t.bat, t.metadata))
  }

  method ParseRegions(data: seq<byte>) returns (r: Option<Layout>)
    ensures r == ParsedLayout(data)
  {
    hide TableOk, TableRegions, LayoutOf;
    r := TryParseRegions(data, TABLE1);
    if r.None? {
      r := TryParseRegions(data, TABLE2);
    }
  }

  method TryParseRegions(data: seq<byte>, at: nat) returns (r: Option<Layout>)
    ensures r == match RegionsAt(data, at)
                 case None => None
                 case Some(t) => Some(LayoutOf(data, t.bat, t.metadata))
  {
    hide ChecksumOk, LeU32, LeU64, LastRegion, LayoutOf;
    var ok := CheckTable(data, at);
    if !ok {
      return None;
    }
    var block := data[at..at + TABLE_SIZE];
    var count := Min(LeU32(block, 8), ENTRY_COUNT_MAX);
    var bat: Option<Region>, metadata: Option<Region> := None, None;
    var i := 0;
    NoRegions(block);
    while i < count
      invariant i <= count && i <= Visited(block)
      invariant bat == LastRegion(block, i, BAT_GUID)
      invariant metadata == LastRegion(block, i, METADATA_GUID)
    {
      if 16 + i * 32 + 32 > |block| {
        break;
      }
      OneMoreRegion(block, i, BAT_GUID);
      OneMoreRegion(block, i, METADATA_GUID);
      DistinctGuids();
      if EntryGuid(block, i) == BAT_GUID {
        bat := Some(EntryRegion(block, i));
      } else if EntryGuid(block, i) == METADATA_GUID {
        metadata := Some(EntryRegion(block, i));
      }
      i := i + 1;
    }
    assert i == Visited(block);
    if bat.None? || metadata.None? {
      return None;
    }
    r := ReadItems(data, bat.value, metadata.value);
  }

  lemma NoRegions(block: seq<byte>)
    ensures LastRegion(block, 0, BAT_GUID) == None && LastRegion(block, 0, METADATA_GUID) == None
  {}

  lemma OneMoreRegion(block: seq<byte>, i: nat, guid: seq<byte>)
    ensures LastRegion(block, i + 1, guid)
         == if EntryGuid(block, i) == guid then Some(EntryRegion(block, i)) else LastRegion(block, i, guid)
  {
    hide EntryGuid, EntryRegion;
  }

  method ReadItems(data: seq<byte>, bat: Region, metadata: Region) returns (r: Option<Layout>)
    ensures r == Some(LayoutOf(data, bat, metadata))
  {
    hide LeU16, LeU32, LeU64, Guid, LastField;
    if |data| < Min(metadata.End(), TWO64 - 1) || metadata.length < 8 || metadata.End() > |data| {
      return Some(Layout(bat, metadata, None, None, None, false));
    }
    var region := data[metadata.offset..metadata.End()];
    SliceSlice(data, metadata.offset, metadata.End(), 0, 8);
    if region[..8] != Metadata.METADATA_SIGNATURE {
      return Some(Layout(bat, metadata, None, None, None, false));
    }
    var count := Min(LeU16(region, 10), ITEM_COUNT_MAX);
    var params: Option<nat>, sector: Option<nat>, size: Option<nat> := None, None, None;
    ghost var room := |data| - metadata.offset;
    var i := 0;
    NoFields(region, room);
    while i < count
      invariant i <= count && i <= ItemVisits(region)
      invariant params == LastField(region, room, i, Metadata.FILE_PARAMETERS, 8)
      invariant sector == LastField(region, room, i, Metadata.LOGICAL_SECTOR_SIZE, 4)
      invariant size == LastField(region, room, i, Metadata.VIRTUAL_DISK_SIZE, 8)
    {
      var base := 32 + i * 32;
      if base + 32 > |region| {
        break;
      }
      OneMoreField(region, room, i, Metadata.FILE_PARAMETERS, 8);
      OneMoreField(region, room, i, Metadata.LOGICAL_SECTOR_SIZE, 4);
      OneMoreField(region, room, i, Metadata.VIRTUAL_DISK_SIZE, 8);
      Metadata.DistinctItems();
      var guid, itemOff := Guid(region, base), LeU32(region, base + 16);
      var dataStart := metadata.offset + itemOff;
      if guid == Metadata.FILE_PARAMETERS && |data| >= dataStart + 8 {
        params := Some(itemOff);
      } else if guid == Metadata.VIRTUAL_DISK_SIZE && |data| >= dataStart + 8 {
        size := Some(itemOff);
      } else if guid == Metadata.LOGICAL_SECTOR_SIZE && |data| >= dataStart + 4 {
        sector := Some(itemOff);
      }
      i := i + 1;
    }
    assert i == ItemVisits(region);
    return Some(Layout(bat, metadata,
      if params.Some? then Some(LeU32(data, metadata.offset + params.value)) else None,
      if sector.Some? then Some(LeU32(data, metadata.offset + sector.value)) else None,
      if size.Some? then Some(LeU64(data, metadata.offset + size.value)) else None,
      params.Some? && LeU32(data, metadata.offset + params.value + 4) / 2 % 2 == 1));
  }

  lemma NoFields(region: seq<byte>, room: nat)
    ensures forall guid, width: nat :: LastField(region, room, 0, guid, width) == None
  {}

  lemma OneMoreField(region: seq<byte>, room: nat, i: nat, guid: seq<byte>, width: nat)
    ensures LastField(region, room, i + 1, guid, width)
         == if Guid(region, 32 + i * 32) == guid && ItemOffset(region, i) + width <= room
            then Some(ItemOffset(region, i)) else LastField(region, room, i, guid, width)
  {
    hide ItemOffset, Guid;
  }

  // ── The block table ───────────────────────────────────────────────────────

  function RawEntry(data: seq<byte>, l: Layout, i: nat): u64 { LeU64(data, l.bat.offset + i * 8) }

  function OffsetOf(raw: u64): nat { raw / MIB * MIB }

  predicate ReservedBitsSet(raw: u64) { raw % MIB / 8 != 0 }

  /** Where the active header's log lies, if it is dirty. */
  function LogZone(data: seq<byte>): Option<(nat, nat)> {
    match ActiveOffset(data)
    case None => None
    case Some(at) =>
      var h := HeaderAt(data, at);
      if h.logLength > 0 then Some((h.logOffset, Min(h.logOffset + h.logLength, TWO64 - 1))) else None
  }

  /** Container offsets no payload block may start at. */
  predicate Structural(l: Layout, zone: Option<(nat, nat)>, at: nat) {
    || at < MIN_SIZE
    || l.metadata.offset <= at < Min(l.metadata.End(), TWO64 - 1)
    || (zone.Some? && zone.value.0 <= at < zone.value.1)
  }

  /** The bitmap entry of the chunk that entry `i` belongs to. */
  function SlotFor(i: nat, ratio: nat): nat { Div(i, ratio + 1) * (ratio + 1) + ratio }

  function SlotFindings(data: seq<byte>, l: Layout, i: nat): seq<Finding> {
    var r := l.ChunkRatio();
    if r.None? then []
    else
      var slot := SlotFor(i, r.value);
      if slot < l.Count() && RawEntry(data, l, slot) % 8 == 0 then [MissingSectorBitmap(i, slot)] else []
  }

  /** What the scan says of one entry. */
  function EntryFindings(data: seq<byte>, l: Layout, zone: Option<(nat, nat)>, i: nat): seq<Finding> {
    var raw := RawEntry(data, l, i);
    var state := raw % 8;
    if l.IsBitmapSlot(i) then if state != 0 && state != 6 then [SectorBitmapInvalidState(i)] else []
    else if state == 7 then [PartiallyPresentBlock(i)]
    else if state == 1 then [UndefinedBlockState(i)]
    else if state == 3 then if l.hasParent then [] else [UnmappedBlockInNonDifferencing(i)]
    else if state != 6 then []
    else
      (if ReservedBitsSet(raw) then [BatEntryUnaligned(i)] else [])
      + (if Structural(l, zone, OffsetOf(raw)) then [BatEntryInStructuralRegion(i)] else [])
      + if OffsetOf(raw) >= |data| then [BatEntryBeyondContainer(i)] else SlotFindings(data, l, i)
  }

  /** Payload blocks whose data lies in the container, by offset in MiB. */
  function EntryPresent(data: seq<byte>, l: Layout, i: nat): seq<Sweeps.Keyed> {
    var raw := RawEntry(data, l, i);
    if !l.IsBitmapSlot(i) && raw % 8 == 6 && OffsetOf(raw) < |data| then [Sweeps.Keyed(raw / MIB, i)] else []
  }

  function ScanFindings(data: seq<byte>, l: Layout, zone: Option<(nat, nat)>, n: nat): seq<Finding> {
    if n == 0 then []
    else ScanFindings(data, l, zone, n - 1) + EntryFindings(data, l, zone, n - 1)
  }

  function ScanPresent(data: seq<byte>, l: Layout, n: nat): seq<Sweeps.Keyed> {
    if n == 0 then [] else ScanPresent(data, l, n - 1) + EntryPresent(data, l, n - 1)
  }

  method ScanEntries(data: seq<byte>, l: Layout, zone: Option<(nat, nat)>)
    returns (issues: seq<Finding>, present: seq<Sweeps.Keyed>)
    requires l.bat.End() <= |data| < TWO63
    ensures issues == ScanFindings(data, l, zone, l.Count())
    ensures present == ScanPresent(data, l, l.Count())
  {
    hide EntryFindings, EntryPresent, LeU64;
    issues, present := [], [];
    for i := 0 to l.Count()
      invariant issues == ScanFindings(data, l, zone, i)
      invariant present == ScanPresent(data, l, i)
    {
      var found, here := ScanEntry(data, l, zone, i);
      issues, present := issues + found, present + here;
    }
  }

  method ScanEntry(data: seq<byte>, l: Layout, zone: Option<(nat, nat)>, i: nat)
    returns (issues: seq<Finding>, present: seq<Sweeps.Keyed>)
    requires l.bat.End() <= |data| < TWO63
    ensures issues == EntryFindings(data, l, zone, i) && present == EntryPresent(data, l, i)
  {
    hide LeU64, Structural, SlotFor, Layout.IsBitmapSlot, Layout.ChunkRatio;
    issues, present := [], [];
    var raw := RawEntry(data, l, i);
    var state := raw % 8;
    if l.IsBitmapSlot(i) {
      if state != 0 && state != 6 {
        issues := issues + [SectorBitmapInvalidState(i)];
      }
      return;
    }
    if state == 7 {
      issues := issues + [PartiallyPresentBlock(i)];
    } else if state == 1 {
      issues := issues + [UndefinedBlockState(i)];
    } else if state == 3 && !l.hasParent {
      issues := issues + [UnmappedBlockInNonDifferencing(i)];
    }
    if state != 6 {
      return;
    }
    if ReservedBitsSet(raw) {
      issues := issues + [BatEntryUnaligned(i)];
    }
    if Structural(l, zone, OffsetOf(raw)) {
      issues := issues + [BatEntryInStructuralRegion(i)];
    }
    if OffsetOf(raw) >= |data| {
      issues := issues + [BatEntryBeyondContainer(i)];
      return;
    }
    if l.ChunkRatio().Some? {
      var slot := SlotFor(i, l.ChunkRatio().value);
      if slot < l.Count() && RawEntry(data, l, slot) % 8 == 0 {
        issues := issues + [MissingSectorBitmap(i, slot)];
      }
    }
    present := [Sweeps.Keyed(raw / MIB, i)];
  }

  /** The analyser's payload entries and bitmap slots are the reader's. */
  lemma SlotsAgree(l: Layout, block: nat)
    requires l.ChunkRatio().Some? && l.ChunkRatio().value > 0
    ensures var ratio := l.ChunkRatio().value;
            && !l.IsBitmapSlot(Bat.PayloadIndex(block, ratio))
            && l.IsBitmapSlot(Bat.BitmapIndex(block, ratio))
            && SlotFor(Bat.PayloadIndex(block, ratio), ratio) == Bat.BitmapIndex(block, ratio)
  {
    hide Div, Mod, Layout.ChunkRatio;
    Bat.PayloadIndexPlace(block, l.ChunkRatio().value);
  }

  // ── The whole analysis ────────────────────────────────────────────────────

  predicate Readable(data: seq<byte>) {
    && MIN_SIZE <= |data|
    && data[..8] == MAGIC
  }

  /** The table scan runs: the regions are known and the BAT lies in the container. */
  predicate Scannable(data: seq<byte>) {
    && Readable(data)
    && ParsedLayout(data).Some?
    && ParsedLayout(data).value.bat.End() <= |data|
    && ParsedLayout(data).value.bat.length >= 8
  }

  function DirtyFindings(data: seq<byte>): seq<Finding> {
    if LogZone(data).Some? then [DirtyLog] else []
  }

  function LogPart(data: seq<byte>): seq<Finding>
    requires |data| < TWO63
  {
    match LogCheck.ScannedLog(data)
    case None => []
    case Some((log, h)) => Wrapped(LogCheck.LogFindings(log, h.logOffset, h.logGuid))
  }

  function Wrapped(fs: seq<LogCheck.LogFinding>): (r: seq<Finding>)
    ensures |r| == |fs| && forall k :: 0 <= k < |fs| ==> r[k] == InLog(fs[k])
  {
    seq(|fs|, k requires 0 <= k < |fs| => InLog(fs[k]))
  }

  function OverlapFindings(pairs: seq<(Sweeps.Keyed, Sweeps.Keyed)>): (r: seq<Finding>)
    ensures |r| == |pairs|
    ensures forall k :: 0 <= k < |r| ==> r[k] == BatEntriesOverlap(pairs[k].0.value, pairs[k].1.value)
  {
    seq(|pairs|, k requires 0 <= k < |pairs| => BatEntriesOverlap(pairs[k].0.value, pairs[k].1.value))
  }

  function ItemFindings(overlaps: seq<Sweeps.ItemsOverlap>): (r: seq<Finding>)
    ensures |r| == |overlaps| && forall k :: 0 <= k < |r| ==> r[k] == MetadataItemsOverlap(overlaps[k])
  {
    seq(|overlaps|, k requires 0 <= k < |overlaps| => MetadataItemsOverlap(overlaps[k]))
  }

  /** Item ranges the overlap sweep orders. */
  function SweptItems(data: seq<byte>): seq<Sweeps.Keyed> {
    match NamedRegions(data)
    case None => []
    case Some(t) =>
      if HasItems(data, t.metadata) then Sweeps.ItemRanges(data[t.metadata.offset..t.metadata.End()]) else []
  }

  /** The verdict of the size formula, where it does not divide by zero. */
  function SizeFindings(l: Layout): seq<Finding> {
    var ratio := l.ChunkRatio();
    if ratio.None? || l.diskSize.None? || l.DividesByZero() then []
    else if Coverage.SizeMismatch(l.blockSize.value, l.diskSize.value, ratio.value, l.bat.length)
    then [BatSizeMetadataMismatch] else []
  }

  function CapacityFindings(l: Layout): seq<Finding> {
    var ratio := l.ChunkRatio();
    if ratio.None? || l.diskSize.None? then []
    else if Coverage.SizeOverreported(l.blockSize.value, l.diskSize.value, ratio.value, l.Count())
    then [VirtualDiskSizeOverreported] else []
  }

  function SweptBlocks(data: seq<byte>): seq<Sweeps.Keyed> {
    if Scannable(data) then
      var l := ParsedLayout(data).value;
      ScanPresent(data, l, l.Count())
    else []
  }

  function TablePart(data: seq<byte>): seq<Finding> {
    if Scannable(data) then
      var l := ParsedLayout(data).value;
      SizeFindings(l) + ScanFindings(data, l, LogZone(data), l.Count())
    else []
  }

  function CapacityPart(data: seq<byte>): seq<Finding> {
    if Scannable(data) then CapacityFindings(ParsedLayout(data).value) else []
  }

  /** The images on which the analysis, and with it every repair, panics. */
  predicate Panics(data: seq<byte>) {
    Scannable(data) && ParsedLayout(data).value.DividesByZero()
  }

  /** The header and region table findings. */
  function BlockPart(data: seq<byte>): seq<Finding> {
    HeaderFindings(data) + DirtyFindings(data) + TableFindings(data)
  }

  function ContentPart(data: seq<byte>, items: seq<Sweeps.Keyed>, blocks: seq<Sweeps.Keyed>): seq<Finding>
    requires |data| < TWO63
  {
    LogPart(data) + ItemFindings(Sweeps.NeighbourOverlaps(items))
    + TablePart(data) + OverlapFindings(Sweeps.SharedKeys(blocks)) + CapacityPart(data)
  }

  /**
   The findings in report order. `items` and `blocks` are the orders the two unstable sorts
   leave their lists in.
   */
  function Analysis(data: seq<byte>, items: seq<Sweeps.Keyed>, blocks: seq<Sweeps.Keyed>): seq<Finding>
    requires |data| < TWO63
  {
    if |data| < MIN_SIZE then [ContainerTruncated]
    else if !Readable(data) then [Finding.BadMagic]
    else if TableFindings(data) == [BothRegionTableCopiesInvalid] then BlockPart(data)
    else BlockPart(data) + ContentPart(data, items, blocks)
  }

  method Analyse(data: seq<byte>)
    returns (r: Result<seq<Finding>>, items: seq<Sweeps.Keyed>, blocks: seq<Sweeps.Keyed>)
    requires |data| < TWO63
    ensures Readable(data) && TableFindings(data) != [BothRegionTableCopiesInvalid] && r.Ok? ==>
              Sweeps.SortOf(items, SweptItems(data)) && Sweeps.SortOf(blocks, SweptBlocks(data))
    ensures r == if Panics(data) then Err(Panic) else Ok(Analysis(data, items, blocks))
  {
    hide ChecksumOk, LeU32, LeU64, TableOk, HeaderOk, LogCheck.ScannedLog, Sweeps.SortOf, LayoutOf, TableRegions;
    hide Layout.DividesByZero, HeaderFindings, DirtyFindings, TableFindings, LogPart, TablePart, CapacityPart;
    items, blocks := [], [];
    if |data| < MIN_SIZE {
      return Ok([ContainerTruncated]), items, blocks;
    }
    if data[..8] != MAGIC {
      return Ok([Finding.BadMagic]), items, blocks;
    }
    var issues := CheckHeaders(data);
    var tables := CheckTables(data);
    issues := issues + tables;
    if tables == [BothRegionTableCopiesInvalid] {
      NoTableNoPanic(data);
      return Ok(issues), items, blocks;
    }
    var log := CheckDirtyLog(data);
    var layout := ParseRegions(data);
    var overlaps: seq<Sweeps.ItemsOverlap>;
    overlaps, items := CheckItems(data, layout);
    var panicked, entries, shared, capacity;
    panicked, entries, shared, capacity, blocks := CheckBat(data, layout);
    if panicked {
      return Err(Panic), items, blocks;
    }
    issues := issues + (log + ItemFindings(overlaps) + entries + OverlapFindings(shared) + capacity);
    return Ok(issues), items, blocks;
  }

  lemma NoTableNoPanic(data: seq<byte>)
    requires TableFindings(data) == [BothRegionTableCopiesInvalid]
    ensures !Panics(data)
  {
    if ParsedLayout(data).Some? {
      LayoutNeedsTable(data);
    }
  }

  method CheckHeaders(data: seq<byte>) returns (issues: seq<Finding>)
    ensures issues == HeaderFindings(data) + DirtyFindings(data)
  {
    hide ChecksumOk, LeU32, LeU64, HeaderOk;
    var h1 := ParseOneHeader(data, HEADER1);
    var h2 := ParseOneHeader(data, HEADER2);
    match (h1, h2) {
      case (Err(_), Err(_)) => return [BothHeaderCopiesInvalid];
      case (Err(_), Ok(_)) => issues := [HeaderChecksumMismatch(First)];
      case (Ok(_), Err(_)) => issues := [HeaderChecksumMismatch(Second)];
      case (Ok(_), Ok(_)) => issues := [];
    }
    var at := LogCheck.ActiveHeaderBlock(data);
    if at.Some? && HeaderAt(data, at.value).logLength > 0 {
      issues := issues + [DirtyLog];
    }
  }

  method CheckTables(data: seq<byte>) returns (issues: seq<Finding>)
    ensures issues == TableFindings(data)
  {
    hide TableOk;
    var ok1 := CheckTable(data, TABLE1);
    var ok2 := CheckTable(data, TABLE2);
    match (ok1, ok2) {
      case (false, false) => return [BothRegionTableCopiesInvalid];
      case (false, true) => return [RegionTableChecksumMismatch(First)];
      case (true, false) => return [RegionTableChecksumMismatch(Second)];
      case (true, true) => return [];
    }
  }

  method CheckDirtyLog(data: seq<byte>) returns (issues: seq<Finding>)
    requires |data| < TWO63
    ensures issues == LogPart(data)
  {
    hide LogCheck.ScannedLog, LogCheck.LogFindings;
    var found := LogCheck.CheckLog(data);
    issues := Wrapped(found);
  }

  method CheckItems(data: seq<byte>, layout: Option<Layout>)
    returns (overlaps: seq<Sweeps.ItemsOverlap>, items: seq<Sweeps.Keyed>)
    requires layout == ParsedLayout(data)
    ensures Sweeps.SortOf(items, SweptItems(data)) && overlaps == Sweeps.NeighbourOverlaps(items)
  {
    hide ParsedLayout, NamedRegions, Sweeps.ItemRanges, Sweeps.NeighbourOverlaps, Sweeps.SortOf;
    overlaps, items := [], [];
    LayoutGates(data);
    NothingSwept();
    if layout.None? {
      return;
    }
    LayoutRegions(data);
    var metadata := layout.value.metadata;
    if metadata.End() <= |data| && metadata.length >= 8 {
      var region := data[metadata.offset..metadata.End()];
      SliceSlice(data, metadata.offset, metadata.End(), 0, 8);
      if region[..8] == Metadata.METADATA_SIGNATURE {
        overlaps, items := Sweeps.SweepItems(region);
      }
    }
  }

  lemma LayoutGates(data: seq<byte>)
    ensures ParsedLayout(data).None? <==> NamedRegions(data).None?
  {
    hide NamedRegions;
  }

  lemma NothingSwept()
    ensures Sweeps.SortOf([], []) && Sweeps.NeighbourOverlaps([]) == []
  {}

  lemma LayoutRegions(data: seq<byte>)
    requires ParsedLayout(data).Some?
    ensures NamedRegions(data).Some?
    ensures ParsedLayout(data).value.bat == NamedRegions(data).value.bat
    ensures ParsedLayout(data).value.metadata == NamedRegions(data).value.metadata
  {}

  method CheckBat(data: seq<byte>, layout: Option<Layout>)
    returns (panicked: bool, entries: seq<Finding>, shared: seq<(Sweeps.Keyed, Sweeps.Keyed)>,
             capacity: seq<Finding>, blocks: seq<Sweeps.Keyed>)
    requires Readable(data) && |data| < TWO63 && layout == ParsedLayout(data)
    ensures panicked == Panics(data)
    ensures !panicked ==> entries == TablePart(data) && capacity == CapacityPart(data)
    ensures !panicked ==> Sweeps.SortOf(blocks, SweptBlocks(data)) && shared == Sweeps.SharedKeys(blocks)
  {
    hide ParsedLayout, ScanFindings, ScanPresent, LogZone, Sweeps.Ascending, SizeFindings, CapacityFindings;
    hide Layout.DividesByZero;
    panicked, entries, shared, capacity, blocks := false, [], [], [], [];
    if layout.None? || |data| < Min(layout.value.bat.End(), TWO64 - 1) || layout.value.bat.length < 8 {
      NothingToSort();
      return;
    }
    var l := layout.value;
    var size;
    panicked, size := CheckSizeFormula(l);
    if panicked {
      return;
    }
    var zone := ReadLogZone(data);
    var present;
    entries, present := ScanEntries(data, l, zone);
    entries := size + entries;
    blocks := Sweeps.SortByKey(present);
    shared := Sweeps.SweepKeys(blocks);
    capacity := CapacityFindings(l);
  }

  method CheckSizeFormula(l: Layout) returns (panicked: bool, issues: seq<Finding>)
    ensures panicked == l.DividesByZero()
    ensures !panicked ==> issues == SizeFindings(l)
  {
    hide Coverage.SizeMismatch, Div;
    var ratio := l.ChunkRatio();
    if l.blockSize.None? || l.diskSize.None? || ratio.None? {
      return false, [];
    }
    if ratio.value == 0 {
      return true, [];
    }
    if !Coverage.SizeMismatch(l.blockSize.value, l.diskSize.value, ratio.value, l.bat.length) {
      return false, [];
    }
    return false, [BatSizeMetadataMismatch];
  }

  method ReadLogZone(data: seq<byte>) returns (zone: Option<(nat, nat)>)
    ensures zone == LogZone(data)
  {
    hide ActiveOffset, HeaderAt;
    var at := LogCheck.ActiveHeaderBlock(data);
    if at.None? {
      return None;
    }
    var h := HeaderAt(data, at.value);
    if h.logLength == 0 {
      return None;
    }
    return Some((h.logOffset, Min(h.logOffset + h.logLength, TWO64 - 1)));
  }

  lemma NothingToSort()
    ensures Sweeps.SortOf([], []) && Sweeps.SharedKeys([]) == []
  {}

  // ── What a finding means ──────────────────────────────────────────────────

  /** Findings that name a BAT entry to rewrite. */
  predicate NamesEntry(f: Finding) {
    f.UndefinedBlockState? || f.BatEntryUnaligned? || f.BatEntryInStructuralRegion? || f.BatEntryBeyondContainer?
  }

  predicate Repairable(f: Finding) {
    f.HeaderChecksumMismatch? || f.RegionTableChecksumMismatch? || NamesEntry(f)
  }

  /** Findings on one BAT entry. */
  predicate OnEntry(f: Finding) {
    || NamesEntry(f) || f.SectorBitmapInvalidState? || f.PartiallyPresentBlock?
    || f.UnmappedBlockInNonDifferencing? || f.MissingSectorBitmap?
  }

  /** The condition of an entry that a finding on it stands for. */
  predicate Holds(data: seq<byte>, l: Layout, zone: Option<(nat, nat)>, f: Finding)
    requires OnEntry(f)
  {
    var i := f.index;
    var raw := RawEntry(data, l, i);
    var payload, present := !l.IsBitmapSlot(i), !l.IsBitmapSlot(i) && raw % 8 == 6;
    if f.SectorBitmapInvalidState? then !payload && raw % 8 != 0 && raw % 8 != 6
    else if f.PartiallyPresentBlock? then payload && raw % 8 == 7
    else if f.UndefinedBlockState? then payload && raw % 8 == 1
    else if f.UnmappedBlockInNonDifferencing? then payload && raw % 8 == 3 && !l.hasParent
    else if f.BatEntryUnaligned? then present && ReservedBitsSet(raw)
    else if f.BatEntryInStructuralRegion? then present && Structural(l, zone, OffsetOf(raw))
    else if f.BatEntryBeyondContainer? then present && OffsetOf(raw) >= |data|
    else
      && present && OffsetOf(raw) < |data| && l.ChunkRatio().Some? && f.slot == SlotFor(i, l.ChunkRatio().value)
      && f.slot < l.Count() && RawEntry(data, l, f.slot) % 8 == 0
  }

  lemma InEntry(data: seq<byte>, l: Layout, zone: Option<(nat, nat)>, i: nat, f: Finding)
    requires OnEntry(f)
    ensures f in EntryFindings(data, l, zone, i) <==> f.index == i && Holds(data, l, zone, f)
  {
    hide LeU64, Structural, Layout.IsBitmapSlot, SlotFor, Layout.ChunkRatio;
  }

  lemma EntryFindingsOnEntries(data: seq<byte>, l: Layout, zone: Option<(nat, nat)>, i: nat)
    ensures forall f :: f in EntryFindings(data, l, zone, i) ==> OnEntry(f)
  {
    hide LeU64, Structural, Layout.IsBitmapSlot, SlotFor, Layout.ChunkRatio;
  }

  /** The scan reports exactly the conditions that hold of the entries it visits. */
  lemma {:induction false} InScan(data: seq<byte>, l: Layout, zone: Option<(nat, nat)>, n: nat, f: Finding)
    ensures f in ScanFindings(data, l, zone, n) <==> OnEntry(f) && f.index < n && Holds(data, l, zone, f)
  {
    hide EntryFindings, Holds;
    if n > 0 {
      InScan(data, l, zone, n - 1, f);
      EntryFindingsOnEntries(data, l, zone, n - 1);
      if OnEntry(f) {
        InEntry(data, l, zone, n - 1, f);
      }
    }
  }

  /** Entry `i` describes a payload block in a table the analyser scans. */
  predicate PayloadEntry(data: seq<byte>, i: nat) {
    && Scannable(data)
    && i < ParsedLayout(data).value.Count()
    && !ParsedLayout(data).value.IsBitmapSlot(i)
  }

  /** Findings on one copy of a checksummed block. */
  predicate OnCopy(f: Finding) { f.HeaderChecksumMismatch? || f.RegionTableChecksumMismatch? }

  predicate BadBesideGood(data: seq<byte>, f: Finding)
    requires OnCopy(f)
  {
    if f.HeaderChecksumMismatch? then
      if f.copy == First then !HeaderOk(data, HEADER1) && HeaderOk(data, HEADER2)
      else HeaderOk(data, HEADER1) && !HeaderOk(data, HEADER2)
    else
      if f.copy == First then !TableOk(data, TABLE1) && TableOk(data, TABLE2)
      else TableOk(data, TABLE1) && !TableOk(data, TABLE2)
  }

  /** Findings on the length of the block table. */
  predicate OnSize(f: Finding) { f.BatSizeMetadataMismatch? || f.VirtualDiskSizeOverreported? }

  predicate WrongSize(l: Layout, f: Finding)
    requires OnSize(f)
  {
    && l.ChunkRatio().Some? && l.diskSize.Some?
    && if f.VirtualDiskSizeOverreported? then
         Coverage.SizeOverreported(l.blockSize.value, l.diskSize.value, l.ChunkRatio().value, l.Count())
       else
         && l.ChunkRatio().value > 0
         && Coverage.SizeMismatch(l.blockSize.value, l.diskSize.value, l.ChunkRatio().value, l.bat.length)
  }

  /** Findings whose meaning is stated here. */
  predicate Stated(f: Finding) { OnCopy(f) || OnSize(f) || OnEntry(f) }

  /** The condition of the image that a finding stands for. */
  predicate Found(data: seq<byte>, f: Finding)
    requires Stated(f)
  {
    if OnCopy(f) then Readable(data) && BadBesideGood(data, f)
    else
      && Scannable(data)
      && var l := ParsedLayout(data).value;
         if OnSize(f) then WrongSize(l, f) else f.index < l.Count() && Holds(data, l, LogZone(data), f)
  }

  lemma InSizeFindings(l: Layout, f: Finding)
    ensures f in SizeFindings(l) <==> f.BatSizeMetadataMismatch? && WrongSize(l, f)
    ensures f in CapacityFindings(l) <==> f.VirtualDiskSizeOverreported? && WrongSize(l, f)
  {
    hide Coverage.SizeMismatch, Coverage.SizeOverreported, Div;
  }

  lemma InTablePart(data: seq<byte>, f: Finding)
    requires Stated(f)
    ensures f in TablePart(data) <==> !OnCopy(f) && !f.VirtualDiskSizeOverreported? && Found(data, f)
    ensures f in CapacityPart(data) <==> f.VirtualDiskSizeOverreported? && Found(data, f)
  {
    hide BadBesideGood, ParsedLayout, LogZone, ScanFindings, Holds, WrongSize, SizeFindings, CapacityFindings;
    if Scannable(data) {
      var l := ParsedLayout(data).value;
      InScan(data, l, LogZone(data), l.Count(), f);
      InSizeFindings(l, f);
    }
  }

  lemma InBlockPart(data: seq<byte>, f: Finding)
    requires Stated(f) && Readable(data)
    ensures f in BlockPart(data) <==> OnCopy(f) && Found(data, f)
  {
    hide HeaderOk, TableOk, LogZone, ParsedLayout, Holds, WrongSize;
  }

  lemma InContentPart(data: seq<byte>, items: seq<Sweeps.Keyed>, blocks: seq<Sweeps.Keyed>, f: Finding)
    requires |data| < TWO63 && Stated(f)
    ensures f in ContentPart(data, items, blocks) <==> !OnCopy(f) && Found(data, f)
  {
    hide LogPart, TablePart, CapacityPart, Found, Sweeps.NeighbourOverlaps, Sweeps.SharedKeys;
    LogNotStated(data, f);
    InTablePart(data, f);
  }

  /** The analyser reports a finding exactly when its condition holds. */
  lemma AnalysisFinds(data: seq<byte>, items: seq<Sweeps.Keyed>, blocks: seq<Sweeps.Keyed>, f: Finding)
    requires |data| < TWO63 && Stated(f)
    ensures f in Analysis(data, items, blocks) <==> Found(data, f)
  {
    hide BlockPart, ContentPart, Found, TableFindings;
    if Found(data, f) {
      FoundGates(data, f);
    }
    InContentPart(data, items, blocks, f);
    if Readable(data) {
      InBlockPart(data, f);
    }
  }

  lemma FoundGates(data: seq<byte>, f: Finding)
    requires Stated(f) && Found(data, f)
    ensures Readable(data)
    ensures !OnCopy(f) ==> TableFindings(data) != [BothRegionTableCopiesInvalid]
  {
    hide BadBesideGood, ParsedLayout, LogZone, Holds, WrongSize, TableFindings;
    if !OnCopy(f) {
      LayoutNeedsTable(data);
    }
  }

  lemma LogNotStated(data: seq<byte>, f: Finding)
    requires |data| < TWO63 && Stated(f)
    ensures f !in LogPart(data)
  {
    hide LogCheck.ScannedLog, LogCheck.LogFindings;
  }

  /** The analysis gets as far as the metadata items. */
  predicate SweepsItems(data: seq<byte>) {
    Readable(data) && TableFindings(data) != [BothRegionTableCopiesInvalid]
  }

  /** The overlap findings are those of the sweep. */
  lemma OverlapIn(data: seq<byte>, items: seq<Sweeps.Keyed>, blocks: seq<Sweeps.Keyed>, o: Sweeps.ItemsOverlap)
    requires |data| < TWO63 && SweepsItems(data)
    ensures MetadataItemsOverlap(o) in Analysis(data, items, blocks) <==> o in Sweeps.NeighbourOverlaps(items)
  {
    hide Readable, TableFindings, BlockPart, LogPart, TablePart, CapacityPart, Sweeps.NeighbourOverlaps;
    hide Sweeps.SharedKeys;
    hide ItemFindings, OverlapFindings;
    OnlySweepsOverlap(data, o);
    InItemFindings(Sweeps.NeighbourOverlaps(items), o);
    NotAnItem(Sweeps.SharedKeys(blocks), o);
    LongEnough(data);
  }

  lemma LongEnough(data: seq<byte>)
    requires Readable(data)
    ensures |data| >= MIN_SIZE
  {}

  lemma InItemFindings(overlaps: seq<Sweeps.ItemsOverlap>, o: Sweeps.ItemsOverlap)
    ensures MetadataItemsOverlap(o) in ItemFindings(overlaps) <==> o in overlaps
  {
    if o in overlaps {
      var k :| 0 <= k < |overlaps| && overlaps[k] == o;
      assert ItemFindings(overlaps)[k] == MetadataItemsOverlap(o);
    }
  }

  lemma NotAnItem(pairs: seq<(Sweeps.Keyed, Sweeps.Keyed)>, o: Sweeps.ItemsOverlap)
    ensures MetadataItemsOverlap(o) !in OverlapFindings(pairs)
  {}

  lemma OnlySweepsOverlap(data: seq<byte>, o: Sweeps.ItemsOverlap)
    requires |data| < TWO63
    ensures MetadataItemsOverlap(o) !in BlockPart(data) && MetadataItemsOverlap(o) !in LogPart(data)
    ensures MetadataItemsOverlap(o) !in TablePart(data) && MetadataItemsOverlap(o) !in CapacityPart(data)
  {
    hide HeaderOk, TableOk, LogZone, ParsedLayout, ScanFindings, SizeFindings, CapacityFindings;
    hide LogCheck.ScannedLog, LogCheck.LogFindings, WrongSize, Holds;
    if Scannable(data) {
      var l := ParsedLayout(data).value;
      InScan(data, l, LogZone(data), l.Count(), MetadataItemsOverlap(o));
      InSizeFindings(l, MetadataItemsOverlap(o));
    }
  }

  /** Some overlap of items is among the findings. */
  ghost predicate OverlapReported(data: seq<byte>, items: seq<Sweeps.Keyed>, blocks: seq<Sweeps.Keyed>)
    requires |data| < TWO63
  {
    exists o :: MetadataItemsOverlap(o) in Analysis(data, items, blocks)
  }

  lemma ReportedBySweep(data: seq<byte>, items: seq<Sweeps.Keyed>, blocks: seq<Sweeps.Keyed>)
    requires |data| < TWO63 && SweepsItems(data)
    ensures OverlapReported(data, items, blocks) <==> Sweeps.NeighbourOverlaps(items) != []
  {
    hide SweepsItems, Analysis, Sweeps.NeighbourOverlaps;
    if OverlapReported(data, items, blocks) {
      var o :| MetadataItemsOverlap(o) in Analysis(data, items, blocks);
      OverlapIn(data, items, blocks, o);
    }
    if Sweeps.NeighbourOverlaps(items) != [] {
      OverlapIn(data, items, blocks, Sweeps.NeighbourOverlaps(items)[0]);
    }
  }

  /** Some order of the items leads to an overlap among the findings. */
  ghost predicate MayReportOverlap(data: seq<byte>, blocks: seq<Sweeps.Keyed>)
    requires |data| < TWO63
  {
    exists items :: Sweeps.SortOf(items, SweptItems(data)) && OverlapReported(data, items, blocks)
  }

  /** Some order of the items leads to none. */
  ghost predicate MayMissOverlap(data: seq<byte>, blocks: seq<Sweeps.Keyed>)
    requires |data| < TWO63
  {
    exists items :: Sweeps.SortOf(items, SweptItems(data)) && !OverlapReported(data, items, blocks)
  }

  /** In every order the findings have an overlap if and only if two items share a byte. */
  ghost predicate OverlapsJudged(data: seq<byte>, blocks: seq<Sweeps.Keyed>)
    requires |data| < TWO63
  {
    forall items :: Sweeps.SortOf(items, SweptItems(data)) ==>
      (OverlapReported(data, items, blocks) <==> Sweeps.SomeShare(SweptItems(data)))
  }

  lemma SweptForward(data: seq<byte>)
    ensures Orders.Forward(SweptItems(data))
  {
    hide LeU32, LeU16, NamedRegions, HasItems;
  }

  /** What the unstable sort can make of an image's metadata items, exactly. */
  lemma OverlapFoundExactly(data: seq<byte>, blocks: seq<Sweeps.Keyed>)
    requires |data| < TWO63 && SweepsItems(data)
    ensures var rs := SweptItems(data);
            && (MayReportOverlap(data, blocks) <==> Sweeps.SomeShare(rs) || Orders.SomeStartsInside(rs))
            && (MayMissOverlap(data, blocks) <==> Orders.AllPass(rs))
            && (OverlapsJudged(data, blocks) <==> Orders.Trusted(rs))
  {
    hide SweepsItems, OverlapReported, SweptItems, Sweeps.SortOf, Sweeps.SomeShare, Sweeps.NeighbourOverlaps;
    hide Orders.Forward, Orders.SomeStartsInside, Orders.AllPass, Orders.Trusted;
    var rs := SweptItems(data);
    forall items
      ensures OverlapReported(data, items, blocks) <==> Sweeps.NeighbourOverlaps(items) != []
    {
      ReportedBySweep(data, items, blocks);
    }
    SweptForward(data);
    Orders.ReportsExactly(rs);
    Orders.SilentOrderExactly(rs);
    Orders.JudgedExactly(rs);
  }

  lemma LayoutNeedsTable(data: seq<byte>)
    requires ParsedLayout(data).Some?
    ensures TableFindings(data) != [BothRegionTableCopiesInvalid]
  {
    hide TableOk, LayoutOf, TableRegions;
  }
}
