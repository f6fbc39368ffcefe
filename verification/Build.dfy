/** Building containers with valid checksums, for the concrete examples. */
module Build {
  import opened Bytes
  import opened Arith
  import opened Crc
  import opened Header
  import opened Region
  import opened Disk
  import opened Metadata
  import Bat
  import Fixpoint
  import I = Integrity
  import Log
  import Open
  import Preserve
  import Repair

  // ── Parts laid out over zeros ─────────────────────────────────────────────

  datatype Part = Part(at: nat, bytes: seq<byte>) {
    function End(): nat { at + |bytes| }
  }

  /** The parts follow one another inside `n` bytes. */
  predicate InOrder(parts: seq<Part>, n: nat) {
    && (forall k :: 0 <= k < |parts| ==> parts[k].End() <= n)
    && (forall j, k :: 0 <= j < k < |parts| ==> parts[j].End() <= parts[k].at)
  }

  function Paste(n: nat, parts: seq<Part>): (r: seq<byte>)
    requires InOrder(parts, n)
    ensures |r| == n
  {
    if |parts| == 0 then Zeros(n)
    else
      var last := parts[|parts| - 1];
      Splice(Paste(n, parts[..|parts| - 1]), last.at, last.bytes)
  }

  lemma SplicedByte(b: seq<byte>, o: nat, x: seq<byte>, p: nat)
    requires o + |x| <= |b| && p < |b|
    ensures Splice(b, o, x)[p] == if o <= p < o + |x| then x[p - o] else b[p]
  {}

  /** Pasting ends with the last part, which follows all others. */
  lemma LastPart(n: nat, parts: seq<Part>, k: nat)
    requires InOrder(parts, n) && k < |parts|
    ensures var init, last := parts[..|parts| - 1], parts[|parts| - 1];
            && InOrder(init, n) && last.End() <= n
            && Paste(n, parts) == Splice(Paste(n, init), last.at, last.bytes)
            && (k < |init| ==> init[k] == parts[k] && parts[k].End() <= last.at)
  {
    hide Splice;
  }

  lemma {:induction false} PastedByte(n: nat, parts: seq<Part>, k: nat, i: nat)
    requires InOrder(parts, n) && k < |parts| && i < |parts[k].bytes|
    ensures parts[k].End() <= n
    ensures Paste(n, parts)[parts[k].at + i] == parts[k].bytes[i]
  {
    hide Splice, Paste, InOrder;
    LastPart(n, parts, k);
    var init, last := parts[..|parts| - 1], parts[|parts| - 1];
    SplicedByte(Paste(n, init), last.at, last.bytes, parts[k].at + i);
    if k < |init| {
      PastedByte(n, init, k, i);
    }
  }

  /** Each part stands in the result at its place. */
  lemma Pasted(n: nat, parts: seq<Part>, k: nat)
    requires InOrder(parts, n) && k < |parts|
    ensures Paste(n, parts)[parts[k].at..parts[k].End()] == parts[k].bytes
  {
    hide Paste;
    forall i | 0 <= i < |parts[k].bytes|
      ensures Paste(n, parts)[parts[k].at..parts[k].End()][i] == parts[k].bytes[i]
    {
      PastedByte(n, parts, k, i);
    }
  }

  /** Between the parts are zeros. */
  lemma {:induction false} Blank(n: nat, parts: seq<Part>, p: nat)
    requires InOrder(parts, n) && p < n
    requires forall k :: 0 <= k < |parts| ==> !(parts[k].at <= p < parts[k].End())
    ensures Paste(n, parts)[p] == 0
  {
    hide Splice;
    if |parts| > 0 {
      Blank(n, parts[..|parts| - 1], p);
    }
  }

  // ── Signed blocks ─────────────────────────────────────────────────────────

  /** Signing a block keeps every slice before and after its checksum field. */
  lemma SignedSlice(b: seq<byte>, lo: nat, hi: nat)
    requires |b| >= 8 && lo <= hi <= |b| && (hi <= 4 || 8 <= lo)
    ensures Signed(b)[lo..hi] == b[lo..hi]
  {
    hide Signed;
    var r := Signed(b);
    forall i | 0 <= i < hi - lo
      ensures r[lo..hi][i] == b[lo..hi][i]
    {
      if hi <= 4 {
        assert r[lo + i] == r[..4][lo + i] == b[..4][lo + i];
      } else {
        assert r[lo + i] == r[8..][lo + i - 8] == b[8..][lo + i - 8];
      }
    }
  }

  /** A part of a signed block, clear of the checksum field. */
  lemma SignedPart(n: nat, parts: seq<Part>, k: nat)
    requires InOrder(parts, n) && n >= 8 && k < |parts| && (parts[k].End() <= 4 || 8 <= parts[k].at)
    ensures Signed(Paste(n, parts))[parts[k].at..parts[k].End()] == parts[k].bytes
  {
    hide Signed, Paste;
    Pasted(n, parts, k);
    SignedSlice(Paste(n, parts), parts[k].at, parts[k].End());
  }

  /** The parts of a header naming a log. */
  function HeadParts(guid: seq<byte>, at: u64, length: u32, sequence: u64): seq<Part> {
    [Part(0, HEAD_SIGNATURE), Part(8, ToLe64(sequence)), Part(48, guid), Part(68, ToLe32(length)), Part(72, ToLe64(at))]
  }

  function Head(guid: seq<byte>, at: u64, length: u32, sequence: u64 := 0): (h: seq<byte>)
    requires |guid| == 16
    ensures |h| == HEADER_SIZE
  {
    Signed(Paste(HEADER_SIZE, HeadParts(guid, at, length, sequence)))
  }

  lemma HeadReads(guid: seq<byte>, at: u64, length: u32, sequence: u64 := 0)
    requires |guid| == 16
    ensures var h := Head(guid, at, length, sequence);
            && h[0..4] == HEAD_SIGNATURE && ChecksumOk(h)
            && HeaderAt(h, 0) == LogHeader(sequence, guid, at, length)
  {
    hide Crc32c, Signed, Paste, LeU32, LeU64, ToLe32, ToLe64;
    var parts, h := HeadParts(guid, at, length, sequence), Head(guid, at, length, sequence);
    SignedPart(HEADER_SIZE, parts, 0);
    SignedPart(HEADER_SIZE, parts, 1);
    SignedPart(HEADER_SIZE, parts, 2);
    SignedPart(HEADER_SIZE, parts, 3);
    SignedPart(HEADER_SIZE, parts, 4);
    LeU64Slice(h, 8, 16, 0);
    LeU32Slice(h, 68, 72, 0);
    LeU64Slice(h, 72, 80, 0);
  }

  /** One entry of a region table, without its last word. */
  function Entry(guid: seq<byte>, r: Region): (e: seq<byte>)
    requires |guid| == 16
    ensures |e| == 28 && e[0..16] == guid && e[16..24] == ToLe64(r.offset) && e[24..28] == ToLe32(r.length)
  {
    guid + ToLe64(r.offset) + ToLe32(r.length)
  }

  function TableParts(bat: Region, metadata: Region): seq<Part> {
    [Part(0, TABLE_SIGNATURE), Part(8, ToLe32(2)),
     Part(16, Entry(BAT_GUID, bat)), Part(48, Entry(METADATA_GUID, metadata))]
  }

  /** A region table with a valid checksum that names the two regions. */
  function TableBlock(bat: Region, metadata: Region): (t: seq<byte>)
    ensures |t| == TABLE_SIZE
  {
    Signed(Paste(TABLE_SIZE, TableParts(bat, metadata)))
  }

  /** What parsers read in such a table. */
  lemma TableBlockReads(bat: Region, metadata: Region)
    ensures var t := TableBlock(bat, metadata);
            && t[0..4] == TABLE_SIGNATURE && ChecksumOk(t) && LeU32(t, 8) == 2
            && EntryGuid(t, 0) == BAT_GUID && EntryRegion(t, 0) == bat
            && EntryGuid(t, 1) == METADATA_GUID && EntryRegion(t, 1) == metadata
  {
    hide Crc32c, Signed, Paste, Entry, LeU32, LeU64, ToLe32, EntryGuid, EntryRegion;
    var parts, t := TableParts(bat, metadata), TableBlock(bat, metadata);
    SignedPart(TABLE_SIZE, parts, 0);
    SignedPart(TABLE_SIZE, parts, 1);
    SignedPart(TABLE_SIZE, parts, 2);
    SignedPart(TABLE_SIZE, parts, 3);
    LeU32Slice(t, 8, 12, 0);
    EntryReads(t, 0, BAT_GUID, bat);
    EntryReads(t, 1, METADATA_GUID, metadata);
  }

  lemma EntryReads(t: seq<byte>, i: nat, guid: seq<byte>, r: Region)
    requires |guid| == 16 && 16 + i * 32 + 28 <= |t|
    requires t[16 + i * 32..16 + i * 32 + 28] == Entry(guid, r)
    ensures EntryGuid(t, i) == guid && EntryRegion(t, i) == r
  {
    hide Entry, LeU32, LeU64, ToLe64, ToLe32;
    var at, e := 16 + i * 32, Entry(guid, r);
    SliceSlice(t, at, at + 28, 0, 16);
    SliceSlice(t, at, at + 28, 16, 24);
    SliceSlice(t, at, at + 28, 24, 28);
    LeU64Slice(t, at + 16, at + 24, 0);
    LeU32Slice(t, at + 24, at + 28, 0);
  }

  /** The regions such a table names, for either parser. */
  lemma TableBlockRegions(bat: Region, metadata: Region)
    ensures var t := TableBlock(bat, metadata);
            && Visited(t) == 2
            && LastRegion(t, 2, BAT_GUID) == Some(bat) && LastRegion(t, 2, METADATA_GUID) == Some(metadata)
            && I.TableRegions(t) == Some(RegionTable(bat, metadata))
  {
    hide Crc32c, TableBlock, ChecksumOk, LeU32, LeU64, EntryGuid, EntryRegion;
    TableBlockReads(bat, metadata);
    var t := TableBlock(bat, metadata);
    DistinctGuids();
    I.NoRegions(t);
    I.OneMoreRegion(t, 0, BAT_GUID);
    I.OneMoreRegion(t, 1, BAT_GUID);
    I.OneMoreRegion(t, 1, METADATA_GUID);
  }

  // ── Metadata ──────────────────────────────────────────────────────────────

  const ITEMS_SIZE: nat := 0x1000

  function Item(guid: seq<byte>, at: u32, len: u32): (e: seq<byte>)
    requires |guid| == 16
    ensures |e| == 24 && e[0..16] == guid && e[16..20] == ToLe32(at) && e[20..24] == ToLe32(len)
  {
    guid + ToLe32(at) + ToLe32(len)
  }

  /** An identifier under which the reader accepts the disk size. */
  predicate SizeGuid(guid: seq<byte>) { guid == VIRTUAL_DISK_SIZE || guid == VIRTUAL_DISK_SIZE_QEMU }

  function ItemParts(m: Meta, guid: seq<byte>): seq<Part>
    requires |guid| == 16
  {
    [Part(0, METADATA_SIGNATURE), Part(10, [3]),
     Part(32, Item(FILE_PARAMETERS, 0x800, 8)), Part(64, Item(guid, 0x808, 8)),
     Part(96, Item(LOGICAL_SECTOR_SIZE, 0x810, 4)),
     Part(0x800, ToLe32(m.blockSize)), Part(0x804, ToLe32(if m.hasParent then 2 else 0)),
     Part(0x808, ToLe64(m.diskSize)), Part(0x810, ToLe32(m.sectorSize))]
  }

  /** A metadata region with the three items that carry the parameters. */
  function Items(m: Meta, guid: seq<byte> := VIRTUAL_DISK_SIZE): (r: seq<byte>)
    requires |guid| == 16
    ensures |r| == ITEMS_SIZE
  {
    Paste(ITEMS_SIZE, ItemParts(m, guid))
  }

  lemma ItemReads(r: seq<byte>, at: nat, guid: seq<byte>, off: u32, len: u32)
    requires |guid| == 16 && at + 24 <= |r| && r[at..at + 24] == Item(guid, off, len)
    ensures Guid(r, at) == guid && LeU32(r, at + 16) == off && LeU32(r, at + 20) == len
  {
    hide Item, LeU32, ToLe32;
    var e := Item(guid, off, len);
    SliceSlice(r, at, at + 24, 0, 16);
    SliceSlice(r, at, at + 24, 16, 20);
    SliceSlice(r, at, at + 24, 20, 24);
    LeU32Slice(r, at + 16, at + 20, 0);
    LeU32Slice(r, at + 20, at + 24, 0);
  }

  /** The table of items. */
  predicate ItemTable(r: seq<byte>, guid: seq<byte>) {
    && |r| == ITEMS_SIZE && r[0..8] == METADATA_SIGNATURE && LeU16(r, 10) == 3
    && Guid(r, 32) == FILE_PARAMETERS && LeU32(r, 48) == 0x800 && LeU32(r, 52) == 8
    && Guid(r, 64) == guid && LeU32(r, 80) == 0x808 && LeU32(r, 84) == 8
    && Guid(r, 96) == LOGICAL_SECTOR_SIZE && LeU32(r, 112) == 0x810 && LeU32(r, 116) == 4
  }

  predicate ItemValues(r: seq<byte>, m: Meta) {
    && LeU32(r, 0x800) == m.blockSize && LeU32(r, 0x804) == (if m.hasParent then 2 else 0)
    && LeU64(r, 0x808) == m.diskSize && LeU32(r, 0x810) == m.sectorSize
  }

  lemma ItemsTable(m: Meta, guid: seq<byte>)
    requires |guid| == 16
    ensures ItemTable(Items(m, guid), guid)
  {
    hide Paste, Item, LeU32, ToLe32, ToLe64;
    var parts, r := ItemParts(m, guid), Items(m, guid);
    Pasted(ITEMS_SIZE, parts, 0);
    PastedByte(ITEMS_SIZE, parts, 1, 0);
    Blank(ITEMS_SIZE, parts, 11);
    Pasted(ITEMS_SIZE, parts, 2);
    Pasted(ITEMS_SIZE, parts, 3);
    Pasted(ITEMS_SIZE, parts, 4);
    ItemReads(r, 32, FILE_PARAMETERS, 0x800, 8);
    ItemReads(r, 64, guid, 0x808, 8);
    ItemReads(r, 96, LOGICAL_SECTOR_SIZE, 0x810, 4);
  }

  lemma ItemsValues(m: Meta, guid: seq<byte>)
    requires |guid| == 16
    ensures ItemValues(Items(m, guid), m)
  {
    hide Paste, Item, LeU32, LeU64, ToLe32, ToLe64;
    var parts, r := ItemParts(m, guid), Items(m, guid);
    Pasted(ITEMS_SIZE, parts, 5);
    Pasted(ITEMS_SIZE, parts, 6);
    Pasted(ITEMS_SIZE, parts, 7);
    Pasted(ITEMS_SIZE, parts, 8);
    LeU32Slice(r, 0x800, 0x804, 0);
    LeU32Slice(r, 0x804, 0x808, 0);
    LeU64Slice(r, 0x808, 0x810, 0);
    LeU32Slice(r, 0x810, 0x814, 0);
  }

  lemma ReaderItems(r: seq<byte>, guid: seq<byte>)
    requires ItemTable(r, guid) && SizeGuid(guid)
    ensures LastItem(r, 3, FILE_PARAMETERS, 8) == Some(0x800)
    ensures LastSize(r, 3) == Some(0x808)
    ensures LastItem(r, 3, LOGICAL_SECTOR_SIZE, 4) == Some(0x810)
  {
    hide LeU32, Guid;
    DistinctItems();
    assert ItemHere(r, 0, FILE_PARAMETERS, 8);
    assert !ItemHere(r, 1, FILE_PARAMETERS, 8) && !ItemHere(r, 2, FILE_PARAMETERS, 8);
    assert LastItem(r, 1, FILE_PARAMETERS, 8) == Some(0x800);
    assert LastItem(r, 2, FILE_PARAMETERS, 8) == Some(0x800);
    assert ItemHere(r, 1, guid, 8);
    assert !ItemHere(r, 2, VIRTUAL_DISK_SIZE, 8) && !ItemHere(r, 2, VIRTUAL_DISK_SIZE_QEMU, 8);
    assert LastSize(r, 2) == Some(0x808);
    assert ItemHere(r, 2, LOGICAL_SECTOR_SIZE, 4);
  }

  /** The reader's parameters, if they are valid. */
  lemma ReaderParameters(m: Meta, guid: seq<byte>)
    requires Valid(m) && SizeGuid(guid)
    ensures Open.Parameters(Items(m, guid)) == Ok(m)
  {
    hide Items, LeU16, LeU32, LeU64, Guid, Validate, LastItem, LastSize;
    ItemsTable(m, guid);
    ItemsValues(m, guid);
    ReaderItems(Items(m, guid), guid);
    assert Items(m, guid)[..8] == Items(m, guid)[0..8];
  }

  /** Where the analyser finds the fields; it knows the disk size under one identifier only. */
  function AnalyserFields(guid: seq<byte>): I.Fields {
    I.Fields(Some(0x800), Some(0x810), if guid == VIRTUAL_DISK_SIZE then Some(0x808) else None)
  }

  lemma AnalyserItems(r: seq<byte>, room: nat, guid: seq<byte>)
    requires ItemTable(r, guid) && SizeGuid(guid) && ITEMS_SIZE <= room
    ensures I.ItemVisits(r) == 3
    ensures I.FieldsIn(r, room) == AnalyserFields(guid)
  {
    hide Guid, LeU32, LeU16, I.LastField;
    DistinctItems();
    I.NoFields(r, room);
    AnalyserField(r, room, guid, FILE_PARAMETERS, 8);
    AnalyserField(r, room, guid, LOGICAL_SECTOR_SIZE, 4);
    AnalyserField(r, room, guid, VIRTUAL_DISK_SIZE, 8);
  }

  lemma AnalyserField(r: seq<byte>, room: nat, guid: seq<byte>, key: seq<byte>, width: nat)
    requires ItemTable(r, guid) && SizeGuid(guid) && ITEMS_SIZE <= room && width <= 8
    ensures I.LastField(r, room, 3, key, width)
         == if key == LOGICAL_SECTOR_SIZE then Some(0x810)
            else if key == guid then Some(0x808)
            else if key == FILE_PARAMETERS then Some(0x800) else None
  {
    hide Guid, LeU32, LeU16, I.LastField;
    DistinctItems();
    I.NoFields(r, room);
    I.OneMoreField(r, room, 0, key, width);
    I.OneMoreField(r, room, 1, key, width);
    I.OneMoreField(r, room, 2, key, width);
  }

  /** A disk of one block of 1 MiB. */
  const ONE_BLOCK: Meta := Meta(0x10_0000, false, 0x10_0000, 512)

  /** The entry of a block that is present two MiB into the container. */
  const PRESENT: u64 := 0x20_0006

  /** A table of one entry. */
  lemma OneEntryTable(entry: u64)
    ensures Bat.Entries(ToLe64(entry)) == [entry]
  {
    hide ToLe64, LeU64;
  }

  lemma OneBlockValid()
    ensures Valid(ONE_BLOCK) && Bat.Usable(ONE_BLOCK) && ONE_BLOCK.ChunkRatio() == 4096
  {
    hide Div, Mod, CountOnes;
    PowerHasOneBit(20);
    PowersOfTwo();
    DivUnique(0x10_0000, 512, 0x800, 0);
    DivUnique(SECTORS_PER_CHUNK * 512, 0x10_0000, 4096, 0);
  }

  // ── Whole containers ──────────────────────────────────────────────────────

  const ITEMS_AT: nat := 0x10_0000
  const BAT_AT: nat := 0x11_0000
  const LOG_AT: nat := 0x12_0000

  /**
   What a container is made of. The two copies of its region table are alike; the second header is
   the active one, and the first is an equal or an older one.
   */
  datatype Plan = Plan(size: nat, first: seq<byte>, head: seq<byte>, table: seq<byte>, items: seq<byte>,
                       bat: seq<byte>, log: seq<byte>)

  predicate Fits(p: Plan) {
    && Open.MIN_CONTAINER <= p.size < TWO63
    && |p.first| == |p.head| == HEADER_SIZE && |p.table| == TABLE_SIZE
    && |p.items| <= ITEMS_SIZE && |p.bat| <= 0x1_0000 && |p.log| <= 0x1_0000
  }

  function Parts(p: Plan): seq<Part> {
    [Part(0, MAGIC), Part(HEADER1, p.first), Part(HEADER2, p.head), Part(TABLE1, p.table), Part(TABLE2, p.table),
     Part(ITEMS_AT, p.items), Part(BAT_AT, p.bat), Part(LOG_AT, p.log)]
  }

  lemma PartsInOrder(p: Plan)
    requires Fits(p)
    ensures InOrder(Parts(p), p.size)
  {}

  function Container(p: Plan): (img: seq<byte>)
    requires Fits(p)
    ensures |img| == p.size
  {
    PartsInOrder(p);
    Paste(p.size, Parts(p))
  }

  /** `img` shows the blocks and regions of the plan at their places. */
  predicate Shows(img: seq<byte>, p: Plan)
    requires Fits(p)
  {
    && |img| == p.size
    && img[0..8] == MAGIC
    && img[HEADER1..HEADER1 + HEADER_SIZE] == p.first && img[HEADER2..HEADER2 + HEADER_SIZE] == p.head
    && img[TABLE1..TABLE1 + TABLE_SIZE] == img[TABLE2..TABLE2 + TABLE_SIZE] == p.table
    && img[ITEMS_AT..ITEMS_AT + |p.items|] == p.items
    && img[BAT_AT..BAT_AT + |p.bat|] == p.bat
    && img[LOG_AT..LOG_AT + |p.log|] == p.log
  }

  lemma ContainerShows(p: Plan)
    requires Fits(p)
    ensures Shows(Container(p), p)
  {
    hide Paste, InOrder;
    PartsInOrder(p);
    var n, parts := p.size, Parts(p);
    Pasted(n, parts, 0);
    Pasted(n, parts, 1);
    Pasted(n, parts, 2);
    Pasted(n, parts, 3);
    Pasted(n, parts, 4);
    Pasted(n, parts, 5);
    Pasted(n, parts, 6);
    Pasted(n, parts, 7);
  }

  /** Beyond the last part a container is blank. */
  lemma ContainerTail(p: Plan, q: nat)
    requires Fits(p) && LOG_AT + |p.log| <= q < p.size
    ensures Container(p)[q] == 0
  {
    hide Paste, InOrder;
    PartsInOrder(p);
    Blank(p.size, Parts(p), q);
  }

  // ── What the parsers make of a container ──────────────────────────────────

  /** Both copies are valid headers, and the first is equal to the second or older. */
  predicate HeadsOk(p: Plan)
    requires Fits(p)
  {
    && p.first[0..4] == p.head[0..4] == HEAD_SIGNATURE && ChecksumOk(p.first) && ChecksumOk(p.head)
    && (p.first == p.head || LeU64(p.first, 8) < LeU64(p.head, 8))
  }

  lemma HeadersRead(img: seq<byte>, p: Plan)
    requires Fits(p) && Shows(img, p) && HeadsOk(p)
    ensures HeaderOk(img, HEADER1) && HeaderOk(img, HEADER2)
    ensures ActiveHeader(img) == Ok(HeaderAt(p.head, 0))
    ensures ActiveOffset(img) == Some(if p.first == p.head then HEADER1 else HEADER2)
  {
    hide Crc32c, ChecksumOk, HeaderAt, LeU64;
    SliceSlice(img, HEADER1, HEADER1 + HEADER_SIZE, 0, 4);
    SliceSlice(img, HEADER2, HEADER2 + HEADER_SIZE, 0, 4);
    HeaderSlice(img, HEADER1);
    HeaderSlice(img, HEADER2);
    SequenceIs(img, HEADER1);
    SequenceIs(img, HEADER2);
    SequenceIs(p.first, 0);
    SequenceIs(p.head, 0);
  }

  lemma SequenceIs(img: seq<byte>, at: nat)
    ensures HeaderAt(img, at).sequence == LeU64(img, at + 8)
  {}

  lemma TablesRead(img: seq<byte>, p: Plan)
    requires Fits(p) && Shows(img, p) && p.table[0..4] == TABLE_SIGNATURE && ChecksumOk(p.table)
    ensures I.TableOk(img, TABLE1) && I.TableOk(img, TABLE2)
  {
    hide Crc32c, ChecksumOk;
    SliceSlice(img, TABLE1, TABLE1 + TABLE_SIZE, 0, 4);
    SliceSlice(img, TABLE2, TABLE2 + TABLE_SIZE, 0, 4);
  }

  /** Both parsers find the regions that the table names. */
  lemma RegionsRead(img: seq<byte>, p: Plan, bat: Region, metadata: Region)
    requires Fits(p) && Shows(img, p) && p.table == TableBlock(bat, metadata)
    requires bat.End() <= |img| && metadata.End() <= |img|
    ensures Preserve.CountsFit(img)
    ensures Open.Regions(img) == Ok(RegionTable(bat, metadata))
    ensures I.NamedRegions(img) == Some(RegionTable(bat, metadata))
  {
    hide Crc32c, LeU32, LeU64, Guid, TableBlock, EntryGuid, EntryRegion, LastRegion, I.TableRegions, Visited, Unsigned;
    hide Open.Regions, I.TableOk;
    TableBlockReads(bat, metadata);
    TableBlockRegions(bat, metadata);
    TablesRead(img, p);
    LeU32Slice(img, TABLE1, TABLE1 + TABLE_SIZE, 8);
    LeU32Slice(img, TABLE2, TABLE2 + TABLE_SIZE, 8);
    Preserve.RegionsByCopy(img);
    assert Covered(p.table) == p.table;
    assert p.table[..4] == p.table[0..4];
    assert AllInside(p.table, 2, |img|);
    assert Repair.Slot(img, Repair.TableBlock, I.First) == p.table;
  }

  /** A plan whose table names its block table and its items, which carry `m`. */
  predicate Describes(p: Plan, m: Meta, guid: seq<byte> := VIRTUAL_DISK_SIZE) {
    && Fits(p) && SizeGuid(guid)
    && p.table == TableBlock(Region(BAT_AT, |p.bat|), Region(ITEMS_AT, ITEMS_SIZE))
    && p.items == Items(m, guid)
  }

  function Standard(size: nat, head: seq<byte>, m: Meta, bat: seq<byte>, log: seq<byte>,
                    guid: seq<byte> := VIRTUAL_DISK_SIZE): (p: Plan)
    requires SizeGuid(guid)
    requires Open.MIN_CONTAINER <= size < TWO63 && |head| == HEADER_SIZE
    requires |bat| <= 0x1_0000 && |log| <= 0x1_0000
    ensures Describes(p, m, guid) && p.size == size && p.first == p.head == head && p.bat == bat && p.log == log
  {
    hide TableBlock, Items;
    Plan(size, head, head, TableBlock(Region(BAT_AT, |bat|), Region(ITEMS_AT, ITEMS_SIZE)), Items(m, guid), bat, log)
  }

  /** What assembling such a container turns on. */
  lemma Landmarks(img: seq<byte>, p: Plan, m: Meta, guid: seq<byte> := VIRTUAL_DISK_SIZE)
    returns (bat: Region, items: Region)
    requires Describes(p, m, guid) && Shows(img, p)
    ensures Open.MIN_CONTAINER <= |img| < TWO63 && Fits(p) && SizeGuid(guid)
    ensures p.table == TableBlock(bat, items) && bat.End() <= |img| && items.End() <= |img|
    ensures img[items.offset..items.End()] == Items(m, guid) && img[bat.offset..bat.End()] == p.bat
  {
    hide TableBlock, Items;
    bat, items := Region(BAT_AT, |p.bat|), Region(ITEMS_AT, ITEMS_SIZE);
  }

  lemma Assembles(img: seq<byte>, p: Plan, m: Meta, parent: Option<Disk>, guid: seq<byte> := VIRTUAL_DISK_SIZE)
    requires Describes(p, m, guid) && Shows(img, p) && Valid(m) && (m.hasParent ==> parent.Some?)
    ensures Open.Assembled(img, parent) == Ok(Disk(img, Bat.Entries(p.bat), m, parent))
  {
    hide *;
    var bat, items := Landmarks(img, p, m, guid);
    RegionsRead(img, p, bat, items);
    ReaderParameters(m, guid);
    Preserve.AssembledIs(img, parent, RegionTable(bat, items));
  }

  lemma HasItems(img: seq<byte>, p: Plan, m: Meta, guid: seq<byte> := VIRTUAL_DISK_SIZE)
    requires Describes(p, m, guid) && Shows(img, p)
    ensures I.HasItems(img, Region(ITEMS_AT, ITEMS_SIZE))
    ensures img[ITEMS_AT..ITEMS_AT + ITEMS_SIZE] == Items(m, guid)
  {
    hide TableBlock, Items, LeU32, LeU16, Guid;
    ItemsTable(m, guid);
    SliceSlice(img, ITEMS_AT, ITEMS_AT + ITEMS_SIZE, 0, 8);
  }

  lemma LayoutRead(img: seq<byte>, p: Plan, m: Meta, guid: seq<byte> := VIRTUAL_DISK_SIZE)
    requires Describes(p, m, guid) && Shows(img, p)
    ensures I.ParsedLayout(img)
         == Some(I.Layout(Region(BAT_AT, |p.bat|), Region(ITEMS_AT, ITEMS_SIZE),
                          Some(m.blockSize), Some(m.sectorSize),
                          if guid == VIRTUAL_DISK_SIZE then Some(m.diskSize) else None, m.hasParent))
  {
    hide TableBlock, Items, LeU32, LeU64, Guid, I.NamedRegions, I.FieldsIn, I.HasItems, Shows, Preserve.CountsFit;
    hide Open.Regions, ItemTable;
    ShowsSize(img, p);
    RegionsRead(img, p, Region(BAT_AT, |p.bat|), Region(ITEMS_AT, ITEMS_SIZE));
    HasItems(img, p, m, guid);
    ItemsTable(m, guid);
    AnalyserItems(Items(m, guid), |img| - ITEMS_AT, guid);
    ItemsValues(m, guid);
    LeU32Slice(img, ITEMS_AT, ITEMS_AT + ITEMS_SIZE, 0x800);
    LeU32Slice(img, ITEMS_AT, ITEMS_AT + ITEMS_SIZE, 0x804);
    LeU64Slice(img, ITEMS_AT, ITEMS_AT + ITEMS_SIZE, 0x808);
    LeU32Slice(img, ITEMS_AT, ITEMS_AT + ITEMS_SIZE, 0x810);
  }

  lemma ShowsSize(img: seq<byte>, p: Plan)
    requires Fits(p) && Shows(img, p)
    ensures |img| == p.size >= Open.MIN_CONTAINER && I.Readable(img) && img[..8] == MAGIC
  {
    assert img[..8] == img[0..8];
  }

  /** Neither the first 64 KiB nor what follows the table copies belongs to a block copy. */
  lemma FarFromBlocks(q: nat)
    requires q < HEADER1 || I.MIN_SIZE <= q
    ensures !Fixpoint.InBlocks(q)
    ensures I.MIN_SIZE <= q ==> Repair.EntryClear(q)
  {}

  lemma OutsideHere(img: seq<byte>, p: Plan, m: Meta, lo: nat, hi: nat, guid: seq<byte> := VIRTUAL_DISK_SIZE)
    requires Describes(p, m, guid) && Shows(img, p)
    requires hi <= HEADER1 || (I.MIN_SIZE <= lo && hi <= BAT_AT) || LOG_AT <= lo
    ensures Fixpoint.RangeOutside(img, lo, hi)
  {
    hide Shows, I.ParsedLayout, TableBlock, Items, Fixpoint.InBlocks, Fixpoint.Outside;
    LayoutRead(img, p, m, guid);
    forall q | lo <= q < hi
      ensures Fixpoint.Outside(img, q)
    {
      FarFromBlocks(q);
      Fixpoint.FarOutside(img, q);
    }
  }

  /** The analyser scans a table of at least one entry. */
  lemma TableScanned(img: seq<byte>, p: Plan, m: Meta, guid: seq<byte> := VIRTUAL_DISK_SIZE)
    requires Describes(p, m, guid) && Shows(img, p) && |p.bat| >= 8
    ensures I.Scannable(img) && I.ParsedLayout(img).value.bat == Region(BAT_AT, |p.bat|)
  {
    hide Shows, I.ParsedLayout, TableBlock, Items;
    LayoutRead(img, p, m, guid);
    ShowsSize(img, p);
  }

  lemma EntriesFar(img: seq<byte>, p: Plan, m: Meta, guid: seq<byte> := VIRTUAL_DISK_SIZE)
    requires Describes(p, m, guid) && Shows(img, p)
    ensures Fixpoint.EntriesClear(img)
  {
    hide Shows, I.ParsedLayout, TableBlock, Items, Fixpoint.InBlocks, Repair.EntryClear, Fixpoint.EntryApart;
    LayoutRead(img, p, m, guid);
    forall i | 0 <= i < |p.bat| / 8
      ensures Fixpoint.EntryApart(img, i, BAT_AT + i * 8)
    {
      FarFromBlocks(BAT_AT + i * 8);
      Fixpoint.FarEntry(img, i, BAT_AT + i * 8);
    }
  }

  /** Such a container keeps its entries and its metadata clear of everything else. */
  lemma StandsApart(img: seq<byte>, p: Plan, m: Meta, guid: seq<byte> := VIRTUAL_DISK_SIZE)
    requires Describes(p, m, guid) && Shows(img, p)
    ensures Fixpoint.Apart(img)
    ensures Fixpoint.RangeOutside(img, 0, 8) && Fixpoint.RangeOutside(img, LOG_AT, p.size)
  {
    hide Shows, Describes, I.ParsedLayout, I.HasItems, I.FieldsIn, Items, Fixpoint.RangeOutside, Fixpoint.EntriesClear;
    LayoutRead(img, p, m, guid);
    FieldsHere(img, p, m, guid);
    EntriesFar(img, p, m, guid);
    OutsideHere(img, p, m, 0, 8, guid);
    OutsideHere(img, p, m, LOG_AT, p.size, guid);
    OutsideHere(img, p, m, ITEMS_AT, ITEMS_AT + ITEMS_SIZE, guid);
    OutsideHere(img, p, m, ITEMS_AT + 0x800, ITEMS_AT + 0x808, guid);
    OutsideHere(img, p, m, ITEMS_AT + 0x808, ITEMS_AT + 0x810, guid);
    OutsideHere(img, p, m, ITEMS_AT + 0x810, ITEMS_AT + 0x814, guid);
  }

  lemma FieldsHere(img: seq<byte>, p: Plan, m: Meta, guid: seq<byte> := VIRTUAL_DISK_SIZE)
    requires Describes(p, m, guid) && Shows(img, p)
    ensures ITEMS_AT + ITEMS_SIZE <= |img|
    ensures I.FieldsIn(img[ITEMS_AT..ITEMS_AT + ITEMS_SIZE], |img| - ITEMS_AT)
         == AnalyserFields(guid)
  {
    hide Shows, TableBlock, Items, I.FieldsIn, I.HasItems, ItemTable;
    ShowsSize(img, p);
    HasItems(img, p, m, guid);
    ItemsTable(m, guid);
    AnalyserItems(Items(m, guid), |img| - ITEMS_AT, guid);
  }

  /** The analyser scans the table that the reader reads. */
  lemma SameTables(img: seq<byte>, p: Plan, m: Meta, d: Disk, guid: seq<byte> := VIRTUAL_DISK_SIZE)
    requires Describes(p, m, guid) && Shows(img, p) && Valid(m) && d.meta == m
    ensures Preserve.CountsFit(img) && Preserve.SameTable(img, d)
  {
    hide Shows, I.ParsedLayout, TableBlock, Items, Open.Regions, Preserve.CountsFit, Validate, Div;
    LayoutRead(img, p, m, guid);
    ShowsSize(img, p);
    RegionsRead(img, p, Region(BAT_AT, |p.bat|), Region(ITEMS_AT, ITEMS_SIZE));
    Bat.SizeBound(m);
  }

  // ── A log of one entry ────────────────────────────────────────────────────

  const LOG_GUID: seq<byte> := [1, 2, 3, 4, 5, 6, 7, 8, 9, 10, 11, 12, 13, 14, 15, 16]

  /** A descriptor for one sector at `offset`. */
  function DataDescriptor(offset: u64): (d: seq<byte>)
    ensures |d| == 32 && d[0..4] == Log.DESC && d[24..32] == ToLe64(offset)
  {
    Log.DESC + Zeros(20) + ToLe64(offset)
  }

  function ZeroDescriptor(offset: u64, length: u64): (d: seq<byte>)
    ensures |d| == 32 && d[0..4] == Log.ZERO && d[8..16] == ToLe64(length) && d[16..24] == ToLe64(offset)
  {
    Log.ZERO + Zeros(4) + ToLe64(length) + ToLe64(offset) + Zeros(8)
  }

  function EntryParts(descriptors: seq<byte>, sectors: seq<byte>, count: u32): seq<Part>
    requires |descriptors| + |sectors| <= 0x9000
  {
    [Part(0, Log.LOGE), Part(8, ToLe32(64 + |descriptors| + |sectors|)), Part(16, ToLe64(1)), Part(24, ToLe32(count)),
     Part(32, LOG_GUID), Part(64, descriptors), Part(64 + |descriptors|, sectors)]
  }

  /** A log entry of a few descriptors and their sectors, with a valid checksum. */
  function LogEntry(descriptors: seq<byte>, sectors: seq<byte>, count: u32 := 1): (e: seq<byte>)
    requires |descriptors| == 32 * count <= 0x1000 && |sectors| <= 0x8000
    ensures |e| == 64 + 32 * count + |sectors|
  {
    Signed(Paste(64 + |descriptors| + |sectors|, EntryParts(descriptors, sectors, count)))
  }

  lemma LogEntryReads(descriptors: seq<byte>, sectors: seq<byte>, count: u32 := 1)
    requires |descriptors| == 32 * count <= 0x1000 && |sectors| <= 0x8000
    ensures var e, base := LogEntry(descriptors, sectors, count), 64 + 32 * count;
            && Log.EntryFits(e, 0) && Log.EntryLength(e, 0) == |e| && Log.Replayable(e, LOG_GUID)
            && Log.DescriptorCount(e) == count
            && e[64..base] == descriptors && e[base..base + |sectors|] == sectors
  {
    hide Crc32c, Signed, Paste, LeU32, LeU64, ToLe32, ToLe64, ChecksumOk;
    var n, parts := 64 + |descriptors| + |sectors|, EntryParts(descriptors, sectors, count);
    var e := LogEntry(descriptors, sectors, count);
    SignedPart(n, parts, 0);
    SignedPart(n, parts, 1);
    SignedPart(n, parts, 3);
    SignedPart(n, parts, 4);
    SignedPart(n, parts, 5);
    SignedPart(n, parts, 6);
    SignedOk(Paste(n, parts));
    LeU32Slice(e, 8, 12, 0);
    LeU32Slice(e, 24, 28, 0);
  }

  /** An entry of one descriptor contributes that descriptor's runs. */
  lemma OneDescriptor(e: seq<byte>)
    requires Log.DescriptorCount(e) == 1 && |e| >= 96
    ensures Log.TableFits(e) && Log.EntryRuns(e) == Log.DescriptorRuns(e, 0)
  {
    hide LeU32, LeU64, Log.DescriptorRuns;
    assert Log.RunsUpTo(e, 0) == [];
  }

  lemma SignedOk(b: seq<byte>)
    requires |b| >= 8
    ensures ChecksumOk(Signed(b))
  {
    hide Crc32c;
  }

  /** A log that is one whole entry commits that entry. */
  lemma OneEntryCommitted(e: seq<byte>)
    requires Log.EntryFits(e, 0) && Log.EntryLength(e, 0) == |e| && Log.Replayable(e, LOG_GUID)
    ensures Log.Committed(e, LOG_GUID) == [e]
  {
    hide LeU32, LeU64, ChecksumOk;
    assert Log.Walk(e, |e|) == [];
    assert Log.Walk(e, 0) == [0];
    assert e[0..|e|] == e;
    assert Log.EntryAt(e, 0) == e;
    Log.KeptNone(e, LOG_GUID);
    Log.KeptOneMore(e, [], 0, LOG_GUID);
    assert [] + [0] == [0];
    assert Log.Kept(e, [0], LOG_GUID) == [e];
    assert [e][..0] == [];
    assert Log.SortBySequence([]) == [];
  }

  /** A container whose headers name a log of one entry replays that entry's runs. */
  lemma OneEntryRuns(img: seq<byte>, p: Plan, sequence: u64 := 0)
    requires Fits(p) && Shows(img, p) && |p.log| >= 96
    requires p.head == Head(LOG_GUID, LOG_AT, |p.log|, sequence) && (p.first == p.head || HeadsOk(p))
    requires Log.EntryFits(p.log, 0) && Log.EntryLength(p.log, 0) == |p.log| && Log.Replayable(p.log, LOG_GUID)
    requires Log.TableFits(p.log)
    ensures Log.ReplayRuns(img) == Ok(Log.EntryRuns(p.log))
  {
    hide LeU32, LeU64, ChecksumOk, Head, Log.EntryRuns, Log.Committed, HeaderAt, HeaderOk, ActiveOffset;
    hide Log.TableFits, Log.Replayable, Log.EntryFits;
    HeadReads(LOG_GUID, LOG_AT, |p.log|, sequence);
    HeadersRead(img, p);
    OneEntryCommitted(p.log);
    assert LOG_GUID[0] == 1 && Zeros(16)[0] == 0;
    assert [p.log][..0] == [];
    assert Log.LogRuns([]) == [];
    assert Log.LogRuns([p.log]) == Log.EntryRuns(p.log);
  }

  /** A container whose headers name no log is clean. */
  lemma CleanRead(img: seq<byte>, p: Plan)
    requires Fits(p) && Shows(img, p) && p.first == p.head == Head(Zeros(16), 0, 0)
    ensures Preserve.CleanLog(img) && I.LogZone(img) == None
    ensures HeaderOk(img, HEADER1) && HeaderOk(img, HEADER2)
  {
    hide LeU32, LeU64, ChecksumOk, Head, HeaderAt, HeaderOk;
    HeadReads(Zeros(16), 0, 0);
    HeadersRead(img, p);
  }
}
