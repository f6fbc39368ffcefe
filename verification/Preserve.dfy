/** Repair and the decoded disk: which virtual bytes a repair may change, and into what. */
module Preserve {
  import opened Bytes
  import opened Arith
  import opened Crc
  import opened Header
  import opened Region
  import opened Disk
  import opened Repair
  import opened Fixpoint
  import Bat
  import Chain
  import I = Integrity
  import Log
  import M = Metadata
  import Open
  import Replay

  /** The active header names no log to replay. */
  predicate CleanLog(img: seq<byte>) {
    && ActiveHeader(img).Ok?
    && (ActiveHeader(img).value.logLength == 0 || ActiveHeader(img).value.logGuid == Zeros(16))
  }

  predicate CountsFit(img: seq<byte>) {
    LeU32(img, TABLE1 + 8) <= 2047 && LeU32(img, TABLE2 + 8) <= 2047
  }

  /** The analyser scans the table that the reader reads, with the reader's chunk ratio. */
  ghost predicate SameTable(img: seq<byte>, d: Disk)
    requires Open.MIN_CONTAINER <= |img|
  {
    && I.ParsedLayout(img).Some?
    && d.meta.blockSize > 0
    && var l := I.ParsedLayout(img).value;
       && Open.Regions(img) == Ok(RegionTable(l.bat, l.metadata))
       && l.ChunkRatio() == Some(d.meta.ChunkRatio())
  }

  /**
   A clean container that decodes to `d`, that the analyser reads as the reader does, and whose
   magic the block table does not cover.
   */
  ghost predicate Decodes(img: seq<byte>, parent: Option<Disk>, d: Disk) {
    && Open.MIN_CONTAINER <= |img| < TWO63
    && (parent.Some? ==> WellFormed(parent.value))
    && CleanLog(img) && CountsFit(img) && Apart(img) && RangeOutside(img, 0, 8)
    && Open.FromBytes(img, parent) == Ok(d)
    && SameTable(img, d)
  }

  // ── Opening clean images ──────────────────────────────────────────────────

  lemma CleanOpens(img: seq<byte>, parent: Option<Disk>)
    requires Open.MIN_CONTAINER <= |img| < TWO63 && CleanLog(img) && img[..8] == MAGIC
    ensures Open.FromBytes(img, parent) == Open.Assembled(img, parent)
  {
    hide ActiveHeader, Open.Assembled;
    Log.NoTrip(Replay.SectorEnd);
    Log.NoRuns(img);
  }

  lemma OpenedMagic(img: seq<byte>, parent: Option<Disk>)
    requires |img| < TWO63 && Open.FromBytes(img, parent).Ok?
    ensures |img| >= Open.MIN_CONTAINER && img[..8] == MAGIC && I.Readable(img)
  {
    hide Log.Applied, Open.Assembled;
  }

  // ── Region tables as the reader parses them ───────────────────────────────

  lemma HeadFields(slice: seq<byte>)
    requires |slice| >= TABLE_SIZE && LeU32(slice, 8) <= 2047
    ensures var block := slice[..TABLE_SIZE];
            && block[..4] == slice[..4]
            && LeU32(block, 4) == LeU32(slice, 4)
            && Visited(block) == Visited(slice) <= 2047
            && Covered(block) == Covered(slice)
  {
    hide LeU32;
    var block := slice[..TABLE_SIZE];
    assert block == slice[0..TABLE_SIZE];
    LeU32Slice(slice, 0, TABLE_SIZE, 4);
    LeU32Slice(slice, 0, TABLE_SIZE, 8);
    SliceSlice(slice, 0, TABLE_SIZE, 0, 4);
    assert block[..TABLE_SIZE] == block;
  }

  /** Beyond its 64 KiB the parser looks at nothing, if the entry count allows. */
  lemma TableHead(slice: seq<byte>, n: nat)
    requires |slice| >= TABLE_SIZE && LeU32(slice, 8) <= 2047
    ensures Table(slice, n) == Table(slice[..TABLE_SIZE], n)
  {
    hide LeU32, LeU64, Guid, Crc32c, EntryRegion, EntryGuid, LastRegion, Visited, Covered, Unsigned;
    var block := slice[..TABLE_SIZE];
    HeadFields(slice);
    var k := Visited(slice);
    forall i | 0 <= i < k
      ensures EntryRegion(slice, i) == EntryRegion(block, i) && EntryGuid(slice, i) == EntryGuid(block, i)
    {
      EntryHead(slice, i);
    }
    LastRegionSame(slice, block, k, BAT_GUID);
    LastRegionSame(slice, block, k, METADATA_GUID);
    assert AllInside(slice, k, n) == AllInside(block, k, n);
  }

  lemma EntryHead(slice: seq<byte>, i: nat)
    requires |slice| >= TABLE_SIZE && i < 2047
    ensures var block := slice[..TABLE_SIZE];
            EntryRegion(slice, i) == EntryRegion(block, i) && EntryGuid(slice, i) == EntryGuid(block, i)
  {
    assert slice[..TABLE_SIZE] == slice[0..TABLE_SIZE];
    LeU64Slice(slice, 0, TABLE_SIZE, 16 + i * 32 + 16);
    LeU32Slice(slice, 0, TABLE_SIZE, 16 + i * 32 + 24);
    GuidSlice(slice, 0, TABLE_SIZE, 16 + i * 32);
    hide LeU32, LeU64, Guid;
  }

  lemma {:induction false} LastRegionSame(x: seq<byte>, y: seq<byte>, n: nat, guid: seq<byte>)
    requires forall i :: 0 <= i < n ==> EntryRegion(x, i) == EntryRegion(y, i) && EntryGuid(x, i) == EntryGuid(y, i)
    ensures LastRegion(x, n, guid) == LastRegion(y, n, guid)
  {
    hide EntryRegion, EntryGuid;
    if n > 0 {
      LastRegionSame(x, y, n - 1, guid);
    }
  }

  /** The reader's verdict on one table copy. */
  function CopyTable(img: seq<byte>, c: I.Copy): Result<RegionTable>
    requires I.MIN_SIZE <= |img|
  {
    Table(Slot(img, TableBlock, c), |img|)
  }

  lemma PrefixTable(img: seq<byte>, c: I.Copy)
    requires Open.MIN_CONTAINER <= |img| && CountsFit(img)
    ensures Table(img[..Open.MIN_CONTAINER][Place(TableBlock, c)..], |img|) == CopyTable(img, c)
  {
    var at := Place(TableBlock, c);
    var slice := img[..Open.MIN_CONTAINER][at..];
    SliceSlice(img, 0, Open.MIN_CONTAINER, at, Open.MIN_CONTAINER);
    assert img[..Open.MIN_CONTAINER] == img[0..Open.MIN_CONTAINER];
    assert slice == img[at..Open.MIN_CONTAINER];
    LeU32Slice(img, at, Open.MIN_CONTAINER, 8);
    SliceSlice(img, at, Open.MIN_CONTAINER, 0, TABLE_SIZE);
    assert slice[..TABLE_SIZE] == slice[0..TABLE_SIZE] == Slot(img, TableBlock, c);
    hide Table, LeU32;
    TableHead(slice, |img|);
  }

  lemma RegionsByCopy(img: seq<byte>)
    requires Open.MIN_CONTAINER <= |img| && CountsFit(img)
    ensures Open.Regions(img)
         == if CopyTable(img, I.First).Ok? then CopyTable(img, I.First) else CopyTable(img, I.Second)
  {
    hide CopyTable, Table, CountsFit;
    PrefixTable(img, I.First);
    PrefixTable(img, I.Second);
  }

  lemma BadCopyFails(img: seq<byte>, c: I.Copy)
    requires I.MIN_SIZE <= |img| && !BlockOk(img, TableBlock, c)
    ensures CopyTable(img, c).Err?
  {
    hide Crc32c, LeU64, Guid, AllInside, LastRegion, Visited, LeU32;
    var at := Place(TableBlock, c);
    var block := Slot(img, TableBlock, c);
    SliceSlice(img, at, at + TABLE_SIZE, 0, 4);
    assert Covered(block) == block;
  }

  lemma CountsKept(img: seq<byte>, issues: seq<I.Finding>)
    requires ReportsOn(img, issues) && I.Readable(img) && EntriesClear(img) && CountsFit(img)
    ensures CountsFit(After(img, issues))
  {
    hide ReportsOn, EntriesClear, After, LeU32, BlockOk, Slot;
    CopyAfter(img, issues, TableBlock, I.First);
    CopyAfter(img, issues, TableBlock, I.Second);
    CountIn(After(img, issues), I.First);
    CountIn(After(img, issues), I.Second);
    CountIn(img, I.First);
    CountIn(img, I.Second);
  }

  lemma CountIn(img: seq<byte>, c: I.Copy)
    requires I.MIN_SIZE <= |img|
    ensures LeU32(Slot(img, TableBlock, c), 8) == LeU32(img, (if c == I.First then TABLE1 else TABLE2) + 8)
  {
    hide LeU32;
    LeU32Slice(img, Place(TableBlock, c), Place(TableBlock, c) + TABLE_SIZE, 8);
  }

  /** The reader finds the same regions in the repaired image. */
  lemma RegionsKept(img: seq<byte>, issues: seq<I.Finding>)
    requires ReportsOn(img, issues) && I.Readable(img) && EntriesClear(img) && CountsFit(img)
    requires Open.MIN_CONTAINER <= |img| && Open.Regions(img).Ok?
    ensures Open.Regions(After(img, issues)) == Open.Regions(img)
  {
    hide ReportsOn, EntriesClear, After, CountsFit, Open.Regions, Table, BlockOk, Slot;
    var r := After(img, issues);
    CountsKept(img, issues);
    RegionsByCopy(img);
    RegionsByCopy(r);
    CopyAfter(img, issues, TableBlock, I.First);
    CopyAfter(img, issues, TableBlock, I.Second);
    if !BlockOk(img, TableBlock, I.First) {
      BadCopyFails(img, I.First);
    }
    if !BlockOk(img, TableBlock, I.Second) {
      BadCopyFails(img, I.Second);
    }
  }

  // ── The repaired disk ─────────────────────────────────────────────────────

  lemma CleanKept(img: seq<byte>, issues: seq<I.Finding>)
    requires ReportsOn(img, issues) && I.Readable(img) && EntriesClear(img) && CleanLog(img)
    ensures CleanLog(After(img, issues))
  {
    HeadersAfter(img, issues);
    hide ActiveHeader, ReportsOn, EntriesClear, After;
  }

  lemma ParametersKept(img: seq<byte>, issues: seq<I.Finding>, parent: Option<Disk>, d: Disk)
    requires ReportsOn(img, issues) && Decodes(img, parent, d)
    ensures var md := I.ParsedLayout(img).value.metadata;
            && md.End() <= |img|
            && After(img, issues)[md.offset..md.End()] == img[md.offset..md.End()]
  {
    OpenedMagic(img, parent);
    CleanOpens(img, parent);
    LongEnough(img, parent);
    LayoutKept(img, issues);
    hide I.ParsedLayout, Open.FromBytes, ReportsOn, After, Open.Regions, LayoutOutside, I.HasItems, SameFields;
  }

  lemma LongEnough(img: seq<byte>, parent: Option<Disk>)
    requires Open.MIN_CONTAINER <= |img| < TWO63 && Open.Assembled(img, parent).Ok?
    ensures Open.Regions(img).Ok? && Open.Regions(img).value.metadata.length >= 8
  {
    hide Open.Regions, M.LastItem, M.LastSize, M.Validate;
  }

  lemma AssembledIs(img: seq<byte>, parent: Option<Disk>, regions: RegionTable)
    requires Open.MIN_CONTAINER <= |img| < TWO63 && Open.Regions(img) == Ok(regions)
    ensures regions.bat.End() <= |img| && regions.metadata.End() <= |img|
    ensures Open.Assembled(img, parent)
         == match Open.Parameters(img[regions.metadata.offset..regions.metadata.End()])
            case Err(e) => Err(e)
            case Ok(m) =>
              if m.hasParent && parent.None? then Err(DifferencingNotSupported)
              else Ok(Disk(img, Bat.Entries(img[regions.bat.offset..regions.bat.End()]), m, parent))
  {
    hide Open.Regions, Bat.Entries, Open.Parameters;
  }

  /** The repaired image opens, with the same parameters and parent. */
  lemma Reopens(img: seq<byte>, issues: seq<I.Finding>, parent: Option<Disk>, d: Disk)
    requires ReportsOn(img, issues) && Decodes(img, parent, d)
    ensures var r, l := After(img, issues), I.ParsedLayout(img).value;
            && l.bat.End() <= |img|
            && d == Disk(img, Bat.Entries(img[l.bat.offset..l.bat.End()]), d.meta, parent)
            && Open.FromBytes(r, parent)
               == Ok(Disk(r, Bat.Entries(r[l.bat.offset..l.bat.End()]), d.meta, parent))
  {
    hide I.ParsedLayout, Open.FromBytes, ReportsOn, After, Open.Regions, Bat.Entries, Open.Parameters;
    hide Open.Assembled, CleanLog, CountsFit, EntriesClear, LayoutOutside, I.Readable, I.Layout.ChunkRatio;
    hide M.Meta.ChunkRatio;
    var r, l := After(img, issues), I.ParsedLayout(img).value;
    OpenedMagic(img, parent);
    CleanOpens(img, parent);
    AssembledIs(img, parent, RegionTable(l.bat, l.metadata));
    ParametersKept(img, issues, parent, d);
    ReadableKept(img, issues);
    CleanKept(img, issues);
    RegionsKept(img, issues);
    CleanOpens(r, parent);
    AssembledIs(r, parent, RegionTable(l.bat, l.metadata));
  }

  /** The disk the repaired image decodes to. */
  function Repaired(img: seq<byte>, issues: seq<I.Finding>, d: Disk): Disk
    requires ReportsOn(img, issues)
    requires I.ParsedLayout(img).Some? && I.ParsedLayout(img).value.bat.End() <= |img|
  {
    var r, bat := After(img, issues), I.ParsedLayout(img).value.bat;
    Disk(r, Bat.Entries(r[bat.offset..bat.End()]), d.meta, d.parent)
  }

  /** Each entry of the repaired disk. */
  lemma EntriesRepaired(img: seq<byte>, issues: seq<I.Finding>, parent: Option<Disk>, d: Disk, i: nat)
    requires ReportsOn(img, issues) && Decodes(img, parent, d) && i < |d.entries|
    ensures I.ParsedLayout(img).value.bat.End() <= |img|
    ensures |Repaired(img, issues, d).entries| == |d.entries|
    ensures Repaired(img, issues, d).entries[i] == EntryAfter(d.entries[i], issues, i)
  {
    hide I.ParsedLayout, Open.FromBytes, ReportsOn, After, Open.Regions, LeU64, EntryAfter, EntriesClear;
    hide LayoutOutside, CleanLog, CountsFit;
    hide I.Readable, I.Layout.ChunkRatio, M.Meta.ChunkRatio;
    OpenedMagic(img, parent);
    Reopens(img, issues, parent, d);
    var r, l := After(img, issues), I.ParsedLayout(img).value;
    RawAfter(img, issues, i);
    LeU64Slice(img, l.bat.offset, l.bat.End(), i * 8);
    LeU64Slice(r, l.bat.offset, l.bat.End(), i * 8);
  }

  /** Repair never rewrites a bitmap slot. */
  lemma SlotKept(img: seq<byte>, issues: seq<I.Finding>, i: nat)
    requires ReportsOn(img, issues) && I.ParsedLayout(img).Some? && I.ParsedLayout(img).value.IsBitmapSlot(i)
    ensures !Zeroed(issues, i) && I.BatEntryUnaligned(i) !in issues
  {
    hide I.ParsedLayout, I.LogZone, I.RawEntry, I.Layout.IsBitmapSlot, I.Found, I.Panics, Offends;
    FoundOffends(img, I.UndefinedBlockState(i));
    FoundOffends(img, I.BatEntryUnaligned(i));
    FoundOffends(img, I.BatEntryInStructuralRegion(i));
    FoundOffends(img, I.BatEntryBeyondContainer(i));
  }

  /** The BAT index of the block that holds `v`. */
  function IndexOf(d: Disk, v: nat): nat
    requires WellFormed(d)
  {
    Bat.PayloadIndex(Div(v, d.meta.blockSize), d.meta.ChunkRatio())
  }

  lemma Formed(img: seq<byte>, issues: seq<I.Finding>, parent: Option<Disk>, d: Disk)
    requires ReportsOn(img, issues) && Decodes(img, parent, d)
    ensures I.ParsedLayout(img).value.bat.End() <= |img|
    ensures WellFormed(d) && WellFormed(Repaired(img, issues, d)) && d.parent == parent
  {
    OpenedMagic(img, parent);
    CleanOpens(img, parent);
    AssembledValid(img, parent);
    hide I.ParsedLayout, Open.FromBytes, ReportsOn, After, Open.Regions, M.Validate;
    Bat.ValidUsable(d.meta);
    Reopens(img, issues, parent, d);
  }

  lemma AssembledValid(img: seq<byte>, parent: Option<Disk>)
    requires Open.MIN_CONTAINER <= |img| < TWO63
    ensures var d := Open.Assembled(img, parent);
            d.Ok? ==> d.value.view == img && d.value.parent == parent && M.Valid(d.value.meta)
  {
    hide Open.Regions, Open.Parameters, M.Validate;
  }

  /** Translation sees of an entry its state and its offset, and the chunk's bitmap entry. */
  lemma TargetSees(x: seq<u64>, y: seq<u64>, m: M.Meta, v: nat)
    requires Bat.Usable(m) && |x| == |y|
    requires var i := Bat.PayloadIndex(Div(v, m.blockSize), m.ChunkRatio());
             i < |x| ==> x[i] % 8 == y[i] % 8 && x[i] / MIB == y[i] / MIB
    requires var s := Bat.BitmapIndex(Div(v, m.blockSize), m.ChunkRatio());
             s < |x| ==> x[s] % 8 == y[s] % 8 && x[s] / MIB == y[s] / MIB
    ensures Bat.ReadTarget(x, m, v) == Bat.ReadTarget(y, m, v)
  {
    hide Div, Mod, M.Meta.ChunkRatio, M.SectorsPerBlock;
  }

  lemma TargetKept(img: seq<byte>, issues: seq<I.Finding>, parent: Option<Disk>, d: Disk, v: nat)
    requires ReportsOn(img, issues) && Decodes(img, parent, d)
    ensures I.ParsedLayout(img).value.bat.End() <= |img|
    ensures WellFormed(d) && WellFormed(Repaired(img, issues, d))
    ensures !Zeroed(issues, IndexOf(d, v)) ==> TargetOf(Repaired(img, issues, d), v) == TargetOf(d, v)
  {
    Formed(img, issues, parent, d);
    var e, i := Repaired(img, issues, d), IndexOf(d, v);
    var ratio := d.meta.ChunkRatio();
    var slot := Bat.BitmapIndex(Div(v, d.meta.blockSize), ratio);
    I.SlotsAgree(I.ParsedLayout(img).value, Div(v, d.meta.blockSize));
    SlotKept(img, issues, slot);
    hide I.ParsedLayout, ReportsOn, Open.FromBytes, Open.Regions, Apart, CleanLog, CountsFit;
    hide Div, Mod, M.Meta.ChunkRatio, M.Validate, Bat.ReadTarget, Cleaned, Repaired, Bat.PayloadIndex, Bat.BitmapIndex;
    SameCount(img, issues, parent, d);
    if !Zeroed(issues, i) {
      if i < |d.entries| {
        EntriesRepaired(img, issues, parent, d, i);
        CleanedKeeps(d.entries[i]);
      }
      if slot < |d.entries| {
        EntriesRepaired(img, issues, parent, d, slot);
      }
      TargetSees(d.entries, e.entries, d.meta, v);
    }
  }

  lemma SameCount(img: seq<byte>, issues: seq<I.Finding>, parent: Option<Disk>, d: Disk)
    requires ReportsOn(img, issues) && Decodes(img, parent, d)
    ensures I.ParsedLayout(img).value.bat.End() <= |img|
    ensures |Repaired(img, issues, d).entries| == |d.entries| && Repaired(img, issues, d).meta == d.meta
    ensures Repaired(img, issues, d).view == After(img, issues) && Repaired(img, issues, d).parent == d.parent
    ensures d.view == img
  {
    hide I.ParsedLayout, ReportsOn, Open.FromBytes, Open.Regions, After, LeU64, Apart, CleanLog, CountsFit;
    hide I.Layout.ChunkRatio, M.Meta.ChunkRatio;
    Reopens(img, issues, parent, d);
  }

  // ── What one virtual byte becomes ─────────────────────────────────────────

  /** Nothing that a read of `v` consults in this image lies where repair may write. */
  ghost predicate ReadsOutside(img: seq<byte>, d: Disk, v: nat)
    requires WellFormed(d)
  {
    forall a: nat :: Chain.Consults(d, v, a) ==> Outside(img, a)
  }

  lemma UnzeroedByte(img: seq<byte>, issues: seq<I.Finding>, parent: Option<Disk>, d: Disk, v: nat)
    requires ReportsOn(img, issues) && Decodes(img, parent, d) && WellFormed(d)
    requires !Zeroed(issues, IndexOf(d, v)) && ReadsOutside(img, d, v)
    ensures I.ParsedLayout(img).value.bat.End() <= |img| && WellFormed(Repaired(img, issues, d))
    ensures ByteAt(Repaired(img, issues, d), v) == ByteAt(d, v)
  {
    hide I.ParsedLayout, ReportsOn, Decodes, Outside, TargetOf, BitSet, WellFormed, Zeroed, IndexOf, ByteAt;
    hide Chain.Consults;
    hide Repaired, After;
    DecodedLayout(img, issues, parent, d);
    TargetKept(img, issues, parent, d, v);
    SameCount(img, issues, parent, d);
    var e := Repaired(img, issues, d);
    forall a: nat | Chain.Consults(d, v, a) && a < |img|
      ensures d.view[a] == e.view[a]
    {
      OutsideKept(img, issues, a);
    }
    Chain.SameImageByte(d, e, v);
  }

  lemma FoundRaw(img: seq<byte>, issues: seq<I.Finding>, f: I.Finding)
    requires ReportsOn(img, issues) && I.NamesEntry(f) && f in issues
    ensures I.ParsedLayout(img).Some? && f.index < I.ParsedLayout(img).value.Count()
    ensures var raw := I.RawEntry(img, I.ParsedLayout(img).value, f.index);
            && (f.UndefinedBlockState? ==> raw % 8 == 1)
            && (f.BatEntryBeyondContainer? ==> raw % 8 == 6 && I.OffsetOf(raw) >= |img|)
  {
    hide I.ParsedLayout, I.Structural, I.LogZone, I.RawEntry, I.Found, I.Panics, I.PayloadEntry;
    FoundOffends(img, f);
    PayloadScanned(img, f.index);
  }

  lemma DecodedLayout(img: seq<byte>, issues: seq<I.Finding>, parent: Option<Disk>, d: Disk)
    requires ReportsOn(img, issues) && Decodes(img, parent, d)
    ensures I.ParsedLayout(img).Some? && I.ParsedLayout(img).value.bat.End() <= |img|
  {
    hide I.ParsedLayout, ReportsOn, Open.FromBytes, Open.Regions, After, Apart, CleanLog, CountsFit;
    hide I.Layout.ChunkRatio, M.Meta.ChunkRatio;
    Reopens(img, issues, parent, d);
  }

  /** The reader's entries are the analyser's. */
  lemma DecodedEntry(img: seq<byte>, issues: seq<I.Finding>, parent: Option<Disk>, d: Disk, i: nat)
    requires ReportsOn(img, issues) && Decodes(img, parent, d)
    ensures i < I.ParsedLayout(img).value.Count() ==>
              i < |d.entries| && d.entries[i] == I.RawEntry(img, I.ParsedLayout(img).value, i)
  {
    hide I.ParsedLayout, ReportsOn, Open.FromBytes, Open.Regions, After, Apart, CleanLog, CountsFit, LeU64;
    hide I.Layout.ChunkRatio, M.Meta.ChunkRatio;
    Reopens(img, issues, parent, d);
    var l := I.ParsedLayout(img).value;
    if i < l.Count() {
      LeU64Slice(img, l.bat.offset, l.bat.End(), i * 8);
    }
  }

  /** The entry that a finding names, as the reader has it. */
  lemma FoundEntry(img: seq<byte>, issues: seq<I.Finding>, parent: Option<Disk>, d: Disk, f: I.Finding)
    requires ReportsOn(img, issues) && Decodes(img, parent, d) && I.NamesEntry(f) && f in issues
    ensures f.index < |d.entries|
    ensures f.UndefinedBlockState? ==> d.entries[f.index] % 8 == 1
    ensures f.BatEntryBeyondContainer? ==> d.entries[f.index] % 8 == 6 && d.entries[f.index] / MIB * MIB >= |img|
  {
    hide I.ParsedLayout, ReportsOn, Decodes, I.RawEntry;
    FoundRaw(img, issues, f);
    DecodedEntry(img, issues, parent, d, f.index);
  }

  lemma ZeroedByte(img: seq<byte>, issues: seq<I.Finding>, parent: Option<Disk>, d: Disk, v: nat)
    requires ReportsOn(img, issues) && Decodes(img, parent, d) && WellFormed(d)
    requires v < d.meta.diskSize && Zeroed(issues, IndexOf(d, v))
    ensures I.ParsedLayout(img).value.bat.End() <= |img| && WellFormed(Repaired(img, issues, d))
    ensures ByteAt(Repaired(img, issues, d), v) == ParentByte(parent, v)
  {
    hide I.ParsedLayout, ReportsOn, Decodes, After, WellFormed, ByteAt, Repaired, IndexOf;
    DecodedLayout(img, issues, parent, d);
    Formed(img, issues, parent, d);
    SameCount(img, issues, parent, d);
    var i := IndexOf(d, v);
    var f := if I.UndefinedBlockState(i) in issues then I.UndefinedBlockState(i)
      else if I.BatEntryInStructuralRegion(i) in issues then I.BatEntryInStructuralRegion(i)
      else I.BatEntryBeyondContainer(i);
    FoundEntry(img, issues, parent, d, f);
    EntriesRepaired(img, issues, parent, d, i);
    SameIndex(d, Repaired(img, issues, d), v);
    AbsentByte(Repaired(img, issues, d), v);
  }

  lemma SameIndex(d: Disk, e: Disk, v: nat)
    requires WellFormed(d) && WellFormed(e) && d.meta == e.meta
    ensures IndexOf(d, v) == IndexOf(e, v)
  {
    hide WellFormed;
  }

  lemma AbsentByte(d: Disk, v: nat)
    requires WellFormed(d) && v < d.meta.diskSize
    requires IndexOf(d, v) < |d.entries| && d.entries[IndexOf(d, v)] % 8 == 0
    ensures ByteAt(d, v) == ParentByte(d.parent, v)
  {
    hide M.Validate, Div, Mod, M.Meta.ChunkRatio;
  }

  lemma UndefinedByte(d: Disk, v: nat)
    requires WellFormed(d) && v < d.meta.diskSize
    requires IndexOf(d, v) < |d.entries| && d.entries[IndexOf(d, v)] % 8 == 1
    ensures ByteAt(d, v) == Ok(0)
  {
    hide M.Validate, Div, Mod, M.Meta.ChunkRatio;
  }

  lemma BeyondByte(d: Disk, v: nat)
    requires WellFormed(d) && v < d.meta.diskSize && IndexOf(d, v) < |d.entries|
    requires d.entries[IndexOf(d, v)] % 8 == 6 && d.entries[IndexOf(d, v)] / MIB * MIB >= |d.view|
    ensures ByteAt(d, v).Err?
  {
    hide M.Validate, Div, Mod, M.Meta.ChunkRatio;
  }

  /**
   The repaired image opens as `Repaired`. A byte whose entry was not zeroed reads as before, if
   what it reads lies clear of the repaired blocks and of the block table. A byte whose entry
   was zeroed now reads as the parent's; it read as zero if the entry was undefined, and could
   not be read at all if the entry pointed past the container.
   */
  lemma RepairedByte(img: seq<byte>, issues: seq<I.Finding>, parent: Option<Disk>, d: Disk, v: nat)
    requires ReportsOn(img, issues) && Decodes(img, parent, d) && v < d.meta.diskSize
    ensures I.ParsedLayout(img).value.bat.End() <= |img|
    ensures WellFormed(d) && WellFormed(Repaired(img, issues, d))
    ensures Open.FromBytes(After(img, issues), parent) == Ok(Repaired(img, issues, d))
    ensures var e, i := Repaired(img, issues, d), IndexOf(d, v);
            && (!Zeroed(issues, i) && ReadsOutside(img, d, v) ==> ByteAt(e, v) == ByteAt(d, v))
            && (Zeroed(issues, i) ==> ByteAt(e, v) == ParentByte(parent, v))
            && (I.UndefinedBlockState(i) in issues ==> ByteAt(d, v) == Ok(0))
            && (I.BatEntryBeyondContainer(i) in issues ==> ByteAt(d, v).Err?)
  {
    Formed(img, issues, parent, d);
    SameCount(img, issues, parent, d);
    Reopens(img, issues, parent, d);
    var i := IndexOf(d, v);
    if I.UndefinedBlockState(i) in issues {
      FoundEntry(img, issues, parent, d, I.UndefinedBlockState(i));
      UndefinedByte(d, v);
    }
    if I.BatEntryBeyondContainer(i) in issues {
      FoundEntry(img, issues, parent, d, I.BatEntryBeyondContainer(i));
      BeyondByte(d, v);
    }
    hide I.ParsedLayout, ReportsOn, Decodes, After, WellFormed, ByteAt, IndexOf, Zeroed, ReadsOutside, Open.FromBytes;
    if Zeroed(issues, i) {
      ZeroedByte(img, issues, parent, d, v);
    } else if ReadsOutside(img, d, v) {
      UnzeroedByte(img, issues, parent, d, v);
    }
  }

  /**
   Zeroing an undefined entry keeps the byte exactly when the parent shows zero there: always
   without a parent, not on a differencing disk whose parent has data.
   */
  lemma UndefinedKeptExactly(img: seq<byte>, issues: seq<I.Finding>, parent: Option<Disk>, d: Disk, v: nat)
    requires ReportsOn(img, issues) && Decodes(img, parent, d) && v < d.meta.diskSize
    requires WellFormed(d) && I.UndefinedBlockState(IndexOf(d, v)) in issues
    ensures I.ParsedLayout(img).value.bat.End() <= |img| && WellFormed(Repaired(img, issues, d))
    ensures ByteAt(Repaired(img, issues, d), v) == ByteAt(d, v) <==> ParentByte(parent, v) == Ok(0)
    ensures parent.None? ==> ByteAt(Repaired(img, issues, d), v) == ByteAt(d, v) == Ok(0)
  {
    hide I.ParsedLayout, ReportsOn, Decodes, After, WellFormed, ByteAt, IndexOf, Repaired;
    RepairedByte(img, issues, parent, d, v);
  }

  // ── Whole reads ───────────────────────────────────────────────────────────

  /** Repair leaves the byte as it was. */
  ghost predicate Safe(img: seq<byte>, issues: seq<I.Finding>, d: Disk, v: nat)
    requires WellFormed(d)
  {
    && v < d.meta.diskSize
    && if I.UndefinedBlockState(IndexOf(d, v)) in issues then ParentByte(d.parent, v) == Ok(0)
       else !Zeroed(issues, IndexOf(d, v)) && ReadsOutside(img, d, v)
  }

  lemma SafeByte(img: seq<byte>, issues: seq<I.Finding>, parent: Option<Disk>, d: Disk, v: nat)
    requires ReportsOn(img, issues) && Decodes(img, parent, d) && WellFormed(d) && Safe(img, issues, d, v)
    ensures I.ParsedLayout(img).value.bat.End() <= |img| && WellFormed(Repaired(img, issues, d))
    ensures ByteAt(Repaired(img, issues, d), v) == ByteAt(d, v)
  {
    hide I.ParsedLayout, ReportsOn, Decodes, After, WellFormed, ByteAt, IndexOf, Repaired, ReadsOutside;
    RepairedByte(img, issues, parent, d, v);
    Formed(img, issues, parent, d);
  }

  /** A read of safe bytes succeeds after repair exactly when it did before, with the same bytes. */
  lemma RepairedRead(img: seq<byte>, issues: seq<I.Finding>, parent: Option<Disk>, d: Disk, v: nat, n: nat)
    requires ReportsOn(img, issues) && Decodes(img, parent, d) && WellFormed(d)
    requires forall w :: v <= w < v + n ==> Safe(img, issues, d, w)
    ensures I.ParsedLayout(img).value.bat.End() <= |img| && WellFormed(Repaired(img, issues, d))
    ensures var e := Repaired(img, issues, d);
            && (Resolves(e, v, n) <==> Resolves(d, v, n))
            && (Resolves(d, v, n) ==> Span(e, v, n) == Span(d, v, n))
  {
    hide I.ParsedLayout, ReportsOn, Decodes, After, WellFormed, ByteAt, Repaired, Safe, Resolves, Span;
    DecodedLayout(img, issues, parent, d);
    Formed(img, issues, parent, d);
    var e := Repaired(img, issues, d);
    forall w | v <= w < v + n
      ensures ByteAt(e, w) == ByteAt(d, w)
    {
      SafeByte(img, issues, parent, d, w);
    }
    SpansAgree(d, e, v, n);
  }

  lemma SpansAgree(d: Disk, e: Disk, v: nat, n: nat)
    requires WellFormed(d) && WellFormed(e) && forall w :: v <= w < v + n ==> ByteAt(e, w) == ByteAt(d, w)
    ensures Resolves(e, v, n) <==> Resolves(d, v, n)
    ensures Resolves(d, v, n) ==> Span(e, v, n) == Span(d, v, n)
  {
    hide WellFormed, ByteAt;
    if Resolves(d, v, n) {
      assert Resolves(e, v, n);
      var a, b := Span(e, v, n), Span(d, v, n);
      assert forall i :: 0 <= i < n ==> a[i] == b[i];
    }
  }
}
