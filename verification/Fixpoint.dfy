/** Repair reaches a fixpoint: what it leaves behind gives it nothing more to do. */
module Fixpoint {
  import opened Bytes
  import opened Crc
  import opened Header
  import opened Region
  import opened Integrity
  import opened Repair

  /** The repaired image. */
  function After(img: seq<byte>, issues: seq<Finding>): (r: seq<byte>)
    requires ReportsOn(img, issues)
    ensures |r| == |img|
  {
    ReportedCanFix(img, issues);
    FixAll(img, BatOffset(img), issues)
  }

  // ── What repair writes ────────────────────────────────────────────────────

  /** Repair leaves `p` alone: no finding that it repairs and that holds of the image names it. */
  ghost predicate Outside(img: seq<byte>, p: nat) {
    forall f :: Repairable(f) && Found(img, f) ==> !Touches(BatOffset(img), f, p)
  }

  ghost predicate RangeOutside(img: seq<byte>, lo: nat, hi: nat) {
    forall p :: lo <= p < hi ==> Outside(img, p)
  }

  /** The metadata fields that the layout is made of lie outside. */
  ghost predicate FieldsOutside(img: seq<byte>, metadata: Region, at: Fields) {
    && (at.params.Some? ==> RangeOutside(img, metadata.offset + at.params.value, metadata.offset + at.params.value + 8))
    && (at.sector.Some? ==> RangeOutside(img, metadata.offset + at.sector.value, metadata.offset + at.sector.value + 4))
    && (at.size.Some? ==> RangeOutside(img, metadata.offset + at.size.value, metadata.offset + at.size.value + 8))
  }

  /** The entry is one that repair rewrites. */
  predicate Reported(img: seq<byte>, i: nat) {
    || Found(img, UndefinedBlockState(i)) || Found(img, BatEntryUnaligned(i))
    || Found(img, BatEntryInStructuralRegion(i)) || Found(img, BatEntryBeyondContainer(i))
  }

  lemma ReportedBy(img: seq<byte>, f: Finding)
    requires NamesEntry(f) && Found(img, f)
    ensures Reported(img, f.index)
  {
    hide Found;
  }

  /** An entry at `at` shares no byte with copy `c`. */
  predicate ClearOf(at: nat, k: Kind, c: Copy) {
    at + 8 <= Place(k, c) || Place(k, c) + Size(k) <= at
  }

  /** An entry that repair rewrites is clear of all four block copies, every other of those replaced. */
  predicate EntryApart(img: seq<byte>, i: nat, at: nat) {
    && (Reported(img, i) ==> EntryClear(at))
    && forall k: Kind, c: Copy :: Found(img, Mismatch(k, c)) ==> ClearOf(at, k, c)
  }

  /** The scanned entries and the block copies do not get into each other's way. */
  predicate EntriesClear(img: seq<byte>) {
    Scannable(img) ==>
      forall i :: 0 <= i < ParsedLayout(img).value.Count() ==>
        EntryApart(img, i, ParsedLayout(img).value.bat.offset + i * 8)
  }

  /** What the layout is read from lies outside. */
  ghost predicate LayoutOutside(img: seq<byte>) {
    ParsedLayout(img).Some? ==>
      var md := ParsedLayout(img).value.metadata;
      && (md.End() <= |img| && md.length >= 8 ==> RangeOutside(img, md.offset, md.End()))
      && (HasItems(img, md) ==>
            FieldsOutside(img, md, FieldsIn(img[md.offset..md.End()], |img| - md.offset)))
  }

  /** What repair writes is clear of the blocks, entries and fields that it takes as they are. */
  ghost predicate Apart(img: seq<byte>) {
    EntriesClear(img) && LayoutOutside(img)
  }

  // ── Enough, by position alone ─────────────────────────────────────────────

  /** `p` belongs to a header or region table copy. */
  predicate InBlocks(p: nat) {
    exists k: Kind, c: Copy :: Place(k, c) <= p < Place(k, c) + Size(k)
  }

  /** `p` belongs to a BAT entry that the analyser scans. */
  predicate InEntries(img: seq<byte>, p: nat) {
    && Scannable(img)
    && var l := ParsedLayout(img).value;
       l.bat.offset <= p < l.bat.offset + l.Count() * 8
  }

  /** Repair writes nothing but copies and scanned entries. */
  lemma FarOutside(img: seq<byte>, p: nat)
    requires !InBlocks(p) && !InEntries(img, p)
    ensures Outside(img, p)
  {
    hide Found, InEntries;
    forall f | Repairable(f) && Found(img, f)
      ensures !Touches(BatOffset(img), f, p)
    {
      FoundElsewhere(img, f, p);
    }
  }

  lemma FoundElsewhere(img: seq<byte>, f: Finding, p: nat)
    requires Repairable(f) && Found(img, f) && !InBlocks(p) && !InEntries(img, p)
    ensures !Touches(BatOffset(img), f, p)
  {
    hide BadBesideGood, ParsedLayout, LogZone, Holds, Place;
    if OnCopy(f) {
      var k := if f.HeaderChecksumMismatch? then HeaderBlock else TableBlock;
      assert !(Place(k, f.copy) <= p < Place(k, f.copy) + Size(k));
    }
  }

  /** Entries clear of all four copies are apart. */
  lemma FarEntry(img: seq<byte>, i: nat, at: nat)
    requires EntryClear(at)
    ensures EntryApart(img, i, at)
  {
    hide Found, Place;
    forall k: Kind, c: Copy
      ensures ClearOf(at, k, c)
    {}
  }

  lemma FoundClear(img: seq<byte>, f: Finding)
    requires EntriesClear(img) && Repairable(f) && Found(img, f)
    ensures Clear(BatOffset(img), f)
  {
    if NamesEntry(f) {
      FoundScanned(img, f);
      ReportedBy(img, f);
    }
    hide ParsedLayout, EntryClear, Reported, Found, Mismatch;
  }

  lemma FoundScanned(img: seq<byte>, f: Finding)
    requires NamesEntry(f) && Found(img, f)
    ensures Scannable(img) && f.index < ParsedLayout(img).value.Count()
  {
    hide ParsedLayout, LogZone, Holds;
  }

  /** Every reported repair is clear of the block copies. */
  lemma ReportedClear(img: seq<byte>, issues: seq<Finding>)
    requires ReportsOn(img, issues) && EntriesClear(img)
    ensures forall f :: f in issues ==> Clear(BatOffset(img), f)
  {
    forall f | f in issues
      ensures Clear(BatOffset(img), f)
    {
      if Repairable(f) {
        FoundClear(img, f);
      }
    }
  }

  // ── What repair leaves alone ──────────────────────────────────────────────

  lemma OutsideKept(img: seq<byte>, issues: seq<Finding>, p: nat)
    requires ReportsOn(img, issues) && p < |img| && Outside(img, p)
    ensures After(img, issues)[p] == img[p]
  {
    hide Found, CanFix, ParsedLayout, FixAll, Touches, Panics, BatOffset;
    ReportedCanFix(img, issues);
    forall f | f in issues
      ensures !Touches(BatOffset(img), f, p)
    {
      if !Repairable(f) {
        OthersTouchNothing(BatOffset(img), f, p);
      }
    }
    Frame(img, BatOffset(img), issues, p);
  }

  lemma OthersTouchNothing(bat: Option<nat>, f: Finding, p: nat)
    requires !Repairable(f)
    ensures !Touches(bat, f, p)
  {}

  lemma SliceKept(img: seq<byte>, issues: seq<Finding>, lo: nat, hi: nat)
    requires ReportsOn(img, issues) && lo <= hi <= |img|
    requires forall p :: lo <= p < hi ==> Outside(img, p)
    ensures After(img, issues)[lo..hi] == img[lo..hi]
  {
    hide Outside, After, ReportsOn;
    forall p | lo <= p < hi
      ensures After(img, issues)[p] == img[p]
    {
      OutsideKept(img, issues, p);
    }
    SameSlice(After(img, issues), img, lo, hi);
  }

  lemma ReadableKept(img: seq<byte>, issues: seq<Finding>)
    requires ReportsOn(img, issues) && RangeOutside(img, 0, 8) && Readable(img)
    ensures Readable(After(img, issues)) && After(img, issues)[..8] == MAGIC
  {
    hide Outside, ReportsOn;
    SliceKept(img, issues, 0, 8);
    assert After(img, issues)[..8] == After(img, issues)[0..8] && img[..8] == img[0..8];
  }

  // ── Headers and region tables ─────────────────────────────────────────────

  predicate BlockOk(img: seq<byte>, k: Kind, c: Copy) {
    match k
    case HeaderBlock => HeaderOk(img, Place(k, c))
    case TableBlock => TableOk(img, Place(k, c))
  }

  lemma MismatchFound(img: seq<byte>, k: Kind, c: Copy)
    requires Readable(img)
    ensures Stated(Mismatch(k, c))
    ensures Found(img, Mismatch(k, c)) <==> !BlockOk(img, k, c) && BlockOk(img, k, OtherCopy(c))
    ensures Repairable(Mismatch(k, c))
  {
    hide HeaderOk, TableOk;
  }

  lemma OkSlotSigned(img: seq<byte>, k: Kind, c: Copy)
    requires MIN_SIZE <= |img| && BlockOk(img, k, c)
    ensures Signed(Slot(img, k, c)) == Slot(img, k, c)
  {
    hide Crc32c, Signed;
    SignedIdentity(Slot(img, k, c));
  }

  /** A bad copy beside a good one becomes the good one; otherwise both stay. */
  lemma CopyAfter(img: seq<byte>, issues: seq<Finding>, k: Kind, c: Copy)
    requires ReportsOn(img, issues) && Readable(img) && EntriesClear(img)
    ensures Slot(After(img, issues), k, c)
         == if !BlockOk(img, k, c) && BlockOk(img, k, OtherCopy(c)) then Slot(img, k, OtherCopy(c)) else Slot(img, k, c)
  {
    ReportedClear(img, issues);
    ReportedCanFix(img, issues);
    MismatchFound(img, k, c);
    MismatchFound(img, k, OtherCopy(c));
    hide Found, EntriesClear, BatOffset, FixAll, CanFix, Slot, BlockOk, Signed, Mismatch, Repairable, Readable, Clear;
    hide Panics;
    if Mismatch(k, OtherCopy(c)) in issues {
      SlotRepaired(img, BatOffset(img), issues, k, OtherCopy(c));
    } else {
      SlotRepaired(img, BatOffset(img), issues, k, c);
      if Mismatch(k, c) in issues {
        OkSlotSigned(img, k, OtherCopy(c));
      }
    }
  }

  lemma TableSlotFrame(x: seq<byte>, y: seq<byte>, a: nat, b: nat)
    requires a + TABLE_SIZE <= |x| && b + TABLE_SIZE <= |y|
    requires x[a..a + TABLE_SIZE] == y[b..b + TABLE_SIZE]
    ensures TableOk(x, a) == TableOk(y, b) && RegionsAt(x, a) == RegionsAt(y, b)
  {
    hide Crc32c, ChecksumOk, TableRegions;
    SliceSlice(x, a, a + TABLE_SIZE, 0, 4);
    SliceSlice(y, b, b + TABLE_SIZE, 0, 4);
  }

  /** Equal slots are judged alike and say the same, whichever copies they are. */
  lemma SlotSays(x: seq<byte>, y: seq<byte>, k: Kind, c: Copy, e: Copy)
    requires MIN_SIZE <= |x| && MIN_SIZE <= |y| && Slot(x, k, c) == Slot(y, k, e)
    ensures BlockOk(x, k, c) == BlockOk(y, k, e)
    ensures k == HeaderBlock ==> HeaderAt(x, Place(k, c)) == HeaderAt(y, Place(k, e))
    ensures k == TableBlock ==> RegionsAt(x, Place(k, c)) == RegionsAt(y, Place(k, e))
  {
    hide HeaderOk, TableOk, HeaderAt, RegionsAt;
    match k
    case HeaderBlock => HeaderSlotFrame(x, y, Place(k, c), Place(k, e));
    case TableBlock => TableSlotFrame(x, y, Place(k, c), Place(k, e));
  }

  /** Where copy `c` of the repaired image comes from. */
  function Origin(img: seq<byte>, k: Kind, c: Copy): Copy {
    if !BlockOk(img, k, c) && BlockOk(img, k, OtherCopy(c)) then OtherCopy(c) else c
  }

  lemma CopySays(img: seq<byte>, issues: seq<Finding>, k: Kind, c: Copy)
    requires ReportsOn(img, issues) && Readable(img) && EntriesClear(img)
    ensures var r, e := After(img, issues), Origin(img, k, c);
            && BlockOk(r, k, c) == BlockOk(img, k, e)
            && (k == HeaderBlock ==> HeaderAt(r, Place(k, c)) == HeaderAt(img, Place(k, e)))
            && (k == TableBlock ==> RegionsAt(r, Place(k, c)) == RegionsAt(img, Place(k, e)))
  {
    hide BlockOk, HeaderAt, RegionsAt, Slot, ReportsOn, EntriesClear;
    CopyAfter(img, issues, k, c);
    SlotSays(After(img, issues), img, k, c, Origin(img, k, c));
  }

  /** The active header keeps its contents, so the log does. */
  lemma HeadersAfter(img: seq<byte>, issues: seq<Finding>)
    requires ReportsOn(img, issues) && Readable(img) && EntriesClear(img)
    ensures ActiveHeader(After(img, issues)) == ActiveHeader(img)
    ensures LogZone(After(img, issues)) == LogZone(img)
  {
    hide HeaderOk, HeaderAt, ReportsOn, EntriesClear, Readable;
    var r := After(img, issues);
    CopySays(img, issues, HeaderBlock, First);
    CopySays(img, issues, HeaderBlock, Second);
    SequenceOf(r, HEADER1);
    SequenceOf(r, HEADER2);
    SequenceOf(img, HEADER1);
    SequenceOf(img, HEADER2);
    hide LeU64;
  }

  lemma SequenceOf(x: seq<byte>, at: nat)
    ensures LeU64(x, at + 8) == HeaderAt(x, at).sequence
  {
    hide LeU64, LeU32, Guid;
  }

  lemma NoRegionsWithoutTable(x: seq<byte>, c: Copy)
    ensures !BlockOk(x, TableBlock, c) ==> RegionsAt(x, Place(TableBlock, c)).None?
  {
    hide TableOk, TableRegions;
  }

  lemma TablesAfter(img: seq<byte>, issues: seq<Finding>)
    requires ReportsOn(img, issues) && Readable(img) && EntriesClear(img)
    ensures NamedRegions(After(img, issues)) == NamedRegions(img)
  {
    hide BlockOk, RegionsAt, ReportsOn, EntriesClear, Readable, After;
    CopySays(img, issues, TableBlock, First);
    CopySays(img, issues, TableBlock, Second);
    NoRegionsWithoutTable(img, First);
    NoRegionsWithoutTable(img, Second);
  }

  // ── Layout ────────────────────────────────────────────────────────────────

  predicate SameRegion(x: seq<byte>, y: seq<byte>, metadata: Region) {
    && |x| == |y|
    && (metadata.End() <= |x| && metadata.length >= 8 ==>
          x[metadata.offset..metadata.End()] == y[metadata.offset..metadata.End()])
  }

  lemma HasItemsFrame(x: seq<byte>, y: seq<byte>, metadata: Region)
    requires SameRegion(x, y, metadata)
    ensures HasItems(x, metadata) == HasItems(y, metadata)
  {
    if metadata.End() <= |x| && metadata.length >= 8 {
      SliceSlice(x, metadata.offset, metadata.End(), 0, 8);
      SliceSlice(y, metadata.offset, metadata.End(), 0, 8);
      assert metadata.offset + 0 == metadata.offset;
    }
  }

  predicate SameOn(x: seq<byte>, y: seq<byte>, lo: nat, hi: nat) {
    |x| == |y| && hi <= |x| && forall p :: lo <= p < hi ==> x[p] == y[p]
  }

  /** The fields at `at` have the same bytes. */
  predicate SameFields(x: seq<byte>, y: seq<byte>, metadata: Region, at: Fields) {
    && (at.params.Some? ==> SameOn(x, y, metadata.offset + at.params.value, metadata.offset + at.params.value + 8))
    && (at.sector.Some? ==> SameOn(x, y, metadata.offset + at.sector.value, metadata.offset + at.sector.value + 4))
    && (at.size.Some? ==> SameOn(x, y, metadata.offset + at.size.value, metadata.offset + at.size.value + 8))
  }

  lemma LayoutFrame(x: seq<byte>, y: seq<byte>, bat: Region, metadata: Region)
    requires SameRegion(x, y, metadata)
    requires HasItems(x, metadata) ==>
               SameFields(x, y, metadata, FieldsIn(x[metadata.offset..metadata.End()], |x| - metadata.offset))
    ensures LayoutOf(x, bat, metadata) == LayoutOf(y, bat, metadata)
  {
    hide LayoutOf, HasItems, FieldsIn, Described, SameFields;
    HasItemsFrame(x, y, metadata);
    LayoutCases(x, bat, metadata);
    LayoutCases(y, bat, metadata);
    if HasItems(x, metadata) {
      HasItemsFits(x, metadata);
      var region, room := x[metadata.offset..metadata.End()], |x| - metadata.offset;
      assert region == y[metadata.offset..metadata.End()];
      DescribedFrame(x, y, bat, metadata, FieldsIn(region, room));
    }
  }

  lemma HasItemsFits(x: seq<byte>, metadata: Region)
    requires HasItems(x, metadata)
    ensures metadata.End() <= |x| && metadata.length >= 8
  {}

  lemma LayoutCases(x: seq<byte>, bat: Region, metadata: Region)
    ensures !HasItems(x, metadata) ==> LayoutOf(x, bat, metadata) == Layout(bat, metadata, None, None, None, false)
    ensures HasItems(x, metadata) ==>
              metadata.End() <= |x| && LayoutOf(x, bat, metadata)
              == Described(x, bat, metadata,
                           FieldsIn(x[metadata.offset..metadata.End()], |x| - metadata.offset))
  {
    hide FieldsIn, Described;
  }

  lemma DescribedFrame(x: seq<byte>, y: seq<byte>, bat: Region, metadata: Region, at: Fields)
    requires SameFields(x, y, metadata, at)
    ensures Described(x, bat, metadata, at) == Described(y, bat, metadata, at)
  {}

  lemma LayoutKept(img: seq<byte>, issues: seq<Finding>)
    requires ReportsOn(img, issues) && LayoutOutside(img) && ParsedLayout(img).Some?
    ensures SameRegion(img, After(img, issues), ParsedLayout(img).value.metadata)
    ensures var md := ParsedLayout(img).value.metadata;
            HasItems(img, md) ==>
              SameFields(img, After(img, issues), md, FieldsIn(img[md.offset..md.End()], |img| - md.offset))
  {
    hide ParsedLayout, HasItems, FieldsIn, ReportsOn, After, Outside;
    var md := ParsedLayout(img).value.metadata;
    if md.End() <= |img| && md.length >= 8 {
      SliceKept(img, issues, md.offset, md.End());
    }
    if HasItems(img, md) {
      HasItemsFits(img, md);
      var region, room := img[md.offset..md.End()], |img| - md.offset;
      FieldsFit(region, room);
      FieldsKept(img, issues, md, FieldsIn(region, room));
    }
  }

  lemma FieldsFit(region: seq<byte>, room: nat)
    ensures var at := FieldsIn(region, room);
            && (at.params.Some? ==> at.params.value + 8 <= room)
            && (at.sector.Some? ==> at.sector.value + 4 <= room)
            && (at.size.Some? ==> at.size.value + 8 <= room)
  {}

  lemma FieldsKept(img: seq<byte>, issues: seq<Finding>, metadata: Region, at: Fields)
    requires ReportsOn(img, issues) && metadata.offset <= |img| && FieldsOutside(img, metadata, at)
    requires at.params.Some? ==> metadata.offset + at.params.value + 8 <= |img|
    requires at.sector.Some? ==> metadata.offset + at.sector.value + 4 <= |img|
    requires at.size.Some? ==> metadata.offset + at.size.value + 8 <= |img|
    ensures SameFields(img, After(img, issues), metadata, at)
  {
    hide ReportsOn, After, RangeOutside, SameOn;
    if at.params.Some? {
      RangeKept(img, issues, metadata.offset + at.params.value, metadata.offset + at.params.value + 8);
    }
    if at.sector.Some? {
      RangeKept(img, issues, metadata.offset + at.sector.value, metadata.offset + at.sector.value + 4);
    }
    if at.size.Some? {
      RangeKept(img, issues, metadata.offset + at.size.value, metadata.offset + at.size.value + 8);
    }
  }

  lemma RangeKept(img: seq<byte>, issues: seq<Finding>, lo: nat, hi: nat)
    requires ReportsOn(img, issues) && lo <= hi <= |img| && RangeOutside(img, lo, hi)
    ensures SameOn(img, After(img, issues), lo, hi)
  {
    hide Outside, After, ReportsOn;
    forall p | lo <= p < hi
      ensures img[p] == After(img, issues)[p]
    {
      OutsideKept(img, issues, p);
    }
  }

  lemma LayoutIs(img: seq<byte>)
    ensures ParsedLayout(img).Some? <==> NamedRegions(img).Some?
    ensures ParsedLayout(img).Some? ==>
              ParsedLayout(img).value == LayoutOf(img, NamedRegions(img).value.bat, NamedRegions(img).value.metadata)
    ensures ParsedLayout(img).Some? ==> ParsedLayout(img).value.metadata == NamedRegions(img).value.metadata
  {
    hide NamedRegions;
  }

  lemma LayoutAfter(img: seq<byte>, issues: seq<Finding>)
    requires ReportsOn(img, issues) && Readable(img) && Apart(img)
    ensures ParsedLayout(After(img, issues)) == ParsedLayout(img)
  {
    hide ParsedLayout, NamedRegions, LayoutOf, HasItems, ReportsOn, After, Readable, FieldsIn, SameFields, SameRegion;
    hide EntriesClear, LayoutOutside;
    TablesAfter(img, issues);
    LayoutIs(img);
    LayoutIs(After(img, issues));
    if ParsedLayout(img).Some? {
      LayoutKept(img, issues);
      var t := NamedRegions(img).value;
      LayoutFrame(img, After(img, issues), t.bat, t.metadata);
    }
  }

  // ── Block table entries ───────────────────────────────────────────────────

  /** Each scanned entry after repair. */
  lemma RawAfter(img: seq<byte>, issues: seq<Finding>, i: nat)
    requires ReportsOn(img, issues) && Scannable(img) && EntriesClear(img)
    requires i < ParsedLayout(img).value.Count()
    ensures var l := ParsedLayout(img).value;
            RawEntry(After(img, issues), l, i) == EntryAfter(RawEntry(img, l, i), issues, i)
  {
    ReportedCanFix(img, issues);
    hide ParsedLayout, ReportsOn, FixAll, CanFix, EntryAfter, LeU64, EntryClear, Reported, Found, Mismatch;
    var bat := ParsedLayout(img).value.bat.offset;
    assert EntryApart(img, i, bat + i * 8);
    if Reported(img, i) {
      EntryRepaired(img, bat, issues, i);
    } else {
      NotReportedKept(img, issues, i);
    }
  }

  lemma NotReportedKept(img: seq<byte>, issues: seq<Finding>, i: nat)
    requires ReportsOn(img, issues) && Scannable(img) && i < ParsedLayout(img).value.Count() && !Reported(img, i)
    requires EntryApart(img, i, ParsedLayout(img).value.bat.offset + i * 8)
    ensures var raw := RawEntry(img, ParsedLayout(img).value, i);
            && RawEntry(After(img, issues), ParsedLayout(img).value, i) == raw
            && EntryAfter(raw, issues, i) == raw
  {
    hide ParsedLayout, Found, Panics, LeU64, After, Outside, EntryApart;
    var at := ParsedLayout(img).value.bat.offset + i * 8;
    forall p | at <= p < at + 8
      ensures After(img, issues)[p] == img[p]
    {
      NotReportedOutside(img, i, p);
      OutsideKept(img, issues, p);
    }
    SameBytesRead(After(img, issues), img, at);
  }

  lemma NotReportedOutside(img: seq<byte>, i: nat, p: nat)
    requires Scannable(img) && i < ParsedLayout(img).value.Count() && !Reported(img, i)
    requires var at := ParsedLayout(img).value.bat.offset + i * 8;
             EntryApart(img, i, at) && at <= p < at + 8
    ensures Outside(img, p)
  {
    hide ParsedLayout, Found, Reported, EntryClear;
    forall f | Repairable(f) && Found(img, f)
      ensures !Touches(BatOffset(img), f, p)
    {
      if NamesEntry(f) {
        ReportedBy(img, f);
      } else {
        var k := if f.HeaderChecksumMismatch? then HeaderBlock else TableBlock;
        assert f == Mismatch(k, f.copy);
        assert ClearOf(ParsedLayout(img).value.bat.offset + i * 8, k, f.copy);
      }
    }
  }

  /** The raw entry is in the condition that `f` reports of its entry. */
  predicate Offends(l: Layout, zone: Option<(nat, nat)>, size: nat, f: Finding, raw: u64)
    requires NamesEntry(f)
  {
    if f.UndefinedBlockState? then raw % 8 == 1
    else
      && raw % 8 == 6
      && if f.BatEntryUnaligned? then ReservedBitsSet(raw)
         else if f.BatEntryInStructuralRegion? then Structural(l, zone, OffsetOf(raw))
         else OffsetOf(raw) >= size
  }

  lemma FoundOffends(img: seq<byte>, f: Finding)
    requires NamesEntry(f)
    ensures Found(img, f) <==>
              && PayloadEntry(img, f.index)
              && var l := ParsedLayout(img).value;
                 Offends(l, LogZone(img), |img|, f, RawEntry(img, l, f.index))
  {
    hide ParsedLayout, Structural, LogZone, RawEntry, Layout.IsBitmapSlot;
  }

  /** An entry that repair leaves in place offends in no repairable way. */
  lemma EntrySettled(img: seq<byte>, issues: seq<Finding>, f: Finding)
    requires ReportsOn(img, issues) && NamesEntry(f) && PayloadEntry(img, f.index)
    ensures var l, i := ParsedLayout(img).value, f.index;
            !Offends(l, LogZone(img), |img|, f, EntryAfter(RawEntry(img, l, i), issues, i))
  {
    hide ParsedLayout, Structural, LogZone, RawEntry, PayloadEntry, Found, Panics, Cleaned;
    var i := f.index;
    PayloadScanned(img, i);
    CleanedKeeps(RawEntry(img, ParsedLayout(img).value, i));
    FoundOffends(img, UndefinedBlockState(i));
    FoundOffends(img, BatEntryUnaligned(i));
    FoundOffends(img, BatEntryInStructuralRegion(i));
    FoundOffends(img, BatEntryBeyondContainer(i));
  }

  lemma SamePayload(img: seq<byte>, r: seq<byte>, i: nat)
    requires ParsedLayout(r) == ParsedLayout(img) && |r| == |img| && Readable(img)
    ensures PayloadEntry(r, i) ==> PayloadEntry(img, i)
  {
    hide ParsedLayout, Layout.IsBitmapSlot;
  }

  lemma EntryNotFound(img: seq<byte>, issues: seq<Finding>, f: Finding)
    requires ReportsOn(img, issues) && Readable(img) && Apart(img) && NamesEntry(f)
    ensures !Found(After(img, issues), f)
  {
    hide ParsedLayout, ReportsOn, EntriesClear, LayoutOutside, After, Offends, LogZone, RawEntry, Readable, Found;
    hide PayloadEntry, EntryAfter;
    var r := After(img, issues);
    LayoutAfter(img, issues);
    HeadersAfter(img, issues);
    FoundOffends(r, f);
    SamePayload(img, r, f.index);
    if PayloadEntry(r, f.index) {
      EntrySettled(img, issues, f);
      PayloadScanned(img, f.index);
      RawAfter(img, issues, f.index);
    }
  }

  lemma PayloadScanned(img: seq<byte>, i: nat)
    requires PayloadEntry(img, i)
    ensures Scannable(img) && i < ParsedLayout(img).value.Count()
  {
    hide ParsedLayout, Layout.IsBitmapSlot;
  }

  lemma BlockNotFound(img: seq<byte>, issues: seq<Finding>, k: Kind, c: Copy)
    requires ReportsOn(img, issues) && Readable(img) && EntriesClear(img)
    ensures Stated(Mismatch(k, c)) && !Found(After(img, issues), Mismatch(k, c))
  {
    CopySays(img, issues, k, First);
    CopySays(img, issues, k, Second);
    GoodOrBothBad(img, k, c);
    CopyFinding(k, c);
    var r := After(img, issues);
    if Readable(r) {
      MismatchFound(r, k, c);
    } else {
      FoundReadable(r, Mismatch(k, c));
    }
    hide Found, BlockOk, ReportsOn, EntriesClear, After, Readable, HeaderAt, RegionsAt, Mismatch, Place, Origin;
  }

  lemma CopyFinding(k: Kind, c: Copy)
    ensures Stated(Mismatch(k, c)) && OnCopy(Mismatch(k, c))
  {}

  lemma GoodOrBothBad(img: seq<byte>, k: Kind, c: Copy)
    ensures BlockOk(img, k, Origin(img, k, First)) == BlockOk(img, k, Origin(img, k, Second))
    ensures BlockOk(img, k, Origin(img, k, c)) == BlockOk(img, k, Origin(img, k, OtherCopy(c)))
  {
    hide BlockOk;
  }

  /** On the repaired image no repairable finding holds. */
  lemma NothingLeft(img: seq<byte>, issues: seq<Finding>, f: Finding)
    requires ReportsOn(img, issues) && Apart(img) && Repairable(f)
    ensures !Found(After(img, issues), f)
  {
    if !Readable(img) {
      UnreadableUntouched(img, issues);
      FoundReadable(img, f);
    } else if NamesEntry(f) {
      EntryNotFound(img, issues, f);
    } else {
      var k := if f.HeaderChecksumMismatch? then HeaderBlock else TableBlock;
      assert f == Mismatch(k, f.copy);
      BlockNotFound(img, issues, k, f.copy);
    }
  }

  lemma FoundReadable(img: seq<byte>, f: Finding)
    requires !Readable(img) && Stated(f)
    ensures !Found(img, f)
  {
    if Found(img, f) {
      FoundGates(img, f);
    }
  }

  lemma UnreadableUntouched(img: seq<byte>, issues: seq<Finding>)
    requires ReportsOn(img, issues) && !Readable(img)
    ensures After(img, issues) == img
  {
    ReportedCanFix(img, issues);
    forall f | f in issues
      ensures !Fixes(BatOffset(img), f)
    {
      if Repairable(f) {
        FoundReadable(img, f);
      }
    }
    hide Found, FixAll, CanFix, BatOffset, Fixes;
    UnrepairedChangeNothing(img, BatOffset(img), issues);
  }

  /** The repaired image can be analysed again. */
  lemma NoPanicAfter(img: seq<byte>, issues: seq<Finding>)
    requires ReportsOn(img, issues) && Apart(img)
    ensures !Panics(After(img, issues))
  {
    if Readable(img) {
      LayoutAfter(img, issues);
    } else {
      UnreadableUntouched(img, issues);
    }
    hide ParsedLayout, After, Apart;
  }

  /**
   A second attempt does not panic, repairs nothing and changes nothing, whatever its analysis
   reports; the active header, hence the log it names, is what it was before the first.
   */
  lemma RepairFixpoint(img: seq<byte>, issues: seq<Finding>, again: seq<Finding>)
    requires ReportsOn(img, issues) && Apart(img)
    ensures !Panics(After(img, issues))
    ensures Readable(img) ==> ActiveHeader(After(img, issues)) == ActiveHeader(img)
    ensures ReportsOn(After(img, issues), again) ==>
              && (forall f :: f in again ==> !Repairable(f))
              && After(After(img, issues), again) == After(img, issues)
              && Actions(BatOffset(After(img, issues)), again) == []
  {
    hide Found, FixAll, CanFix, BatOffset, Repairable, Readable, EntriesClear, LayoutOutside, ActiveHeader, Panics;
    hide Stated;
    var r := After(img, issues);
    NoPanicAfter(img, issues);
    if Readable(img) {
      HeadersAfter(img, issues);
    }
    if ReportsOn(r, again) {
      forall f | f in again
        ensures !Repairable(f)
      {
        if Repairable(f) {
          NothingLeft(img, issues, f);
        }
      }
      ReportedCanFix(r, again);
      UnrepairedChangeNothing(r, BatOffset(r), again);
      NoActions(BatOffset(r), again);
    }
  }

  lemma {:induction false} NoActions(bat: Option<nat>, fs: seq<Finding>)
    requires forall f :: f in fs ==> !Repairable(f)
    ensures Actions(bat, fs) == []
  {
    if |fs| > 0 {
      NoActions(bat, fs[..|fs| - 1]);
    }
  }
}
