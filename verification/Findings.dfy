/** What each finding on the block table and the block copies says, in plain arithmetic on the image. */
module Findings {
  import opened Bytes
  import opened Arith
  import opened Header
  import opened Integrity
  import Coverage
  import Crc
  import Fixpoint
  import LogCheck
  import Repair
  import Sweeps

  // ── Entries ───────────────────────────────────────────────────────────────

  /** The analyser scans entry `i`, which is `raw`, of the table in `l`. */
  predicate Scanned(data: seq<byte>, l: Layout, i: nat, raw: u64) {
    && Scannable(data) && ParsedLayout(data) == Some(l)
    && i < l.bat.length / 8 && raw == LeU64(data, l.bat.offset + 8 * i)
  }

  /** Entry `i` is entry `p` of chunk `c`, in which `ratio` payload entries come first. */
  predicate ChunkPlace(l: Layout, ratio: nat, i: nat, c: nat, p: nat) {
    && l.blockSize.Some? && l.blockSize.value > 0 && l.sectorSize != Some(0)
    && ratio * l.blockSize.value <= 0x80_0000 * (if l.sectorSize.Some? then l.sectorSize.value else 512)
    && 0x80_0000 * (if l.sectorSize.Some? then l.sectorSize.value else 512) < (ratio + 1) * l.blockSize.value
    && i == c * (ratio + 1) + p && p <= ratio
  }

  lemma RatioOf(l: Layout, ratio: nat, i: nat, c: nat, p: nat)
    requires ChunkPlace(l, ratio, i, c, p)
    ensures l.ChunkRatio() == Some(ratio)
  {
    hide Div;
    var bs, n := l.blockSize.value, 0x80_0000 * (if l.sectorSize.Some? then l.sectorSize.value else 512);
    MulAdd(bs, ratio, 1);
    MulComm(bs, ratio);
    DivUnique(n, bs, ratio, n - ratio * bs);
  }

  /** The last entry of a chunk is its bitmap's; without a block or sector size there are no chunks. */
  lemma BitmapSlots(l: Layout, ratio: nat, i: nat, c: nat, p: nat)
    ensures ChunkPlace(l, ratio, i, c, p) ==>
              (l.IsBitmapSlot(i) <==> p == ratio) && SlotFor(i, ratio) == c * (ratio + 1) + ratio
    ensures l.blockSize.None? || l.blockSize == Some(0) || l.sectorSize == Some(0) ==> !l.IsBitmapSlot(i)
  {
    hide Div, Mod;
    if ChunkPlace(l, ratio, i, c, p) {
      RatioOf(l, ratio, i, c, p);
      MulComm(c, ratio + 1);
      DivUnique(i, ratio + 1, c, p);
    }
  }

  /** The log of the active header, if it has one, holds container offset `at`. */
  predicate InLogRegion(data: seq<byte>, at: nat) {
    && ActiveHeader(data).Ok?
    && var h := ActiveHeader(data).value; h.logLength > 0 && h.logOffset <= at < h.logOffset + h.logLength
  }

  /** Offsets of entries are whole MiB, so the saturated ends of regions do not matter to them. */
  lemma StructuralExactly(data: seq<byte>, l: Layout, raw: u64)
    ensures var at := raw / 0x10_0000 * 0x10_0000;
            Structural(l, LogZone(data), OffsetOf(raw)) <==>
              || at < 0x5_0000
              || l.metadata.offset <= at < l.metadata.offset + l.metadata.length
              || InLogRegion(data, at)
  {
    hide ActiveOffset, HeaderAt;
    assert OffsetOf(raw) == raw / 0x10_0000 * 0x10_0000 < TWO64 - 1;
  }

  /** Findings on a payload entry. */
  lemma PayloadReported(data: seq<byte>, items: seq<Sweeps.Keyed>, blocks: seq<Sweeps.Keyed>,
                        l: Layout, i: nat, raw: u64)
    requires |data| < TWO63 && Scanned(data, l, i, raw) && !l.IsBitmapSlot(i)
    ensures var found, at := Analysis(data, items, blocks), raw / 0x10_0000 * 0x10_0000;
            && SectorBitmapInvalidState(i) !in found
            && (UndefinedBlockState(i) in found <==> raw % 8 == 1)
            && (UnmappedBlockInNonDifferencing(i) in found <==> raw % 8 == 3 && !l.hasParent)
            && (PartiallyPresentBlock(i) in found <==> raw % 8 == 7)
            && (BatEntryUnaligned(i) in found <==> raw % 8 == 6 && raw / 8 % 0x2_0000 != 0)
            && (BatEntryBeyondContainer(i) in found <==> raw % 8 == 6 && at >= |data|)
            && (BatEntryInStructuralRegion(i) in found <==>
                  && raw % 8 == 6
                  && (|| at < 0x5_0000
                      || l.metadata.offset <= at < l.metadata.offset + l.metadata.length
                      || InLogRegion(data, at)))
  {
    hide Analysis, ParsedLayout, LogZone, Structural, InLogRegion, LeU64, Layout.IsBitmapSlot, Readable;
    assert l.bat.offset + i * 8 == l.bat.offset + 8 * i && l.Count() == l.bat.length / 8;
    assert ReservedBitsSet(raw) <==> raw / 8 % 0x2_0000 != 0;
    StructuralExactly(data, l, raw);
    AnalysisFinds(data, items, blocks, SectorBitmapInvalidState(i));
    AnalysisFinds(data, items, blocks, UndefinedBlockState(i));
    AnalysisFinds(data, items, blocks, UnmappedBlockInNonDifferencing(i));
    AnalysisFinds(data, items, blocks, PartiallyPresentBlock(i));
    AnalysisFinds(data, items, blocks, BatEntryUnaligned(i));
    AnalysisFinds(data, items, blocks, BatEntryBeyondContainer(i));
    AnalysisFinds(data, items, blocks, BatEntryInStructuralRegion(i));
  }

  /** Findings on a bitmap entry. */
  lemma BitmapReported(data: seq<byte>, items: seq<Sweeps.Keyed>, blocks: seq<Sweeps.Keyed>,
                       l: Layout, i: nat, raw: u64)
    requires |data| < TWO63 && Scanned(data, l, i, raw) && l.IsBitmapSlot(i)
    ensures var found := Analysis(data, items, blocks);
            && (SectorBitmapInvalidState(i) in found <==> raw % 8 != 0 && raw % 8 != 6)
            && UndefinedBlockState(i) !in found && UnmappedBlockInNonDifferencing(i) !in found
            && PartiallyPresentBlock(i) !in found && BatEntryUnaligned(i) !in found
            && BatEntryBeyondContainer(i) !in found && BatEntryInStructuralRegion(i) !in found
  {
    hide Analysis, ParsedLayout, LogZone, Structural, LeU64, Layout.IsBitmapSlot, Readable;
    assert l.bat.offset + i * 8 == l.bat.offset + 8 * i && l.Count() == l.bat.length / 8;
    AnalysisFinds(data, items, blocks, SectorBitmapInvalidState(i));
    AnalysisFinds(data, items, blocks, UndefinedBlockState(i));
    AnalysisFinds(data, items, blocks, UnmappedBlockInNonDifferencing(i));
    AnalysisFinds(data, items, blocks, PartiallyPresentBlock(i));
    AnalysisFinds(data, items, blocks, BatEntryUnaligned(i));
    AnalysisFinds(data, items, blocks, BatEntryBeyondContainer(i));
    AnalysisFinds(data, items, blocks, BatEntryInStructuralRegion(i));
  }

  /** A present payload entry in the container misses its chunk's bitmap when that entry is in state 0. */
  lemma MissingBitmapReported(data: seq<byte>, items: seq<Sweeps.Keyed>, blocks: seq<Sweeps.Keyed>,
                              l: Layout, i: nat, raw: u64, ratio: nat, c: nat, p: nat, slot: nat)
    requires |data| < TWO63 && Scanned(data, l, i, raw) && ChunkPlace(l, ratio, i, c, p)
    ensures MissingSectorBitmap(i, slot) in Analysis(data, items, blocks) <==>
              && p < ratio && slot == c * (ratio + 1) + ratio < l.bat.length / 8
              && raw % 8 == 6 && raw / 0x10_0000 * 0x10_0000 < |data|
              && LeU64(data, l.bat.offset + 8 * slot) % 8 == 0
  {
    assert p <= ratio;
    hide *;
    RatioOf(l, ratio, i, c, p);
    BitmapSlots(l, ratio, i, c, p);
    EntryFound(data, l, i, raw, MissingSectorBitmap(i, slot));
    MissingHolds(data, l, i, raw, ratio, slot);
    AnalysisFinds(data, items, blocks, MissingSectorBitmap(i, slot));
  }

  lemma EntryFound(data: seq<byte>, l: Layout, i: nat, raw: u64, f: Finding)
    requires Scanned(data, l, i, raw) && OnEntry(f) && f.index == i
    ensures Stated(f) && (Found(data, f) <==> Holds(data, l, LogZone(data), f))
  {
    hide ParsedLayout, LogZone, LeU64, Holds, Readable;
  }

  lemma MissingHolds(data: seq<byte>, l: Layout, i: nat, raw: u64, ratio: nat, slot: nat)
    requires Scanned(data, l, i, raw) && l.ChunkRatio() == Some(ratio)
    ensures Holds(data, l, LogZone(data), MissingSectorBitmap(i, slot)) <==>
              && !l.IsBitmapSlot(i) && slot == SlotFor(i, ratio) && slot < l.bat.length / 8
              && raw % 8 == 6 && raw / 0x10_0000 * 0x10_0000 < |data|
              && LeU64(data, l.bat.offset + 8 * slot) % 8 == 0
  {
    hide ParsedLayout, LogZone, LeU64, Layout.IsBitmapSlot, SlotFor, Layout.ChunkRatio, Scannable, Structural;
    assert l.bat.offset + i * 8 == l.bat.offset + 8 * i && l.Count() == l.bat.length / 8;
    assert l.bat.offset + slot * 8 == l.bat.offset + 8 * slot;
  }

  /** After repair no present payload entry points into the container's own structures or past its end. */
  lemma EntriesAfterRepair(img: seq<byte>, issues: seq<Finding>, l: Layout, i: nat, raw: u64)
    requires |img| < TWO63 && Repair.ReportsOn(img, issues) && Fixpoint.Apart(img)
    requires Scanned(Fixpoint.After(img, issues), l, i, raw) && !l.IsBitmapSlot(i)
    ensures raw % 8 != 1
    ensures raw % 8 == 6 ==>
              var at := raw / 0x10_0000 * 0x10_0000;
              && raw / 8 % 0x2_0000 == 0 && 0x5_0000 <= at < |img|
              && !(l.metadata.offset <= at < l.metadata.offset + l.metadata.length)
              && !InLogRegion(Fixpoint.After(img, issues), at)
  {
    var r := Fixpoint.After(img, issues);
    hide Analysis, ParsedLayout, InLogRegion, LeU64, Layout.IsBitmapSlot, Readable, Fixpoint.After, Fixpoint.Apart;
    hide Found, Repair.ReportsOn;
    PayloadReported(r, [], [], l, i, raw);
    NotFoundAfter(img, issues, UndefinedBlockState(i));
    NotFoundAfter(img, issues, BatEntryUnaligned(i));
    NotFoundAfter(img, issues, BatEntryBeyondContainer(i));
    NotFoundAfter(img, issues, BatEntryInStructuralRegion(i));
  }

  lemma NotFoundAfter(img: seq<byte>, issues: seq<Finding>, f: Finding)
    requires |img| < TWO63 && Repair.ReportsOn(img, issues) && Fixpoint.Apart(img) && Repairable(f)
    ensures f !in Analysis(Fixpoint.After(img, issues), [], [])
  {
    hide Analysis, Found, Fixpoint.After, Fixpoint.Apart, Repair.ReportsOn;
    Fixpoint.NothingLeft(img, issues, f);
    AnalysisFinds(Fixpoint.After(img, issues), [], [], f);
  }

  /** The entry without its bits 3 to 19. */
  lemma CleanedIs(raw: u64)
    ensures Repair.Cleaned(raw) == raw / 0x10_0000 * 0x10_0000 + raw % 8
  {
    Repair.Parts(raw / MIB, raw % MIB);
  }

  /**
   What repair makes of an entry: zero in the undefined state, or present and pointing into the
   container's structures or past its end; otherwise a present payload entry loses its reserved
   bits, and every other entry stays as it is.
   */
  lemma EntryBecomes(img: seq<byte>, issues: seq<Finding>, l: Layout, i: nat, raw: u64)
    requires |img| < TWO63 && Repair.ReportsOn(img, issues) && Fixpoint.EntriesClear(img) && Scanned(img, l, i, raw)
    ensures var at := raw / 0x10_0000 * 0x10_0000;
            var structural := at < 0x5_0000 || l.metadata.offset <= at < l.metadata.offset + l.metadata.length
              || InLogRegion(img, at);
            LeU64(Fixpoint.After(img, issues), l.bat.offset + 8 * i)
            == if l.IsBitmapSlot(i) then raw
               else if raw % 8 == 1 then 0
               else if raw % 8 != 6 then raw
               else if structural || at >= |img| then 0
               else at + 6
  {
    hide *;
    EntryFindings(img, issues, l, i, raw);
    EntryAfterIs(img, issues, l, i, raw);
    EntryAfterRule(raw, issues, i);
  }

  /** Which findings on the entry are among those that repair is given. */
  lemma EntryFindings(img: seq<byte>, issues: seq<Finding>, l: Layout, i: nat, raw: u64)
    requires |img| < TWO63 && Repair.ReportsOn(img, issues) && Scanned(img, l, i, raw)
    ensures var at, payload := raw / 0x10_0000 * 0x10_0000, !l.IsBitmapSlot(i);
            && (UndefinedBlockState(i) in issues <==> payload && raw % 8 == 1)
            && (BatEntryUnaligned(i) in issues <==> payload && raw % 8 == 6 && raw / 8 % 0x2_0000 != 0)
            && (BatEntryBeyondContainer(i) in issues <==> payload && raw % 8 == 6 && at >= |img|)
            && (BatEntryInStructuralRegion(i) in issues <==>
                  && payload && raw % 8 == 6
                  && (|| at < 0x5_0000
                      || l.metadata.offset <= at < l.metadata.offset + l.metadata.length
                      || InLogRegion(img, at)))
  {
    hide Analysis, ParsedLayout, LogZone, Structural, InLogRegion, LeU64, Layout.IsBitmapSlot, Readable, Found;
    if l.IsBitmapSlot(i) {
      BitmapReported(img, [], [], l, i, raw);
    } else {
      PayloadReported(img, [], [], l, i, raw);
    }
    AnalysisFinds(img, [], [], UndefinedBlockState(i));
    AnalysisFinds(img, [], [], BatEntryUnaligned(i));
    AnalysisFinds(img, [], [], BatEntryBeyondContainer(i));
    AnalysisFinds(img, [], [], BatEntryInStructuralRegion(i));
  }

  lemma EntryAfterIs(img: seq<byte>, issues: seq<Finding>, l: Layout, i: nat, raw: u64)
    requires Repair.ReportsOn(img, issues) && Fixpoint.EntriesClear(img) && Scanned(img, l, i, raw)
    ensures LeU64(Fixpoint.After(img, issues), l.bat.offset + 8 * i) == Repair.EntryAfter(raw, issues, i)
  {
    hide ParsedLayout, LeU64, Repair.EntryAfter, Repair.ReportsOn, Fixpoint.EntriesClear, Fixpoint.After, Readable;
    assert l.bat.offset + i * 8 == l.bat.offset + 8 * i && l.Count() == l.bat.length / 8;
    Fixpoint.RawAfter(img, issues, i);
  }

  lemma EntryAfterRule(raw: u64, issues: seq<Finding>, i: nat)
    ensures Repair.EntryAfter(raw, issues, i)
         == if UndefinedBlockState(i) in issues || BatEntryInStructuralRegion(i) in issues
               || BatEntryBeyondContainer(i) in issues then 0
            else if BatEntryUnaligned(i) in issues then raw / 0x10_0000 * 0x10_0000 + raw % 8
            else raw
    ensures raw % 8 == 6 && raw / 8 % 0x2_0000 == 0 ==> raw == raw / 0x10_0000 * 0x10_0000 + 6
  {
    hide Repair.Cleaned;
    CleanedIs(raw);
  }

  // ── Block copies ──────────────────────────────────────────────────────────

  /** A copy is reported when it is bad and the other one is good. */
  lemma CopyReported(data: seq<byte>, items: seq<Sweeps.Keyed>, blocks: seq<Sweeps.Keyed>)
    requires |data| < TWO63
    ensures var found := Analysis(data, items, blocks);
            var whole := |data| >= 0x5_0000 && data[..8] == [0x76, 0x68, 0x64, 0x78, 0x66, 0x69, 0x6C, 0x65];
            && (HeaderChecksumMismatch(First) in found <==>
                  whole && !HeaderOk(data, 0x1_0000) && HeaderOk(data, 0x2_0000))
            && (HeaderChecksumMismatch(Second) in found <==>
                  whole && HeaderOk(data, 0x1_0000) && !HeaderOk(data, 0x2_0000))
            && (RegionTableChecksumMismatch(First) in found <==>
                  whole && !TableOk(data, 0x3_0000) && TableOk(data, 0x4_0000))
            && (RegionTableChecksumMismatch(Second) in found <==>
                  whole && TableOk(data, 0x3_0000) && !TableOk(data, 0x4_0000))
  {
    hide Analysis, HeaderOk, TableOk, ParsedLayout, Holds, WrongSize;
    AnalysisFinds(data, items, blocks, HeaderChecksumMismatch(First));
    AnalysisFinds(data, items, blocks, HeaderChecksumMismatch(Second));
    AnalysisFinds(data, items, blocks, RegionTableChecksumMismatch(First));
    AnalysisFinds(data, items, blocks, RegionTableChecksumMismatch(Second));
  }

  /** A region table copy is good for its signature and the checksum of its 64 KiB with bytes 4 to 8 cleared. */
  lemma AcceptedTable(data: seq<byte>, at: nat)
    ensures TableOk(data, at) <==>
              && at + 0x1_0000 <= |data| && data[at..at + 4] == [0x72, 0x65, 0x67, 0x69]
              && Crc.Crc32c(data[at..at + 4] + [0, 0, 0, 0] + data[at + 8..at + 0x1_0000]) == LeU32(data, at + 4)
  {
    hide Crc.Crc32c, LeU32;
    if at + 0x1_0000 <= |data| {
      var block := data[at..at + 0x1_0000];
      LeU32Slice(data, at, at + 0x1_0000, 4);
      assert Unsigned(block) == data[at..at + 4] + [0, 0, 0, 0] + data[at + 8..at + 0x1_0000];
    }
  }

  // ── Shared offsets ────────────────────────────────────────────────────────

  /** Entry `i` is a present payload entry whose data starts in the container. */
  predicate PresentHere(data: seq<byte>, l: Layout, i: nat) {
    && !l.IsBitmapSlot(i) && LeU64(data, l.bat.offset + 8 * i) % 8 == 6
    && LeU64(data, l.bat.offset + 8 * i) / 0x10_0000 * 0x10_0000 < |data|
  }

  function PresentBelow(data: seq<byte>, l: Layout, n: nat): set<nat> {
    set i: nat | i < n && PresentHere(data, l, i)
  }

  function OffsetInMib(data: seq<byte>, l: Layout, i: nat): nat { LeU64(data, l.bat.offset + 8 * i) / 0x10_0000 }

  /** The offsets of the present entries among the first `n`, in MiB. */
  function OffsetsBelow(data: seq<byte>, l: Layout, n: nat): set<nat> {
    set i | i in PresentBelow(data, l, n) :: OffsetInMib(data, l, i)
  }

  lemma PresentStep(data: seq<byte>, l: Layout, n: nat)
    ensures PresentBelow(data, l, 0) == {} && OffsetsBelow(data, l, 0) == {}
    ensures PresentHere(data, l, n) ==>
              && |PresentBelow(data, l, n + 1)| == |PresentBelow(data, l, n)| + 1
              && OffsetsBelow(data, l, n + 1) == OffsetsBelow(data, l, n) + {OffsetInMib(data, l, n)}
    ensures !PresentHere(data, l, n) ==>
              && PresentBelow(data, l, n + 1) == PresentBelow(data, l, n)
              && OffsetsBelow(data, l, n + 1) == OffsetsBelow(data, l, n)
  {
    hide PresentHere, OffsetInMib;
    var before, after := PresentBelow(data, l, n), PresentBelow(data, l, n + 1);
    if PresentHere(data, l, n) {
      assert after == before + {n};
    } else {
      assert after == before;
    }
  }

  lemma PresentIs(data: seq<byte>, l: Layout, n: nat)
    ensures EntryPresent(data, l, n)
         == if PresentHere(data, l, n) then [Sweeps.Keyed(OffsetInMib(data, l, n), n)] else []
  {
    hide LeU64, Layout.IsBitmapSlot;
    assert l.bat.offset + n * 8 == l.bat.offset + 8 * n;
  }

  lemma KeysAppend(init: seq<Sweeps.Keyed>, last: Sweeps.Keyed)
    ensures Sweeps.Keys(init + [last]) == Sweeps.Keys(init) + {last.key}
  {
    var whole := init + [last];
    forall k | k in Sweeps.Keys(init) + {last.key}
      ensures k in Sweeps.Keys(whole)
    {
      if k != last.key {
        var p :| p in init && p.key == k;
        assert p in whole;
      } else {
        assert last in whole;
      }
    }
  }

  lemma {:induction false} PresentCounted(data: seq<byte>, l: Layout, n: nat)
    ensures |ScanPresent(data, l, n)| == |PresentBelow(data, l, n)|
    ensures Sweeps.Keys(ScanPresent(data, l, n)) == OffsetsBelow(data, l, n)
  {
    hide EntryPresent, PresentBelow, OffsetsBelow, PresentHere, OffsetInMib, Sweeps.Keys;
    PresentStep(data, l, if n == 0 then 0 else n - 1);
    if n == 0 {
      NoKeys();
    } else {
      PresentCounted(data, l, n - 1);
      PresentIs(data, l, n - 1);
      if PresentHere(data, l, n - 1) {
        KeysAppend(ScanPresent(data, l, n - 1), Sweeps.Keyed(OffsetInMib(data, l, n - 1), n - 1));
      } else {
        assert ScanPresent(data, l, n) == ScanPresent(data, l, n - 1);
      }
    }
  }

  lemma NoKeys()
    ensures Sweeps.Keys([]) == {}
  {}

  function OverlapCount(fs: seq<Finding>): nat {
    if |fs| == 0 then 0 else OverlapCount(fs[..|fs| - 1]) + if fs[|fs| - 1].BatEntriesOverlap? then 1 else 0
  }

  lemma {:induction false} CountConcat(a: seq<Finding>, b: seq<Finding>)
    ensures OverlapCount(a + b) == OverlapCount(a) + OverlapCount(b)
  {
    if |b| == 0 {
      assert a + b == a;
    } else {
      assert (a + b)[..|a + b| - 1] == a + b[..|b| - 1];
      CountConcat(a, b[..|b| - 1]);
    }
  }

  lemma {:induction false} CountNone(fs: seq<Finding>)
    requires forall f :: f in fs ==> !f.BatEntriesOverlap?
    ensures OverlapCount(fs) == 0
  {
    if |fs| > 0 {
      CountNone(fs[..|fs| - 1]);
    }
  }

  lemma {:induction false} CountAll(fs: seq<Finding>)
    requires forall k :: 0 <= k < |fs| ==> fs[k].BatEntriesOverlap?
    ensures OverlapCount(fs) == |fs|
  {
    if |fs| > 0 {
      CountAll(fs[..|fs| - 1]);
    }
  }

  lemma NoOverlapElsewhere(data: seq<byte>, items: seq<Sweeps.Keyed>)
    requires |data| < TWO63
    ensures OverlapCount(BlockPart(data)) == 0 && OverlapCount(LogPart(data)) == 0
    ensures OverlapCount(ItemFindings(Sweeps.NeighbourOverlaps(items))) == 0
    ensures OverlapCount(TablePart(data)) == 0 && OverlapCount(CapacityPart(data)) == 0
  {
    hide HeaderOk, TableOk, LogZone, ParsedLayout, ScanFindings, SizeFindings, CapacityFindings, OverlapCount;
    hide LogCheck.ScannedLog, LogCheck.LogFindings, WrongSize, Holds, Sweeps.NeighbourOverlaps;
    CountNone(BlockPart(data));
    CountNone(LogPart(data));
    CountNone(ItemFindings(Sweeps.NeighbourOverlaps(items)));
    forall f | f in TablePart(data) || f in CapacityPart(data)
      ensures !f.BatEntriesOverlap?
    {
      var l := ParsedLayout(data).value;
      InScan(data, l, LogZone(data), l.Count(), f);
      InSizeFindings(l, f);
    }
    CountNone(TablePart(data));
    CountNone(CapacityPart(data));
  }

  lemma AnalysisOverlaps(data: seq<byte>, items: seq<Sweeps.Keyed>, blocks: seq<Sweeps.Keyed>)
    requires |data| < TWO63 && Scannable(data)
    ensures OverlapCount(Analysis(data, items, blocks)) == |Sweeps.SharedKeys(blocks)|
  {
    hide BlockPart, LogPart, TablePart, CapacityPart, ItemFindings, OverlapFindings, OverlapCount, TableFindings;
    hide Sweeps.SharedKeys, Sweeps.NeighbourOverlaps, ParsedLayout;
    LayoutNeedsTable(data);
    LongEnough(data);
    NoOverlapElsewhere(data, items);
    var shared := OverlapFindings(Sweeps.SharedKeys(blocks));
    CountAll(shared);
    var log, of, table := LogPart(data), ItemFindings(Sweeps.NeighbourOverlaps(items)), TablePart(data);
    CountConcat(log, of);
    CountConcat(log + of, table);
    CountConcat(log + of + table, shared);
    CountConcat(log + of + table + shared, CapacityPart(data));
    CountConcat(BlockPart(data), ContentPart(data, items, blocks));
  }

  /**
   However the sort leaves the present blocks, the overlap findings number the present payload
   entries whose data starts in the container, less their distinct offsets.
   */
  lemma OverlapsNumbered(data: seq<byte>, items: seq<Sweeps.Keyed>, blocks: seq<Sweeps.Keyed>, l: Layout)
    requires |data| < TWO63 && Scannable(data) && ParsedLayout(data) == Some(l)
    requires Sweeps.SortOf(blocks, SweptBlocks(data))
    ensures var n := l.bat.length / 8;
            OverlapCount(Analysis(data, items, blocks)) == |PresentBelow(data, l, n)| - |OffsetsBelow(data, l, n)|
  {
    hide Analysis, OverlapCount, PresentBelow, OffsetsBelow, ScanPresent, Sweeps.SortOf, ParsedLayout;
    AnalysisOverlaps(data, items, blocks);
    Sweeps.SharedCount(blocks, SweptBlocks(data));
    PresentCounted(data, l, l.bat.length / 8);
  }

  lemma {:induction false} SharedIn(ps: seq<Sweeps.Keyed>, x: Sweeps.Keyed, y: Sweeps.Keyed)
    requires (x, y) in Sweeps.SharedKeys(ps)
    ensures x in ps && y in ps && x.key == y.key
  {
    if |ps| >= 2 && (x, y) in Sweeps.SharedKeys(ps[..|ps| - 1]) {
      SharedIn(ps[..|ps| - 1], x, y);
    }
  }

  lemma {:induction false} PresentMember(data: seq<byte>, l: Layout, n: nat, p: Sweeps.Keyed)
    requires p in ScanPresent(data, l, n)
    ensures p.value < n && PresentHere(data, l, p.value) && p.key == OffsetInMib(data, l, p.value)
  {
    hide EntryPresent, PresentHere, OffsetInMib;
    if n > 0 {
      PresentIs(data, l, n - 1);
      if p in ScanPresent(data, l, n - 1) {
        PresentMember(data, l, n - 1, p);
      }
    }
  }

  lemma OverlapPair(data: seq<byte>, items: seq<Sweeps.Keyed>, blocks: seq<Sweeps.Keyed>, a: nat, b: nat)
    returns (x: Sweeps.Keyed, y: Sweeps.Keyed)
    requires |data| < TWO63 && BatEntriesOverlap(a, b) in Analysis(data, items, blocks)
    ensures (x, y) in Sweeps.SharedKeys(blocks) && x.value == a && y.value == b
  {
    hide BlockPart, LogPart, TablePart, CapacityPart, ItemFindings, Sweeps.SharedKeys, Sweeps.NeighbourOverlaps;
    var f := BatEntriesOverlap(a, b);
    NotElsewhere(data, items, f);
    var shared := OverlapFindings(Sweeps.SharedKeys(blocks));
    assert f in shared;
    var k :| 0 <= k < |shared| && shared[k] == f;
    x, y := Sweeps.SharedKeys(blocks)[k].0, Sweeps.SharedKeys(blocks)[k].1;
    assert (x, y) == Sweeps.SharedKeys(blocks)[k];
  }

  lemma NotElsewhere(data: seq<byte>, items: seq<Sweeps.Keyed>, f: Finding)
    requires |data| < TWO63 && f.BatEntriesOverlap?
    ensures f !in BlockPart(data) && f !in LogPart(data) && f !in ItemFindings(Sweeps.NeighbourOverlaps(items))
    ensures f !in TablePart(data) && f !in CapacityPart(data) && f != ContainerTruncated && f != Finding.BadMagic
  {
    hide HeaderOk, TableOk, LogZone, ParsedLayout, ScanFindings, SizeFindings, CapacityFindings;
    hide LogCheck.ScannedLog, LogCheck.LogFindings, WrongSize, Holds, Sweeps.NeighbourOverlaps;
    if Scannable(data) {
      var l := ParsedLayout(data).value;
      InScan(data, l, LogZone(data), l.Count(), f);
      InSizeFindings(l, f);
    }
  }

  /** An overlap names two such entries at one offset. */
  lemma OverlapNames(data: seq<byte>, items: seq<Sweeps.Keyed>, blocks: seq<Sweeps.Keyed>, l: Layout, a: nat, b: nat)
    requires |data| < TWO63 && Scannable(data) && ParsedLayout(data) == Some(l)
    requires Sweeps.SortOf(blocks, SweptBlocks(data)) && BatEntriesOverlap(a, b) in Analysis(data, items, blocks)
    ensures a < l.bat.length / 8 && b < l.bat.length / 8 && PresentHere(data, l, a) && PresentHere(data, l, b)
    ensures OffsetInMib(data, l, a) == OffsetInMib(data, l, b)
  {
    hide Analysis, ScanPresent, ParsedLayout, PresentHere, OffsetInMib, Sweeps.SharedKeys, Sweeps.Ascending;
    var x, y := OverlapPair(data, items, blocks, a, b);
    SharedIn(blocks, x, y);
    assert x in multiset(blocks) && y in multiset(blocks);
    assert x in SweptBlocks(data) && y in SweptBlocks(data);
    PresentMember(data, l, l.Count(), x);
    PresentMember(data, l, l.Count(), y);
  }

  // ── Copies and actions ────────────────────────────────────────────────────

  lemma CopyBecomes(img: seq<byte>, issues: seq<Finding>, k: Repair.Kind, c: Copy, at: nat, other: nat, n: nat)
    requires |img| < TWO63 && Repair.ReportsOn(img, issues) && Readable(img) && Fixpoint.EntriesClear(img)
    requires at == Repair.Place(k, c) && other == Repair.Place(k, Repair.OtherCopy(c)) && n == Repair.Size(k)
    ensures at + n <= |img| && other + n <= |img|
    ensures Fixpoint.After(img, issues)[at..at + n]
         == if !Fixpoint.BlockOk(img, k, c) && Fixpoint.BlockOk(img, k, Repair.OtherCopy(c)) then img[other..other + n]
            else img[at..at + n]
  {
    hide Fixpoint.BlockOk, Fixpoint.After, Fixpoint.EntriesClear, Repair.ReportsOn;
    Fixpoint.CopyAfter(img, issues, k, c);
  }

  /** A bad copy beside a good one becomes that one; every other copy stays as it is. */
  lemma CopiesBecome(img: seq<byte>, issues: seq<Finding>)
    requires |img| < TWO63 && Repair.ReportsOn(img, issues) && Readable(img) && Fixpoint.EntriesClear(img)
    ensures var r := Fixpoint.After(img, issues);
            var h1, h2 := HeaderOk(img, 0x1_0000), HeaderOk(img, 0x2_0000);
            var t1, t2 := TableOk(img, 0x3_0000), TableOk(img, 0x4_0000);
            && |img| >= 0x5_0000
            && r[0x1_0000..0x1_1000] == (if !h1 && h2 then img[0x2_0000..0x2_1000] else img[0x1_0000..0x1_1000])
            && r[0x2_0000..0x2_1000] == (if !h2 && h1 then img[0x1_0000..0x1_1000] else img[0x2_0000..0x2_1000])
            && r[0x3_0000..0x4_0000] == (if !t1 && t2 then img[0x4_0000..0x5_0000] else img[0x3_0000..0x4_0000])
            && r[0x4_0000..0x5_0000] == (if !t2 && t1 then img[0x3_0000..0x4_0000] else img[0x4_0000..0x5_0000])
  {
    hide HeaderOk, TableOk, Fixpoint.After, Fixpoint.EntriesClear, Repair.ReportsOn;
    LongEnough(img);
    CopyBecomes(img, issues, Repair.HeaderBlock, First, 0x1_0000, 0x2_0000, 0x1000);
    CopyBecomes(img, issues, Repair.HeaderBlock, Second, 0x2_0000, 0x1_0000, 0x1000);
    CopyBecomes(img, issues, Repair.TableBlock, First, 0x3_0000, 0x4_0000, 0x1_0000);
    CopyBecomes(img, issues, Repair.TableBlock, Second, 0x4_0000, 0x3_0000, 0x1_0000);
  }

  lemma {:induction false} ActionListed(bat: Option<nat>, fs: seq<Finding>, f: Finding)
    requires f in fs && Repair.Fixes(bat, f)
    ensures Repair.ActionFor(bat, f) in Repair.Actions(bat, fs)
  {
    hide Repair.ActionFor, Repair.Fixes;
    if f != fs[|fs| - 1] {
      ActionListed(bat, fs[..|fs| - 1], f);
    }
  }

  predicate Within(p: nat, a: Repair.Action) { a.offset <= p < a.offset + a.count }

  lemma TouchedWithin(bat: Option<nat>, f: Finding, p: nat)
    requires Repair.Touches(bat, f, p)
    ensures Repair.Fixes(bat, f) && Within(p, Repair.ActionFor(bat, f))
  {}

  /** The report is complete: a byte that repair changes lies in a listed action. */
  lemma ChangesListed(img: seq<byte>, bat: Option<nat>, fs: seq<Finding>, p: nat)
    requires Repair.CanFixAll(|img|, bat, fs) && p < |img| && Repair.FixAll(img, bat, fs)[p] != img[p]
    ensures exists a :: a in Repair.Actions(bat, fs) && Within(p, a)
  {
    hide Repair.FixAll, Repair.Touches, Repair.ActionFor, Repair.Fixes, Within, Repair.CanFix, Repair.Actions;
    if forall f :: f in fs ==> !Repair.Touches(bat, f, p) {
      Repair.Frame(img, bat, fs, p);
    }
    var f :| f in fs && Repair.Touches(bat, f, p);
    TouchedWithin(bat, f, p);
    ActionListed(bat, fs, f);
  }

  /** What the listed actions name: a header or table copy, or one entry. */
  lemma ActionsName(bat: Option<nat>, f: Finding)
    requires Repair.Fixes(bat, f)
    ensures f == HeaderChecksumMismatch(First) ==> Repair.ActionFor(bat, f) == Repair.Action(0x1_0000, 0x1000)
    ensures f == HeaderChecksumMismatch(Second) ==> Repair.ActionFor(bat, f) == Repair.Action(0x2_0000, 0x1000)
    ensures f == RegionTableChecksumMismatch(First) ==> Repair.ActionFor(bat, f) == Repair.Action(0x3_0000, 0x1_0000)
    ensures f == RegionTableChecksumMismatch(Second) ==> Repair.ActionFor(bat, f) == Repair.Action(0x4_0000, 0x1_0000)
    ensures NamesEntry(f) ==> Repair.ActionFor(bat, f) == Repair.Action(bat.value + 8 * f.index, 8)
  {}

  // ── The log ───────────────────────────────────────────────────────────────

  /** The image is analysed past its headers: it is marked and a region table copy verifies. */
  predicate PastTables(data: seq<byte>) {
    && |data| >= 0x5_0000 && data[..8] == [0x76, 0x68, 0x64, 0x78, 0x66, 0x69, 0x6C, 0x65]
    && (TableOk(data, 0x3_0000) || TableOk(data, 0x4_0000))
  }

  lemma PastTablesExactly(data: seq<byte>)
    ensures PastTables(data) <==> Readable(data) && TableFindings(data) != [BothRegionTableCopiesInvalid]
  {
    hide TableOk;
  }

  lemma InWrapped(fs: seq<LogCheck.LogFinding>, f: LogCheck.LogFinding)
    ensures InLog(f) in Wrapped(fs) <==> f in fs
  {
    if f in fs {
      var k :| 0 <= k < |fs| && fs[k] == f;
      assert Wrapped(fs)[k] == InLog(f);
    }
  }

  lemma NotOfTheLog(data: seq<byte>, items: seq<Sweeps.Keyed>, blocks: seq<Sweeps.Keyed>, f: LogCheck.LogFinding)
    requires |data| < TWO63
    ensures InLog(f) !in BlockPart(data) && InLog(f) !in ItemFindings(Sweeps.NeighbourOverlaps(items))
    ensures InLog(f) !in TablePart(data) && InLog(f) !in CapacityPart(data)
    ensures InLog(f) !in OverlapFindings(Sweeps.SharedKeys(blocks))
  {
    hide HeaderOk, TableOk, LogZone, ParsedLayout, ScanFindings, SizeFindings, CapacityFindings;
    hide WrongSize, Holds, Sweeps.NeighbourOverlaps, Sweeps.SharedKeys;
    if Scannable(data) {
      var l := ParsedLayout(data).value;
      InScan(data, l, LogZone(data), l.Count(), InLog(f));
      InSizeFindings(l, InLog(f));
    }
  }

  lemma InLogPart(data: seq<byte>, items: seq<Sweeps.Keyed>, blocks: seq<Sweeps.Keyed>, f: LogCheck.LogFinding)
    requires |data| < TWO63
    ensures InLog(f) in Analysis(data, items, blocks) <==> PastTables(data) && InLog(f) in LogPart(data)
  {
    hide LogPart, TablePart, CapacityPart, BlockPart, ItemFindings, OverlapFindings, TableFindings, PastTables;
    hide Sweeps.NeighbourOverlaps, Sweeps.SharedKeys;
    NotOfTheLog(data, items, blocks, f);
    PastTablesExactly(data);
    if Readable(data) {
      LongEnough(data);
    }
  }

  /** The active header names a dirty, identified log that lies in the image. */
  predicate HasLog(data: seq<byte>, h: LogHeader) {
    && ActiveHeader(data) == Ok(h) && h.logLength > 0
    && h.logGuid != [0, 0, 0, 0, 0, 0, 0, 0, 0, 0, 0, 0, 0, 0, 0, 0]
    && h.logOffset + h.logLength <= |data|
  }

  lemma ScannedExactly(data: seq<byte>, h: LogHeader)
    requires |data| < TWO63
    ensures LogCheck.ScannedLog(data).Some? && LogCheck.ScannedLog(data).value.1 == h <==> HasLog(data, h)
    ensures HasLog(data, h) ==>
              LogCheck.ScannedLog(data) == Some((data[h.logOffset..h.logOffset + h.logLength], h))
    ensures LogCheck.ScannedLog(data).Some? ==> HasLog(data, LogCheck.ScannedLog(data).value.1)
  {
    hide ActiveOffset, HeaderAt;
    assert Zeros(16) == [0, 0, 0, 0, 0, 0, 0, 0, 0, 0, 0, 0, 0, 0, 0, 0];
  }

  /** Log findings are those on the active header's log, where it has one. */
  lemma LogReported(data: seq<byte>, items: seq<Sweeps.Keyed>, blocks: seq<Sweeps.Keyed>, f: LogCheck.LogFinding)
    requires |data| < TWO63
    ensures forall h :: HasLog(data, h) ==>
              (InLog(f) in Analysis(data, items, blocks) <==>
                PastTables(data)
                && f in LogCheck.LogFindings(data[h.logOffset..h.logOffset + h.logLength], h.logOffset, h.logGuid))
    ensures (forall h :: !HasLog(data, h)) ==> InLog(f) !in Analysis(data, items, blocks)
  {
    hide Analysis, LogCheck.ScannedLog, LogCheck.LogFindings, ActiveHeader, PastTables;
    InLogPart(data, items, blocks, f);
    forall h | HasLog(data, h)
      ensures InLog(f) in LogPart(data) <==>
                f in LogCheck.LogFindings(data[h.logOffset..h.logOffset + h.logLength], h.logOffset, h.logGuid)
    {
      ScannedExactly(data, h);
      InWrapped(LogCheck.LogFindings(data[h.logOffset..h.logOffset + h.logLength], h.logOffset, h.logGuid), f);
    }
    if LogCheck.ScannedLog(data).Some? {
      ScannedExactly(data, LogCheck.ScannedLog(data).value.1);
    }
  }

  /** A log is reported dirty exactly when the active header gives it a length. */
  lemma DirtyReported(data: seq<byte>, items: seq<Sweeps.Keyed>, blocks: seq<Sweeps.Keyed>)
    requires |data| < TWO63
    ensures DirtyLog in Analysis(data, items, blocks) <==>
              && |data| >= 0x5_0000 && data[..8] == [0x76, 0x68, 0x64, 0x78, 0x66, 0x69, 0x6C, 0x65]
              && ActiveHeader(data).Ok? && ActiveHeader(data).value.logLength > 0
  {
    hide LogPart, TablePart, CapacityPart, ItemFindings, OverlapFindings, HeaderFindings, TableFindings;
    hide Sweeps.NeighbourOverlaps, Sweeps.SharedKeys, HeaderAt, ActiveOffset;
    DirtyElsewhere(data, items, blocks);
    assert LogZone(data).Some? <==> ActiveHeader(data).Ok? && ActiveHeader(data).value.logLength > 0;
  }

  lemma DirtyElsewhere(data: seq<byte>, items: seq<Sweeps.Keyed>, blocks: seq<Sweeps.Keyed>)
    requires |data| < TWO63
    ensures DirtyLog !in HeaderFindings(data) && DirtyLog !in TableFindings(data) && DirtyLog !in LogPart(data)
    ensures DirtyLog !in ItemFindings(Sweeps.NeighbourOverlaps(items)) && DirtyLog !in TablePart(data)
    ensures DirtyLog !in CapacityPart(data) && DirtyLog !in OverlapFindings(Sweeps.SharedKeys(blocks))
  {
    hide HeaderOk, TableOk, LogZone, ParsedLayout, ScanFindings, SizeFindings, CapacityFindings;
    hide LogCheck.ScannedLog, LogCheck.LogFindings, WrongSize, Holds, Sweeps.NeighbourOverlaps, Sweeps.SharedKeys;
    if Scannable(data) {
      var l := ParsedLayout(data).value;
      InScan(data, l, LogZone(data), l.Count(), DirtyLog);
      InSizeFindings(l, DirtyLog);
    }
  }

  // ── The length of the table ───────────────────────────────────────────────

  /** `q` is `n` divided by `d`, rounded up. */
  predicate RoundedUp(n: nat, d: nat, q: nat) { n <= q * d < n + d }

  lemma CeilIs(n: nat, d: nat, q: nat)
    requires d > 0 && RoundedUp(n, d, q)
    ensures Coverage.CeilDiv(n, d) == q
  {
    hide Div, Mod;
    MulComm(q, d);
    if n == q * d {
      DivUnique(n, d, q, 0);
    } else {
      MulAdd(d, q, -1);
      if q == 0 {
        assert false;
      }
      DivUnique(n, d, q - 1, n - d * (q - 1));
    }
  }

  /** The number of bytes that the format asks for, in whole MiB, as long as nothing reaches 64 bits. */
  lemma ExpectedIs(bs: nat, ds: nat, ratio: nat, blocks: nat, chunks: nat, units: nat)
    requires bs > 0 && ratio > 0 && RoundedUp(ds, bs, blocks) && RoundedUp(blocks, ratio, chunks)
    requires RoundedUp(8 * (blocks + chunks), 0x10_0000, units) && units * 0x10_0000 < 0x1_0000_0000_0000_0000
    ensures Coverage.ExpectedBytes(bs, ds, ratio) == units * 0x10_0000 % 0x1_0000_0000
  {
    hide *;
    CeilIs(ds, bs, blocks);
    CeilIs(blocks, ratio, chunks);
    CeilIs(8 * (blocks + chunks), 0x10_0000, units);
    AtLeast(8 * (blocks + chunks), 0x10_0000, units);
    UnwrappedBytes(bs, ds, ratio, blocks, chunks, units);
  }

  lemma AtLeast(n: nat, d: nat, q: nat)
    requires RoundedUp(n, d, q)
    ensures n <= q * d
  {}

  lemma UnwrappedBytes(bs: nat, ds: nat, ratio: nat, blocks: nat, chunks: nat, units: nat)
    requires bs > 0 && ratio > 0 && Coverage.CeilDiv(ds, bs) == blocks && Coverage.CeilDiv(blocks, ratio) == chunks
    requires Coverage.CeilDiv(8 * (blocks + chunks), 0x10_0000) == units
    requires 8 * (blocks + chunks) <= units * 0x10_0000 < 0x1_0000_0000_0000_0000
    ensures Coverage.ExpectedBytes(bs, ds, ratio) == units * 0x10_0000 % 0x1_0000_0000
  {
    hide Coverage.CeilDiv, Coverage.Wrap;
    Coverage.WrapSmall(blocks + chunks);
    Coverage.WrapSmall((blocks + chunks) * 8);
    Coverage.WrapSmall(units * 0x10_0000);
  }

  lemma CapacityIs(n: nat, ratio: nat, capacity: nat)
    requires capacity * (ratio + 1) <= n * ratio < (capacity + 1) * (ratio + 1) && n * ratio < 0x1_0000_0000_0000_0000
    ensures Coverage.Capacity(n, ratio) == capacity
  {
    hide Div, Mod;
    MulComm(capacity, ratio + 1);
    MulAdd(ratio + 1, capacity, 1);
    DivUnique(n * ratio, ratio + 1, capacity, n * ratio - (ratio + 1) * capacity);
  }

  /**
   The table is reported when its length is not the one that block size and disk size imply, and
   the disk size when it exceeds what the table's whole chunks can hold.
   */
  lemma SizesReported(data: seq<byte>, items: seq<Sweeps.Keyed>, blocks: seq<Sweeps.Keyed>, l: Layout,
                      ratio: nat, n: nat, chunks: nat, units: nat, capacity: nat)
    requires |data| < TWO63 && Scannable(data) && ParsedLayout(data) == Some(l) && ChunkPlace(l, ratio, 0, 0, 0)
    requires l.diskSize.Some? && ratio > 0
    requires RoundedUp(l.diskSize.value, l.blockSize.value, n) && RoundedUp(n, ratio, chunks)
    requires RoundedUp(8 * (n + chunks), 0x10_0000, units) && units * 0x10_0000 < 0x1_0000_0000_0000_0000
    requires capacity * (ratio + 1) <= l.bat.length / 8 * ratio < (capacity + 1) * (ratio + 1)
    requires l.bat.length / 8 * ratio < 0x1_0000_0000_0000_0000
    requires capacity * l.blockSize.value < 0x1_0000_0000_0000_0000
    ensures BatSizeMetadataMismatch in Analysis(data, items, blocks) <==>
              l.bat.length != units * 0x10_0000 % 0x1_0000_0000
    ensures VirtualDiskSizeOverreported in Analysis(data, items, blocks) <==>
              l.diskSize.value > capacity * l.blockSize.value
  {
    hide *;
    PlaceSays(l, ratio, 0, 0, 0);
    RatioOf(l, ratio, 0, 0, 0);
    ExpectedIs(l.blockSize.value, l.diskSize.value, ratio, n, chunks, units);
    CapacityIs(l.bat.length / 8, ratio, capacity);
    SizesFound(data, items, blocks, l, ratio, capacity);
  }

  lemma PlaceSays(l: Layout, ratio: nat, i: nat, c: nat, p: nat)
    requires ChunkPlace(l, ratio, i, c, p)
    ensures l.blockSize.Some? && l.blockSize.value > 0
  {}

  lemma SizesFound(data: seq<byte>, items: seq<Sweeps.Keyed>, blocks: seq<Sweeps.Keyed>, l: Layout, ratio: nat,
                   capacity: nat)
    requires |data| < TWO63 && Scannable(data) && ParsedLayout(data) == Some(l)
    requires l.blockSize.Some? && l.blockSize.value > 0 && l.diskSize.Some?
    requires l.ChunkRatio() == Some(ratio) && ratio > 0
    requires Coverage.Capacity(l.bat.length / 8, ratio) == capacity
    requires capacity * l.blockSize.value < 0x1_0000_0000_0000_0000
    ensures BatSizeMetadataMismatch in Analysis(data, items, blocks) <==>
              l.bat.length != Coverage.ExpectedBytes(l.blockSize.value, l.diskSize.value, ratio)
    ensures VirtualDiskSizeOverreported in Analysis(data, items, blocks) <==>
              l.diskSize.value > capacity * l.blockSize.value
  {
    hide Analysis, ParsedLayout, Readable, Coverage.ExpectedBytes, Coverage.Capacity, Layout.ChunkRatio, Coverage.Wrap;
    AnalysisFinds(data, items, blocks, BatSizeMetadataMismatch);
    AnalysisFinds(data, items, blocks, VirtualDiskSizeOverreported);
    Coverage.WrapSmall(capacity * l.blockSize.value);
  }
}
