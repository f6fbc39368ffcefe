/** The analyser's findings on the length of the block table, and what their absence means to the reader. */
module Sizes {
  import opened Bytes
  import opened Arith
  import opened Region
  import opened Disk
  import opened Preserve
  import Bat
  import Build
  import Coverage
  import I = Integrity
  import M = Metadata
  import Open
  import Sweeps

  /**
   Reader and analyser agree on the regions, and what the analyser knows of block size, chunk ratio
   and disk size it has as the reader has it. It may know less: it visits at most 256 items, and
   does not read the disk size under the second identifier that the reader accepts.
   */
  predicate SameParameters(img: seq<byte>, d: Disk)
    requires Open.MIN_CONTAINER <= |img|
  {
    && I.ParsedLayout(img).Some?
    && d.meta.blockSize > 0
    && var l := I.ParsedLayout(img).value;
       && Open.Regions(img) == Ok(RegionTable(l.bat, l.metadata))
       && (l.blockSize.Some? ==> l.blockSize == Some(d.meta.blockSize))
       && (l.ChunkRatio().Some? ==> l.ChunkRatio() == Some(d.meta.ChunkRatio()))
       && (l.diskSize.Some? ==> l.diskSize == Some(d.meta.diskSize))
  }

  /** The table of a clean container, as the reader has it. */
  lemma TableOf(img: seq<byte>, parent: Option<Disk>, d: Disk)
    requires Open.MIN_CONTAINER <= |img| < TWO63 && CleanLog(img)
    requires Open.FromBytes(img, parent) == Ok(d) && SameParameters(img, d)
    ensures I.Readable(img) && I.ParsedLayout(img).value.bat.End() <= |img|
    ensures M.Valid(d.meta) && |d.entries| == I.ParsedLayout(img).value.bat.length / 8
  {
    hide I.ParsedLayout, Open.FromBytes, Open.Regions, Open.Assembled, Open.Parameters, CleanLog, M.Validate;
    hide I.Layout.ChunkRatio, M.Meta.ChunkRatio, Bat.Entries;
    var l := I.ParsedLayout(img).value;
    OpenedMagic(img, parent);
    CleanOpens(img, parent);
    AssembledIs(img, parent, RegionTable(l.bat, l.metadata));
  }

  /** The analyser knows what the length is measured against. */
  predicate Known(l: I.Layout) { l.ChunkRatio().Some? && l.diskSize.Some? }

  /** The length of the table is measured: it has an entry, and the measure is known. */
  predicate Measured(img: seq<byte>)
    requires I.ParsedLayout(img).Some?
  {
    I.ParsedLayout(img).value.bat.length >= 8 && Known(I.ParsedLayout(img).value)
  }

  lemma RatioNeedsBlockSize(l: I.Layout)
    ensures l.ChunkRatio().Some? ==> l.blockSize.Some?
  {
    hide Div;
  }

  /** Each finding on the length is reported exactly when the table is measured and its check fails. */
  lemma AbsentMeansPassed(img: seq<byte>, d: Disk, items: seq<Sweeps.Keyed>, blocks: seq<Sweeps.Keyed>)
    requires Open.MIN_CONTAINER <= |img| < TWO63 && SameParameters(img, d) && Bat.Usable(d.meta)
    requires I.Readable(img) && I.ParsedLayout(img).value.bat.End() <= |img|
    ensures !I.Panics(img)
    ensures var n := I.ParsedLayout(img).value.bat.length;
            && (I.BatSizeMetadataMismatch in I.Analysis(img, items, blocks) <==>
                  Measured(img) && Coverage.SizeMismatch(d.meta.blockSize, d.meta.diskSize, d.meta.ChunkRatio(), n))
            && (I.VirtualDiskSizeOverreported in I.Analysis(img, items, blocks) <==>
                  Measured(img)
                  && Coverage.SizeOverreported(d.meta.blockSize, d.meta.diskSize, d.meta.ChunkRatio(), n / 8))
  {
    hide I.ParsedLayout, I.Analysis, Open.Regions, Coverage.SizeMismatch, Coverage.SizeOverreported;
    hide I.Layout.ChunkRatio, M.Meta.ChunkRatio, I.Readable;
    RatioNeedsBlockSize(I.ParsedLayout(img).value);
    I.AnalysisFinds(img, items, blocks, I.BatSizeMetadataMismatch);
    I.AnalysisFinds(img, items, blocks, I.VirtualDiskSizeOverreported);
  }

  /**
   If the analyser reports at most one of its two findings on the table's length, then some byte
   of the disk lacks its entry exactly when the length was not measured and is too small.
   */
  lemma SilenceMeansCovered(img: seq<byte>, parent: Option<Disk>, d: Disk,
                            items: seq<Sweeps.Keyed>, blocks: seq<Sweeps.Keyed>)
    requires Open.MIN_CONTAINER <= |img| < TWO63 && CleanLog(img)
    requires Open.FromBytes(img, parent) == Ok(d) && SameParameters(img, d)
    requires || I.BatSizeMetadataMismatch !in I.Analysis(img, items, blocks)
             || I.VirtualDiskSizeOverreported !in I.Analysis(img, items, blocks)
    ensures Bat.Usable(d.meta) && !I.Panics(img)
    ensures var l := I.ParsedLayout(img).value;
            Coverage.SomeBlockMissing(d.entries, d.meta) <==>
              || l.bat.length < 8
              || (!Known(l)
                  && Coverage.DataBlocks(d.meta) > Coverage.PayloadSlots(l.bat.length / 8, d.meta.ChunkRatio()))
  {
    hide I.ParsedLayout, I.Analysis, Open.FromBytes, Open.Regions, CleanLog, M.Validate, I.Readable, I.Panics;
    hide I.Layout.ChunkRatio, M.Meta.ChunkRatio, Coverage.SizeMismatch, Coverage.SizeOverreported;
    hide Coverage.SomeBlockMissing, Coverage.DataBlocks, Coverage.PayloadSlots;
    TableOf(img, parent, d);
    Bat.ValidUsable(d.meta);
    AbsentMeansPassed(img, d, items, blocks);
    var n := I.ParsedLayout(img).value.bat.length;
    if n < 8 {
      assert d.entries == [];
      Coverage.NoEntriesAllMissing(d.meta);
    } else if Measured(img) {
      Coverage.EitherCheckSuffices(d.entries, d.meta, n);
    } else {
      Coverage.AllBlocksPresentExactly(d.entries, d.meta);
    }
  }

  // ── A table of no entries ─────────────────────────────────────────────────

  function EmptyPlan(): (p: Build.Plan)
    ensures Build.Describes(p, Build.ONE_BLOCK) && p.size == Open.MIN_CONTAINER && p.bat == []
  {
    hide Build.Head, Build.Standard, Build.Describes;
    Build.Standard(Open.MIN_CONTAINER, Build.Head(Zeros(16), 0, 0), Build.ONE_BLOCK, [], [])
  }

  /** A clean container whose block table region is empty. */
  function EmptyTable(): (img: seq<byte>)
    ensures |img| == Open.MIN_CONTAINER
  {
    hide EmptyPlan, Build.Container;
    Build.Container(EmptyPlan())
  }

  lemma EmptyTableShows()
    ensures Build.Shows(EmptyTable(), EmptyPlan())
  {
    hide EmptyPlan, Build.Container, Build.Shows;
    Build.ContainerShows(EmptyPlan());
  }

  lemma EmptyTableOpens()
    ensures Open.FromBytes(EmptyTable(), None) == Ok(Disk(EmptyTable(), [], Build.ONE_BLOCK, None))
  {
    hide EmptyTable, CleanLog, M.Validate, Build.Shows, Open.FromBytes, Open.Assembled, Build.Head;
    EmptyTableShows();
    Build.OneBlockValid();
    Build.CleanRead(EmptyTable(), EmptyPlan());
    Build.ShowsSize(EmptyTable(), EmptyPlan());
    Build.Assembles(EmptyTable(), EmptyPlan(), Build.ONE_BLOCK, None);
    CleanOpens(EmptyTable(), None);
  }

  lemma EmptyTableLayout()
    ensures CleanLog(EmptyTable()) && I.ParsedLayout(EmptyTable()).Some?
    ensures I.ParsedLayout(EmptyTable()).value.bat.length == 0
    ensures SameParameters(EmptyTable(), Disk(EmptyTable(), [], Build.ONE_BLOCK, None))
  {
    hide EmptyTable, EmptyPlan, I.ParsedLayout, Build.Shows, Build.Describes, CleanLog, CountsFit, M.Validate;
    hide I.Layout.ChunkRatio, M.Meta.ChunkRatio, Open.Regions;
    EmptyTableShows();
    Build.OneBlockValid();
    EmptyPlanFits();
    Build.CleanRead(EmptyTable(), EmptyPlan());
    Build.LayoutRead(EmptyTable(), EmptyPlan(), Build.ONE_BLOCK);
    Build.SameTables(EmptyTable(), EmptyPlan(), Build.ONE_BLOCK, Disk(EmptyTable(), [], Build.ONE_BLOCK, None));
  }

  lemma EmptyPlanFits()
    ensures Build.Fits(EmptyPlan()) && EmptyPlan().first == EmptyPlan().head == Build.Head(Zeros(16), 0, 0)
  {
    hide Build.Head, Build.TableBlock, Build.Items;
  }

  /**
   This container meets the conditions of `SilenceMeansCovered`: it opens, and reader and analyser
   agree on it. Neither size finding is reported of it, and none of its bytes can be read.
   */
  lemma EmptyTableUnreported(items: seq<Sweeps.Keyed>, blocks: seq<Sweeps.Keyed>)
    ensures I.BatSizeMetadataMismatch !in I.Analysis(EmptyTable(), items, blocks)
    ensures I.VirtualDiskSizeOverreported !in I.Analysis(EmptyTable(), items, blocks)
    ensures Open.FromBytes(EmptyTable(), None).Ok? && CleanLog(EmptyTable()) && !I.Panics(EmptyTable())
    ensures var d := Open.FromBytes(EmptyTable(), None).value;
            && SameParameters(EmptyTable(), d) && WellFormed(d) && d.meta.diskSize > 0
            && forall v: nat :: v < d.meta.diskSize ==> ByteAt(d, v).Err?
  {
    hide EmptyTable, I.Analysis, I.ParsedLayout, Open.FromBytes, M.Validate, Bat.ReadTarget, I.WrongSize;
    hide SameParameters;
    hide CleanLog;
    EmptyTableOpens();
    EmptyTableLayout();
    Build.OneBlockValid();
    I.AnalysisFinds(EmptyTable(), items, blocks, I.BatSizeMetadataMismatch);
    I.AnalysisFinds(EmptyTable(), items, blocks, I.VirtualDiskSizeOverreported);
    Coverage.NoEntriesAllMissing(Build.ONE_BLOCK);
  }

  // ── A disk size that the analyser does not read ──────────────────────────

  /** A disk of two blocks of 1 MiB. */
  const TWO_BLOCKS: M.Meta := M.Meta(0x10_0000, false, 0x20_0000, 512)

  function QemuPlan(): (p: Build.Plan)
    ensures Build.Describes(p, TWO_BLOCKS, M.VIRTUAL_DISK_SIZE_QEMU) && p.size == Open.MIN_CONTAINER
    ensures p.bat == ToLe64(0) && p.first == p.head == Build.Head(Zeros(16), 0, 0)
  {
    hide Build.Head, Build.Standard, Build.Describes, ToLe64;
    Build.Standard(Open.MIN_CONTAINER, Build.Head(Zeros(16), 0, 0), TWO_BLOCKS, ToLe64(0), [], M.VIRTUAL_DISK_SIZE_QEMU)
  }

  /** A clean container with the disk size under the second identifier, and a table of one entry. */
  function ShortTable(): (img: seq<byte>)
    ensures |img| == Open.MIN_CONTAINER
  {
    hide QemuPlan, Build.Container;
    Build.Container(QemuPlan())
  }

  lemma TwoBlocksValid()
    ensures M.Valid(TWO_BLOCKS) && Bat.Usable(TWO_BLOCKS) && TWO_BLOCKS.ChunkRatio() == 4096
  {
    hide Div, Mod, M.CountOnes;
    M.PowerHasOneBit(20);
    M.PowersOfTwo();
    DivUnique(0x20_0000, 512, 0x1000, 0);
    DivUnique(M.SECTORS_PER_CHUNK * 512, 0x10_0000, 4096, 0);
  }

  lemma ShortTableShows()
    ensures Build.Shows(ShortTable(), QemuPlan())
  {
    hide QemuPlan, Build.Container, Build.Shows;
    Build.ContainerShows(QemuPlan());
  }

  lemma ShortTableOpens()
    ensures CleanLog(ShortTable())
    ensures Open.FromBytes(ShortTable(), None) == Ok(Disk(ShortTable(), [0], TWO_BLOCKS, None))
  {
    hide ShortTable, QemuPlan, CleanLog, M.Validate, Build.Shows, Build.Describes, Open.FromBytes, Open.Assembled;
    hide Build.Head, ToLe64, Bat.Entries;
    ShortTableShows();
    TwoBlocksValid();
    ShortPlanFits();
    Build.OneEntryTable(0);
    Build.CleanRead(ShortTable(), QemuPlan());
    Build.ShowsSize(ShortTable(), QemuPlan());
    Build.Assembles(ShortTable(), QemuPlan(), TWO_BLOCKS, None, M.VIRTUAL_DISK_SIZE_QEMU);
    CleanOpens(ShortTable(), None);
  }

  lemma ShortPlanFits()
    ensures Build.Fits(QemuPlan())
  {
    hide Build.Head, Build.TableBlock, Build.Items, QemuPlan;
  }

  lemma ShortTableLayout()
    ensures I.Readable(ShortTable()) && I.ParsedLayout(ShortTable()).Some?
    ensures var l := I.ParsedLayout(ShortTable()).value;
            l.diskSize.None? && l.bat.length == 8 && l.bat.End() <= |ShortTable()|
    ensures SameParameters(ShortTable(), Disk(ShortTable(), [0], TWO_BLOCKS, None))
  {
    hide ShortTable, QemuPlan, I.ParsedLayout, Build.Shows, Build.Describes, CountsFit, M.Validate;
    hide I.Layout.ChunkRatio, M.Meta.ChunkRatio, Open.Regions, I.Readable, ToLe64;
    ShortTableShows();
    TwoBlocksValid();
    ShortPlanFits();
    M.DistinctItems();
    DistinctSizes();
    Build.ShowsSize(ShortTable(), QemuPlan());
    Build.LayoutRead(ShortTable(), QemuPlan(), TWO_BLOCKS, M.VIRTUAL_DISK_SIZE_QEMU);
    Build.SameTables(ShortTable(), QemuPlan(), TWO_BLOCKS, Disk(ShortTable(), [0], TWO_BLOCKS, None),
                     M.VIRTUAL_DISK_SIZE_QEMU);
  }

  lemma DistinctSizes()
    ensures M.VIRTUAL_DISK_SIZE_QEMU != M.VIRTUAL_DISK_SIZE
  {
    assert M.VIRTUAL_DISK_SIZE_QEMU[10] == 0x5D && M.VIRTUAL_DISK_SIZE[10] == 0x5B;
  }

  /**
   On this container reader and analyser agree in the sense of `SilenceMeansCovered`. Its table
   lacks the second block of the disk, and neither finding is reported.
   */
  lemma ShortTableUnreported(items: seq<Sweeps.Keyed>, blocks: seq<Sweeps.Keyed>)
    ensures I.BatSizeMetadataMismatch !in I.Analysis(ShortTable(), items, blocks)
    ensures I.VirtualDiskSizeOverreported !in I.Analysis(ShortTable(), items, blocks)
    ensures Open.FromBytes(ShortTable(), None).Ok? && CleanLog(ShortTable()) && !I.Panics(ShortTable())
    ensures var d := Open.FromBytes(ShortTable(), None).value;
            && SameParameters(ShortTable(), d) && WellFormed(d)
            && d.meta.diskSize > 0x10_0000 && ByteAt(d, 0x10_0000) == Err(BlockNotPresent(1))
  {
    hide ShortTable, I.Analysis, I.ParsedLayout, Open.FromBytes, M.Validate, Bat.ReadTarget, SameParameters, CleanLog;
    hide I.Readable, I.Panics, ByteAt;
    ShortTableOpens();
    ShortTableLayout();
    TwoBlocksValid();
    AbsentMeansPassed(ShortTable(), Disk(ShortTable(), [0], TWO_BLOCKS, None), items, blocks);
    SecondBlockMissing(Disk(ShortTable(), [0], TWO_BLOCKS, None));
  }

  lemma SecondBlockMissing(d: Disk)
    requires WellFormed(d) && d.meta == TWO_BLOCKS && |d.entries| == 1
    ensures ByteAt(d, 0x10_0000) == Err(BlockNotPresent(1))
  {
    hide WellFormed, M.Validate, Div, Mod, M.Meta.ChunkRatio;
    TwoBlocksValid();
    DivUnique(0x10_0000, 0x10_0000, 1, 0);
    DivUnique(1, 4096, 0, 1);
  }

  // ── A block larger than a chunk ───────────────────────────────────────────

  const WIDE: M.Meta := M.Meta(0x100_0000, false, 0x10_0000, 1)

  function WidePlan(): (p: Build.Plan)
    ensures Build.Describes(p, WIDE) && p.size == Open.MIN_CONTAINER && p.bat == Zeros(8)
  {
    hide Build.Head, Build.Standard, Build.Describes;
    Build.Standard(Open.MIN_CONTAINER, Build.Head(Zeros(16), 0, 0), WIDE, Zeros(8), [])
  }

  /** Blocks of 16 MiB over sectors of one byte: a chunk is 8 MiB. */
  function WideBlocks(): (img: seq<byte>)
    ensures |img| == Open.MIN_CONTAINER
  {
    hide WidePlan, Build.Container;
    Build.Container(WidePlan())
  }

  lemma WideBlocksShow()
    ensures Build.Shows(WideBlocks(), WidePlan())
  {
    hide WidePlan, Build.Container, Build.Shows;
    Build.ContainerShows(WidePlan());
  }

  lemma WideLayout()
    ensures I.Scannable(WideBlocks())
    ensures var l := I.ParsedLayout(WideBlocks()).value;
            l.blockSize == Some(0x100_0000) && l.sectorSize == Some(1) && l.diskSize == Some(0x10_0000)
  {
    hide WideBlocks, WidePlan, I.ParsedLayout, Build.Shows, Build.Describes;
    WideBlocksShow();
    Build.LayoutRead(WideBlocks(), WidePlan(), WIDE);
    Build.TableScanned(WideBlocks(), WidePlan(), WIDE);
  }

  lemma NoRatio(l: I.Layout)
    requires l.blockSize == Some(0x100_0000) && l.sectorSize == Some(1)
    ensures l.ChunkRatio() == Some(0)
  {
    hide Div, Mod;
    DivUnique(M.SECTORS_PER_CHUNK * 1, 0x100_0000, 0, M.SECTORS_PER_CHUNK);
  }

  /** The analysis of this container, and so every repair of it, panics. */
  lemma WideBlocksPanic()
    ensures I.Panics(WideBlocks())
  {
    hide WideBlocks, I.ParsedLayout, I.Readable, I.Layout.ChunkRatio;
    WideLayout();
    NoRatio(I.ParsedLayout(WideBlocks()).value);
  }
}
