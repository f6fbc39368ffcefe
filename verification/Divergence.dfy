/** Three valid containers, with one log entry each, that the two ways of opening treat differently. */
module Divergence {
  import opened Bytes
  import opened Arith
  import opened Header
  import opened Replay
  import opened Metadata
  import opened Disk
  import opened Log
  import opened Open
  import Bat
  import Build

  function Planned(size: nat, entry: seq<byte>): (p: Build.Plan)
    requires MIN_CONTAINER <= size < TWO63 && 96 <= |entry| <= 0x1_0000
    ensures Build.Describes(p, Build.ONE_BLOCK) && p.size == size && p.log == entry && p.first == p.head
  {
    hide Build.Head, Build.Standard, Build.Describes, ToLe64;
    Build.Standard(size, Build.Head(Build.LOG_GUID, Build.LOG_AT, |entry|), Build.ONE_BLOCK, ToLe64(Build.PRESENT),
                   entry)
  }

  function Image(size: nat, descriptor: seq<byte>, sector: seq<byte>): (img: seq<byte>)
    requires MIN_CONTAINER <= size < TWO63 && |descriptor| == 32 && |sector| <= 0x1000
    ensures |img| == size
  {
    Build.Container(Planned(size, Build.LogEntry(descriptor, sector)))
  }

  /** What the two ways of opening make of such an image. */
  lemma ImageOpens(size: nat, descriptor: seq<byte>, sector: seq<byte>)
    requires MIN_CONTAINER <= size < TWO63 && |descriptor| == 32 && |sector| <= 0x1000
    ensures var img, e := Image(size, descriptor, sector), Build.LogEntry(descriptor, sector);
            && Checked(img).Ok?
            && ReplayRuns(img) == Ok(DescriptorRuns(e, 0))
            && e[64..96] == descriptor && e[96..96 + |sector|] == sector && |e| == 96 + |sector|
            && DescriptorCount(e) == 1
  {
    hide LeU32, LeU64, ChecksumOk, Build.Head, Build.Items, Build.TableBlock, Build.Container, Build.LogEntry;
    hide DescriptorRuns, ActiveHeader, HeaderRuns, Replayable, EntryFits;
    var e := Build.LogEntry(descriptor, sector);
    var p := Planned(size, e);
    Build.LogEntryReads(descriptor, sector);
    Build.OneDescriptor(e);
    Build.ContainerShows(p);
    Build.ShowsSize(Build.Container(p), p);
    Build.OneEntryRuns(Build.Container(p), p);
  }

  /** A view that keeps everything before the last part decodes to the same disk over that view. */
  lemma ViewAssembles(size: nat, descriptor: seq<byte>, sector: seq<byte>, view: seq<byte>)
    requires MIN_CONTAINER <= size < TWO63 && |descriptor| == 32 && |sector| <= 0x1000
    requires |view| == size && view[..MIN_CONTAINER] == Image(size, descriptor, sector)[..MIN_CONTAINER]
    ensures Assembled(view, None) == Ok(Disk(view, [Build.PRESENT], Build.ONE_BLOCK, None))
  {
    hide Build.Head, Build.Items, Build.TableBlock, Build.Container, Build.LogEntry, Validate, Bat.Entries;
    hide Assembled, ToLe64;
    var p := Planned(size, Build.LogEntry(descriptor, sector));
    var img := Build.Container(p);
    Build.ContainerShows(p);
    SamePrefix(view, img, p);
    Build.OneBlockValid();
    Build.OneEntryTable(Build.PRESENT);
    Build.Assembles(view, p, Build.ONE_BLOCK, None);
  }

  lemma SamePrefix(view: seq<byte>, img: seq<byte>, p: Build.Plan)
    requires Build.Fits(p) && Build.Shows(img, p) && |view| == |img|
    requires view[..MIN_CONTAINER] == img[..MIN_CONTAINER]
    ensures Build.Shows(view, p)
  {
    SameInside(view, img, 0, 8);
    SameInside(view, img, HEADER1, HEADER1 + HEADER_SIZE);
    SameInside(view, img, HEADER2, HEADER2 + HEADER_SIZE);
    SameInside(view, img, TABLE1, TABLE1 + TABLE_SIZE);
    SameInside(view, img, TABLE2, TABLE2 + TABLE_SIZE);
    SameInside(view, img, Build.ITEMS_AT, Build.ITEMS_AT + |p.items|);
    SameInside(view, img, Build.BAT_AT, Build.BAT_AT + |p.bat|);
    SameInside(view, img, Build.LOG_AT, Build.LOG_AT + |p.log|);
  }

  lemma SameInside(x: seq<byte>, y: seq<byte>, lo: nat, hi: nat)
    requires lo <= hi <= MIN_CONTAINER <= |x| == |y| && x[..MIN_CONTAINER] == y[..MIN_CONTAINER]
    ensures x[lo..hi] == y[lo..hi]
  {
    assert x[..MIN_CONTAINER] == x[0..MIN_CONTAINER] && y[..MIN_CONTAINER] == y[0..MIN_CONTAINER];
    SliceSlice(x, 0, MIN_CONTAINER, lo, hi);
    SliceSlice(y, 0, MIN_CONTAINER, lo, hi);
  }

  // ── A sector that straddles the end of the container ──────────────────────

  /** Half of the sector lies inside this container, at the tail of the disk's block. */
  const STRADDLED: nat := MIN_CONTAINER + 0x800

  function Straddling(): (img: seq<byte>)
    ensures |img| == STRADDLED
  {
    Image(STRADDLED, Build.DataDescriptor(MIN_CONTAINER), Fill(SECTOR, 7))
  }

  lemma StraddlingRuns()
    ensures Checked(Straddling()).Ok?
    ensures ReplayRuns(Straddling()) == Ok([Run(MIN_CONTAINER, Fill(SECTOR, 7), true)])
  {
    hide LeU64, ToLe64, Build.LogEntry, Image, ReplayRuns, Checked, LeU32;
    var d, sector := Build.DataDescriptor(MIN_CONTAINER), Fill(SECTOR, 7);
    ImageOpens(STRADDLED, d, sector);
    DataRun(Build.LogEntry(d, sector), MIN_CONTAINER, sector);
  }

  /** The run of an entry whose one descriptor is a data descriptor. */
  lemma DataRun(e: seq<byte>, offset: u64, sector: seq<byte>)
    requires |sector| == SECTOR && |e| == 96 + SECTOR && DescriptorCount(e) == 1
    requires e[64..96] == Build.DataDescriptor(offset) && e[96..96 + SECTOR] == sector
    ensures DescriptorRuns(e, 0) == [Run(offset, sector, true)]
  {
    hide LeU64, ToLe64, LeU32, Build.DataDescriptor;
    var d := Build.DataDescriptor(offset);
    SliceSlice(e, 64, 96, 0, 4);
    SliceSlice(e, 64, 96, 24, 32);
    LeU64Slice(e, 88, 96, 0);
  }

  /**
   One way of opening skips the sector and the other shows half of it: the same virtual byte
   is zero through the one and seven through the other.
   */
  lemma StraddlingSectorDiffers()
    ensures FromBytes(Straddling(), None).Ok? && FromBacking(Straddling(), None).Ok?
    ensures var a, b := FromBytes(Straddling(), None).value, FromBacking(Straddling(), None).value;
            && WellFormed(a) && WellFormed(b)
            && ByteAt(a, 0x5_0000) == Ok(0) && ByteAt(b, 0x5_0000) == Ok(7)
  {
    hide Straddling, ReplayRuns, Checked, Assembled, WellFormed, ByteAt, Overlaid, InPlace, ActiveHeader, HeaderRuns;
    var img, run := Straddling(), Run(MIN_CONTAINER, Fill(SECTOR, 7), true);
    StraddlingRuns();
    var view := Overlaid(img, 0, [run]);
    OpenedAs(img, [run]);
    StraddlingViews(img, run);
    assert InPlace(img, [run]) == img by {
      OneRun(img, run);
    }
    StraddlingAssembles(img);
    StraddlingAssembles(view);
    ByteThrough(img, 0);
    ByteThrough(view, 7);
  }

  lemma StraddlingAssembles(view: seq<byte>)
    requires |view| == STRADDLED && view[..MIN_CONTAINER] == Straddling()[..MIN_CONTAINER]
    ensures Assembled(view, None) == Ok(Disk(view, [Build.PRESENT], Build.ONE_BLOCK, None))
  {
    hide Image, Assembled;
    ViewAssembles(STRADDLED, Build.DataDescriptor(MIN_CONTAINER), Fill(SECTOR, 7), view);
  }

  /** Both results in terms of the runs, when neither way panics. */
  lemma OpenedAs(img: seq<byte>, runs: seq<Run>)
    requires MIN_CONTAINER <= |img| < TWO63 && Checked(img).Ok? && ReplayRuns(img) == Ok(runs)
    requires !Trips(runs, SectorEnd) || !Trips(runs, ZeroLength)
    ensures !Trips(runs, SectorEnd) ==> FromBytes(img, None) == Assembled(InPlace(img, runs), None)
    ensures !Trips(runs, ZeroLength) ==> FromBacking(img, None) == Assembled(Overlaid(img, 0, runs), None)
  {
    hide ActiveHeader, HeaderRuns, Assembled, Overlaid, InPlace, Trips;
    HeaderInPrefix(img);
  }

  lemma StraddlingViews(img: seq<byte>, run: Run)
    requires img == Straddling() && run == Run(MIN_CONTAINER, Fill(SECTOR, 7), true)
    ensures var view := Overlaid(img, 0, [run]);
            && view[..MIN_CONTAINER] == img[..MIN_CONTAINER]
            && img[MIN_CONTAINER] == 0 && view[MIN_CONTAINER] == 7
    ensures !Trips([run], SectorEnd) && !Trips([run], ZeroLength)
  {
    hide Overlaid, InPlace, Straddling;
    var view := Overlaid(img, 0, [run]);
    forall p | 0 <= p < MIN_CONTAINER
      ensures view[p] == img[p]
    {
      Untouched(img, [run], p);
    }
    Prefixes(view, img);
    OverlaidNormalForm(img, 0, [run], MIN_CONTAINER);
    assert Top([run], MIN_CONTAINER) == 0;
    StraddlingTail();
  }

  lemma Prefixes(x: seq<byte>, y: seq<byte>)
    requires |x| == |y| >= MIN_CONTAINER && forall p :: 0 <= p < MIN_CONTAINER ==> x[p] == y[p]
    ensures x[..MIN_CONTAINER] == y[..MIN_CONTAINER]
  {}

  lemma StraddlingTail()
    ensures Straddling()[MIN_CONTAINER] == 0
  {
    hide Build.Container, Build.Head, Build.Items, Build.TableBlock, Build.LogEntry, Build.DataDescriptor;
    Build.ContainerTail(Planned(STRADDLED, Build.LogEntry(Build.DataDescriptor(MIN_CONTAINER), Fill(SECTOR, 7))),
                        MIN_CONTAINER);
  }

  /** The virtual byte at 0x5_0000 is the container byte at the end of the minimal container. */
  lemma ByteThrough(view: seq<byte>, b: byte)
    requires |view| == STRADDLED && view[MIN_CONTAINER] == b
    ensures var d := Disk(view, [Build.PRESENT], Build.ONE_BLOCK, None);
            WellFormed(d) && ByteAt(d, 0x5_0000) == Ok(b)
  {
    hide Div, Mod, Validate, Meta.ChunkRatio;
    Build.OneBlockValid();
    Geometry(Build.ONE_BLOCK);
    DivUnique(0x5_0000, 0x10_0000, 0, 0x5_0000);
    ZeroQuotient(Build.ONE_BLOCK.ChunkRatio());
  }

  lemma ZeroQuotient(d: nat)
    requires d > 0
    ensures Div(0, d) == 0
  {}

  // ── A sector whose end overflows, and a zero run too long to allocate ─────

  function Overflowing(): (img: seq<byte>)
    ensures |img| == MIN_CONTAINER
  {
    Image(MIN_CONTAINER, Build.DataDescriptor(TWO64 - SECTOR), Fill(SECTOR, 7))
  }

  function Oversized(): (img: seq<byte>)
    ensures |img| == MIN_CONTAINER
  {
    Image(MIN_CONTAINER, Build.ZeroDescriptor(MIN_CONTAINER, TWO63), [])
  }

  /** Opening owned bytes panics on a sector offset near 2^64; opening a backing succeeds. */
  lemma OverflowDiverges()
    ensures FromBytes(Overflowing(), None) == Err(Panic) && FromBacking(Overflowing(), None).Ok?
  {
    hide Overflowing, ReplayRuns, Checked, Assembled, Overlaid, InPlace, ActiveHeader, HeaderRuns, FromBytes;
    hide FromBacking;
    var img, run := Overflowing(), Run(TWO64 - SECTOR, Fill(SECTOR, 7), true);
    OverflowingRuns();
    assert [run][0].Trips(SectorEnd);
    PanicsExactly(img, None);
    OpenedAs(img, [run]);
    FarRun(img, run);
    OverflowingAssembles();
  }

  lemma OverflowingRuns()
    ensures Checked(Overflowing()).Ok?
    ensures ReplayRuns(Overflowing()) == Ok([Run(TWO64 - SECTOR, Fill(SECTOR, 7), true)])
  {
    hide LeU64, ToLe64, Build.LogEntry, Image, ReplayRuns, Checked, LeU32;
    var d, sector := Build.DataDescriptor(TWO64 - SECTOR), Fill(SECTOR, 7);
    ImageOpens(MIN_CONTAINER, d, sector);
    DataRun(Build.LogEntry(d, sector), TWO64 - SECTOR, sector);
  }

  lemma OverflowingAssembles()
    ensures Assembled(Overflowing(), None).Ok?
  {
    hide Image, Assembled;
    ViewAssembles(MIN_CONTAINER, Build.DataDescriptor(TWO64 - SECTOR), Fill(SECTOR, 7), Overflowing());
  }

  /** A run beyond the end leaves the container as it is, on either path. */
  lemma FarRun(img: seq<byte>, run: Run)
    requires |img| <= run.offset
    ensures Overlaid(img, 0, [run]) == img && InPlace(img, [run]) == img
  {
    hide Overlaid, InPlace;
    forall p | 0 <= p < |img|
      ensures Overlaid(img, 0, [run])[p] == img[p] && InPlace(img, [run])[p] == img[p]
    {
      Untouched(img, [run], p);
    }
  }

  /** Opening a backing panics on a zero descriptor of 2^63 bytes; opening owned bytes succeeds. */
  lemma OversizeDiverges()
    ensures FromBacking(Oversized(), None) == Err(Panic) && FromBytes(Oversized(), None).Ok?
  {
    hide Oversized, ReplayRuns, Checked, Assembled, Overlaid, InPlace, ActiveHeader, HeaderRuns, FromBytes, FromBacking;
    var img, run := Oversized(), Run(MIN_CONTAINER, Zeros(TWO63), false);
    OversizedRuns();
    assert [run][0].Trips(ZeroLength);
    PanicsExactly(img, None);
    OpenedAs(img, [run]);
    FarRun(img, run);
    OversizedAssembles();
  }

  lemma OversizedRuns()
    ensures Checked(Oversized()).Ok?
    ensures ReplayRuns(Oversized()) == Ok([Run(MIN_CONTAINER, Zeros(TWO63), false)])
  {
    hide LeU64, ToLe64, Build.LogEntry, Image, ReplayRuns, Checked, LeU32;
    var d := Build.ZeroDescriptor(MIN_CONTAINER, TWO63);
    ImageOpens(MIN_CONTAINER, d, []);
    ZeroRunOf(Build.LogEntry(d, []), MIN_CONTAINER, TWO63);
  }

  lemma ZeroRunOf(e: seq<byte>, offset: u64, length: u64)
    requires |e| == 96 && length > 0 && e[64..96] == Build.ZeroDescriptor(offset, length)
    ensures DescriptorRuns(e, 0) == [Run(offset, Zeros(length), false)]
  {
    hide LeU64, ToLe64, LeU32, Build.ZeroDescriptor;
    SliceSlice(e, 64, 96, 0, 4);
    SliceSlice(e, 64, 96, 8, 16);
    SliceSlice(e, 64, 96, 16, 24);
    LeU64Slice(e, 72, 80, 0);
    LeU64Slice(e, 80, 88, 0);
    assert DESC[0] != ZERO[0];
  }

  lemma OversizedAssembles()
    ensures Assembled(Oversized(), None).Ok?
  {
    hide Image, Assembled;
    ViewAssembles(MIN_CONTAINER, Build.ZeroDescriptor(MIN_CONTAINER, TWO63), [], Oversized());
  }
}
