/** A dirty container on which repair zeroes an entry of the block table and replay restores it. */
module Restore {
  import opened Bytes
  import opened Arith
  import opened Header
  import opened Replay
  import opened Disk
  import opened Repair
  import opened Fixpoint
  import opened Preserve
  import opened Dirty
  import Bat
  import Build
  import Chain
  import Divergence
  import I = Integrity
  import Log
  import M = Metadata
  import Open
  import Sample

  /** The sector that the log writes over the start of the block table. */
  function Sector(): (s: seq<byte>)
    ensures |s| == SECTOR && s[0..8] == ToLe64(Build.PRESENT)
  {
    ToLe64(Build.PRESENT) + Zeros(SECTOR - 8)
  }

  function Entry(): (e: seq<byte>)
    ensures |e| == 96 + SECTOR
  {
    Build.LogEntry(Build.DataDescriptor(Build.BAT_AT), Sector())
  }

  function Planned(entry: u64): (p: Build.Plan)
    ensures Build.Describes(p, Sample.META) && p.size == Open.MIN_CONTAINER
    ensures p.bat == ToLe64(entry) && p.log == Entry()
    ensures p.first == p.head == Build.Head(Build.LOG_GUID, Build.LOG_AT, 96 + SECTOR)
  {
    hide Build.Head, Build.Standard, Build.Describes, ToLe64, Entry;
    Build.Standard(Open.MIN_CONTAINER, Build.Head(Build.LOG_GUID, Build.LOG_AT, 96 + SECTOR), Sample.META,
                   ToLe64(entry), Entry())
  }

  /** On disk the entry is in the undefined state. */
  function Image(): (img: seq<byte>)
    ensures |img| == Open.MIN_CONTAINER
  {
    hide Planned, Build.Container;
    Build.Container(Planned(1))
  }

  function Runs(): seq<Run> { [Run(Build.BAT_AT, Sector(), true)] }

  function Child(): Disk {
    Disk(InPlace(Image(), Runs()), [Build.PRESENT], Sample.META, Some(Sample.Parent()))
  }

  lemma ImageShows()
    ensures Build.Shows(Image(), Planned(1))
  {
    hide Planned, Build.Container, Build.Shows;
    Build.ContainerShows(Planned(1));
  }

  /** The log asks for the one sector. */
  lemma EntryWrites()
    ensures Log.EntryRuns(Entry()) == Runs() && Log.TableFits(Entry())
    ensures Log.EntryFits(Entry(), 0) && Log.EntryLength(Entry(), 0) == 96 + SECTOR
    ensures Log.Replayable(Entry(), Build.LOG_GUID)
  {
    hide Build.LogEntry, Build.DataDescriptor, Sector, Log.DescriptorRuns, Log.Replayable, Log.EntryFits, LeU32;
    hide Log.EntryRuns;
    Build.LogEntryReads(Build.DataDescriptor(Build.BAT_AT), Sector());
    Build.OneDescriptor(Entry());
    Divergence.DataRun(Entry(), Build.BAT_AT, Sector());
  }

  lemma Replayed()
    ensures Log.ReplayRuns(Image()) == Ok(Runs())
  {
    hide *;
    ImageShows();
    PlanFits(1);
    EntryWrites();
    Build.OneEntryRuns(Image(), Planned(1));
  }

  lemma PlanFits(entry: u64)
    ensures Build.Fits(Planned(entry))
  {
    hide Planned, Build.TableBlock, Build.Items;
  }

  /** After replay the container shows a plan with the entry restored. */
  lemma ViewShows()
    ensures Build.Shows(InPlace(Image(), Runs()), Planned(Build.PRESENT))
  {
    hide Image, InPlace, Runs, ToLe64, Entry, Build.Head;
    var img, view, p, q := Image(), InPlace(Image(), Runs()), Planned(1), Planned(Build.PRESENT);
    ImageShows();
    PlanFits(1);
    PlanFits(Build.PRESENT);
    SamePlans();
    Elsewhere(0, 8);
    Elsewhere(HEADER1, HEADER1 + HEADER_SIZE);
    Elsewhere(HEADER2, HEADER2 + HEADER_SIZE);
    Elsewhere(TABLE1, TABLE1 + TABLE_SIZE);
    Elsewhere(TABLE2, TABLE2 + TABLE_SIZE);
    Elsewhere(Build.ITEMS_AT, Build.ITEMS_AT + Build.ITEMS_SIZE);
    Elsewhere(Build.LOG_AT, Build.LOG_AT + 96 + SECTOR);
    AtTable();
  }

  lemma SamePlans()
    ensures var p, q := Planned(1), Planned(Build.PRESENT);
            && p.first == q.first && p.head == q.head && p.table == q.table && p.items == q.items
            && |p.items| == Build.ITEMS_SIZE
  {
    hide Planned, ToLe64, Build.Head, Build.TableBlock, Entry;
  }

  lemma Elsewhere(lo: nat, hi: nat)
    requires lo <= hi <= Open.MIN_CONTAINER && (hi <= Build.BAT_AT || Build.LOG_AT <= lo)
    ensures InPlace(Image(), Runs())[lo..hi] == Image()[lo..hi]
  {
    hide Image, InPlace, Sector;
    Log.AvoidsKeeps(Image(), Runs(), lo, hi);
  }

  lemma AtTable()
    ensures InPlace(Image(), Runs())[Build.BAT_AT..Build.BAT_AT + 8] == ToLe64(Build.PRESENT)
  {
    hide Image, InPlace, Sector, ToLe64;
    var view, run := InPlace(Image(), Runs()), Run(Build.BAT_AT, Sector(), true);
    Log.OneRun(Image(), run);
    forall i | 0 <= i < 8
      ensures view[Build.BAT_AT..Build.BAT_AT + 8][i] == Sector()[0..8][i]
    {
      assert view[Build.BAT_AT + i] == Overwrite(Image(), 0, run)[Build.BAT_AT + i];
    }
  }

  lemma Opens()
    ensures Open.FromBytes(Image(), Some(Sample.Parent())) == Ok(Child())
  {
    hide Image, InPlace, Runs, Build.Shows, Build.Describes, Open.Assembled, Open.FromBytes, Bat.Entries, M.Validate;
    hide Sample.Parent, Log.ReplayRuns, Log.Trips, WellFormed, ToLe64;
    ImageShows();
    ViewShows();
    PlanFits(1);
    Build.ShowsSize(Image(), Planned(1));
    Sample.MetaValid();
    Build.OneEntryTable(Build.PRESENT);
    Replayed();
    NoTrips();
    OpensAs(Image(), Runs(), Some(Sample.Parent()));
    Build.Assembles(InPlace(Image(), Runs()), Planned(Build.PRESENT), Sample.META, Some(Sample.Parent()));
  }

  lemma NoTrips()
    ensures !Log.Trips(Runs(), SectorEnd)
  {
    hide Sector;
  }

  lemma LogFar()
    ensures LogOutside(Image())
  {
    hide Image, Planned, Build.Shows, Build.Describes, ActiveHeader, ActiveOffset, HeaderOk, HeaderAt, Build.Head;
    hide RangeOutside;
    ImageShows();
    PlanFits(1);
    Build.HeadReads(Build.LOG_GUID, Build.LOG_AT, 96 + SECTOR);
    Build.HeadersRead(Image(), Planned(1));
    Build.OutsideHere(Image(), Planned(1), Sample.META, Build.LOG_AT, Build.LOG_AT + 96 + SECTOR);
  }

  lemma RunsAvoid()
    ensures Log.Avoids(Runs(), TABLE1, I.MIN_SIZE)
  {
    hide Sector;
  }

  /** The container is one that the theorem on dirty logs speaks about. */
  lemma ImageReplays()
    ensures Replays(Image(), Runs(), Some(Sample.Parent()), Child())
  {
    hide Image, InPlace, Runs, Planned, Build.Shows, Build.Describes, Open.FromBytes, M.Validate, WellFormed, Apart;
    hide SameTable, RangeOutside, LogOutside, Log.ReplayRuns, Sample.Parent, CountsFit, Log.Avoids;
    ImageShows();
    Replayed();
    RunsAvoid();
    Opens();
    LogFar();
    Sample.ParentReads();
    Sample.MetaValid();
    Build.StandsApart(Image(), Planned(1), Sample.META);
    Build.SameTables(Image(), Planned(1), Sample.META, Child());
  }

  lemma Undefined()
    ensures I.Found(Image(), I.UndefinedBlockState(0))
  {
    hide Image, Planned, Build.Shows, Build.Describes, I.Found;
    ImageShows();
    Sample.BlockUndefined(Image(), Planned(1));
  }

  /** Replay rewrites the whole entry. */
  lemma EntryRestored()
    ensures Restored(Runs(), Open.MIN_CONTAINER, Build.BAT_AT)
  {
    hide Sector;
    assert Runs()[..0] == [];
  }

  /** The first byte of the disk is a byte of the container that nothing writes. */
  lemma FirstByte()
    ensures WellFormed(Child()) && ByteAt(Child(), 0) == Ok(0) && IndexOf(Child(), 0) == 0
    ensures Child().meta.diskSize > 0
    ensures forall a: nat :: Chain.Consults(Child(), 0, a) ==> a == 0x20_0000
  {
    hide Image, InPlace, Runs, M.Validate, M.Meta.ChunkRatio, Sample.Parent, ByteAt, IndexOf, Chain.Consults;
    Sample.MetaValid();
    Sample.ParentReads();
    Bat.ValidUsable(Sample.META);
    BlankByte();
    PresentFirst(Child());
  }

  lemma PresentFirst(d: Disk)
    requires WellFormed(d) && d.meta == Sample.META && d.entries == [Build.PRESENT]
    requires |d.view| > 0x20_0000 && d.view[0x20_0000] == 0
    ensures ByteAt(d, 0) == Ok(0) && IndexOf(d, 0) == 0
    ensures forall a: nat :: Chain.Consults(d, 0, a) ==> a == 0x20_0000
  {
    hide WellFormed, M.Validate, Div, Mod, M.Meta.ChunkRatio;
    Sample.MetaValid();
    DivUnique(0, 0x10_0000, 0, 0);
    DivUnique(0, 4096, 0, 0);
  }

  lemma BlankByte()
    ensures InPlace(Image(), Runs())[0x20_0000] == 0
  {
    hide Image, InPlace, Sector;
    BlankBefore();
    Untouched(Image(), Runs(), 0x20_0000);
  }

  lemma BlankBefore()
    ensures Image()[0x20_0000] == 0
  {
    hide Planned, Build.Container;
    PlanFits(1);
    Build.ContainerTail(Planned(1), 0x20_0000);
  }

  /** The container opened, and its byte at `v` reads as `b`. */
  predicate Reads(disk: Result<Disk>, v: nat, b: byte) {
    disk.Ok? && WellFormed(disk.value) && ByteAt(disk.value, v) == Ok(b)
  }

  /**
   Repair zeroes the entry, whatever else is reported; the repaired container opens, and the
   first byte reads as before, not as the parent's seven.
   */
  lemma ReplayRestores(issues: seq<I.Finding>)
    requires ReportsOn(Image(), issues)
    ensures Zeroed(issues, 0) && LeU64(After(Image(), issues), Build.BAT_AT) == 0
    ensures Reads(Open.FromBytes(Image(), Some(Sample.Parent())), 0, 0)
    ensures Reads(Open.FromBytes(After(Image(), issues), Some(Sample.Parent())), 0, 0)
  {
    hide Image, Runs, Child, Sample.Parent, Replays, WellFormed, ByteAt, RepairedReplayed, After, IndexOf;
    hide Open.FromBytes, LeU64, EntryKept, ReadsKept, I.ParsedLayout, Zeroed, Unwritten;
    ImageReplays();
    Opens();
    FirstByte();
    EntryZeroed(issues);
    FirstByteKept(issues);
    ReplayedByte(Image(), issues, Runs(), Some(Sample.Parent()), Child(), 0);
  }

  lemma EntryZeroed(issues: seq<I.Finding>)
    requires ReportsOn(Image(), issues)
    ensures Zeroed(issues, 0) && LeU64(After(Image(), issues), Build.BAT_AT) == 0
  {
    hide Image, I.Found, I.ParsedLayout, I.Panics, After, LeU64, EntriesClear, I.Scannable;
    var f0 := I.UndefinedBlockState(0);
    Undefined();
    assert I.Repairable(f0) && f0 in issues;
    TableSpot();
    RawAfter(Image(), issues, 0);
  }

  /** Replay restores the entry, and the byte's place is not one that repair writes. */
  lemma FirstByteKept(issues: seq<I.Finding>)
    requires ReportsOn(Image(), issues)
    ensures WellFormed(Child()) && I.ParsedLayout(Image()).Some?
    ensures EntryKept(Image(), issues, Runs(), 0) && ReadsKept(Image(), Runs(), Child(), 0)
  {
    hide Image, Runs, Child, I.ParsedLayout, WellFormed, Chain.Consults, Outside, Restored, I.Panics, I.Found, Zeroed;
    FirstByte();
    EntryRestored();
    TableSpot();
  }

  lemma TableSpot()
    ensures I.Scannable(Image()) && EntriesClear(Image()) && Outside(Image(), 0x20_0000)
    ensures I.ParsedLayout(Image()).value.bat.offset == Build.BAT_AT && I.ParsedLayout(Image()).value.Count() == 1
  {
    hide Image, Planned, Build.Shows, Build.Describes, I.ParsedLayout, EntriesClear, Outside, I.Scannable;
    ImageShows();
    PlanFits(1);
    Build.TableScanned(Image(), Planned(1), Sample.META);
    Build.EntriesFar(Image(), Planned(1), Sample.META);
    Build.OutsideHere(Image(), Planned(1), Sample.META, 0x20_0000, 0x20_0001);
  }
}
