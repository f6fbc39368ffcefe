/**
 A container whose two headers differ: the second is newer and names a log of one entry with two
 sectors. Both ways of opening follow the newer header and write each sector at its own place.
 */
module Newest {
  import opened Bytes
  import opened Header
  import opened Replay
  import opened Disk
  import opened Log
  import opened Open
  import Bat
  import Build
  import Divergence
  import Format
  import LogFormat
  import Metadata

  function Descriptors(): (d: seq<byte>)
    ensures |d| == 64
    ensures d[0..32] == Build.DataDescriptor(0x20_0000) && d[32..64] == Build.DataDescriptor(0x20_1000)
  {
    Build.DataDescriptor(0x20_0000) + Build.DataDescriptor(0x20_1000)
  }

  function Sectors(): (s: seq<byte>)
    ensures |s| == 0x2000 && s[0..0x1000] == Fill(0x1000, 1) && s[0x1000..0x2000] == Fill(0x1000, 2)
  {
    Fill(0x1000, 1) + Fill(0x1000, 2)
  }

  function Entry(): (e: seq<byte>)
    ensures |e| == 64 + 32 * 2 + 4096 * 2
  {
    hide Descriptors, Sectors, Build.LogEntry;
    Build.LogEntry(Descriptors(), Sectors(), 2)
  }

  function Stale(): seq<byte> { Build.Head(Zeros(16), 0, 0, 5) }

  function Fresh(): seq<byte> { Build.Head(Build.LOG_GUID, Build.LOG_AT, 64 + 32 * 2 + 4096 * 2, 6) }

  function Planned(): (p: Build.Plan)
    ensures Build.Describes(p, Build.ONE_BLOCK) && p.size == MIN_CONTAINER
    ensures p.first == Stale() && p.head == Fresh() && p.bat == ToLe64(Build.PRESENT) && p.log == Entry()
  {
    hide Build.Head, Build.Standard, ToLe64, Entry, Build.Items, Build.TableBlock;
    Build.Standard(MIN_CONTAINER, Fresh(), Build.ONE_BLOCK, ToLe64(Build.PRESENT), Entry()).(first := Stale())
  }

  function Image(): (img: seq<byte>)
    ensures |img| == MIN_CONTAINER
  {
    hide Planned, Build.Container;
    Build.Container(Planned())
  }

  function Runs(): seq<Run> {
    [Run(0x20_0000, Fill(0x1000, 1), true), Run(0x20_1000, Fill(0x1000, 2), true)]
  }

  lemma ImageShows()
    ensures Build.Fits(Planned()) && Build.Shows(Image(), Planned())
  {
    hide Planned, Build.Container, Build.Shows, ToLe64, Build.Items, Build.TableBlock;
    Build.ContainerShows(Planned());
  }

  /** The second header is the newer one. */
  lemma HeadsDiffer()
    ensures Build.Fits(Planned()) && Build.HeadsOk(Planned())
  {
    hide Planned, Build.Head, LeU64, LeU32, ChecksumOk, Build.Items, Build.TableBlock, ToLe64, Guid;
    Build.HeadReads(Zeros(16), 0, 0, 5);
    Build.HeadReads(Build.LOG_GUID, Build.LOG_AT, 64 + 32 * 2 + 4096 * 2, 6);
    Build.SequenceIs(Stale(), 0);
    Build.SequenceIs(Fresh(), 0);
  }

  lemma EntryWrites()
    ensures EntryRuns(Entry()) == Runs() && TableFits(Entry())
    ensures EntryFits(Entry(), 0) && EntryLength(Entry(), 0) == |Entry()| && Replayable(Entry(), Build.LOG_GUID)
  {
    hide Build.LogEntry, Build.DataDescriptor, Descriptors, Sectors, EntryRuns, Replayable, EntryFits, LeU32, LeU64;
    hide ToLe64;
    var e := Entry();
    Build.LogEntryReads(Descriptors(), Sectors(), 2);
    EntrySlices(e);
    LogFormat.DataEntry(e, 2);
    assert EntryRuns(e) == [EntryRuns(e)[0], EntryRuns(e)[1]];
  }

  lemma EntrySlices(e: seq<byte>)
    requires |e| == 64 + 32 * 2 + 4096 * 2 && e[64..128] == Descriptors() && e[128..128 + 0x2000] == Sectors()
    ensures e[64..68] == e[96..100] == [0x64, 0x65, 0x73, 0x63]
    ensures LeU64(e, 88) == 0x20_0000 && LeU64(e, 120) == 0x20_1000
    ensures e[128..128 + 4096] == Fill(0x1000, 1) && e[128 + 4096..128 + 4096 * 2] == Fill(0x1000, 2)
  {
    hide LeU64, ToLe64, Build.DataDescriptor, Descriptors, Sectors;
    SliceSlice(e, 64, 128, 0, 32);
    SliceSlice(e, 64, 128, 32, 64);
    DescriptorAt(e, 64, 0x20_0000);
    DescriptorAt(e, 96, 0x20_1000);
    SliceSlice(e, 128, 128 + 0x2000, 0, 0x1000);
    SliceSlice(e, 128, 128 + 0x2000, 0x1000, 0x2000);
  }

  lemma DescriptorAt(e: seq<byte>, at: nat, offset: u64)
    requires at + 32 <= |e| && e[at..at + 32] == Build.DataDescriptor(offset)
    ensures e[at..at + 4] == [0x64, 0x65, 0x73, 0x63] && LeU64(e, at + 24) == offset
  {
    hide LeU64, ToLe64, Build.DataDescriptor;
    SliceSlice(e, at, at + 32, 0, 4);
    SliceSlice(e, at, at + 32, 24, 32);
    LeU64Slice(e, at + 24, at + 32, 0);
  }

  lemma Replayed()
    ensures ReplayRuns(Image()) == Ok(Runs())
  {
    var sequence: u64 := 6;
    hide *;
    ImageShows();
    HeadsDiffer();
    EntryWrites();
    FreshIs();
    Build.OneEntryRuns(Image(), Planned(), sequence);
  }

  lemma FreshIs()
    ensures |Entry()| == 64 + 32 * 2 + 4096 * 2 && Planned().log == Entry()
    ensures Planned().head == Build.Head(Build.LOG_GUID, Build.LOG_AT, |Entry()|, 6)
  {
    hide Entry, Planned, Build.Head, Build.Items, Build.TableBlock, ToLe64;
  }

  /** Both replays write the two sectors and nothing else. */
  lemma Views()
    ensures Overlaid(Image(), 0, Runs()) == InPlace(Image(), Runs())
    ensures !Trips(Runs(), SectorEnd) && !Trips(Runs(), ZeroLength)
  {
    hide Image, Overlaid, InPlace;
    NoneStraddlesSettled(Runs(), MIN_CONTAINER);
    SettledAgrees(Image(), Runs());
  }

  lemma Elsewhere(lo: nat, hi: nat)
    requires lo <= hi <= 0x20_0000
    ensures InPlace(Image(), Runs())[lo..hi] == Image()[lo..hi]
  {
    hide Image, InPlace;
    AvoidsKeeps(Image(), Runs(), lo, hi);
  }

  lemma ViewShows()
    ensures Build.Fits(Planned()) && Build.Shows(InPlace(Image(), Runs()), Planned())
  {
    hide Image, Planned, InPlace, Runs, ToLe64, Entry, Build.Head, Build.Items, Build.TableBlock;
    ImageShows();
    Elsewhere(0, 8);
    Elsewhere(HEADER1, HEADER1 + HEADER_SIZE);
    Elsewhere(HEADER2, HEADER2 + HEADER_SIZE);
    Elsewhere(TABLE1, TABLE1 + TABLE_SIZE);
    Elsewhere(TABLE2, TABLE2 + TABLE_SIZE);
    Elsewhere(Build.ITEMS_AT, Build.ITEMS_AT + |Planned().items|);
    Elsewhere(Build.BAT_AT, Build.BAT_AT + |Planned().bat|);
    Elsewhere(Build.LOG_AT, Build.LOG_AT + |Planned().log|);
  }

  function Decoded(): Disk { Disk(InPlace(Image(), Runs()), [Build.PRESENT], Build.ONE_BLOCK, None) }

  lemma ImageChecked()
    ensures Checked(Image()).Ok? && MIN_CONTAINER <= |Image()| < TWO63
  {
    hide Image, Planned, Build.Shows, Build.Fits;
    ImageShows();
    Build.ShowsSize(Image(), Planned());
  }

  lemma ViewAssembles()
    ensures Assembled(InPlace(Image(), Runs()), None) == Ok(Decoded())
  {
    hide Image, InPlace, Runs, Planned, Build.Shows, Build.Describes, Assembled, Bat.Entries, ToLe64;
    hide Metadata.Validate;
    ViewShows();
    Build.OneBlockValid();
    Build.OneEntryTable(Build.PRESENT);
    Build.Assembles(InPlace(Image(), Runs()), Planned(), Build.ONE_BLOCK, None);
  }

  lemma Opened()
    ensures FromBytes(Image(), None) == Ok(Decoded()) && FromBacking(Image(), None) == Ok(Decoded())
  {
    hide *;
    ImageChecked();
    ViewAssembles();
    Replayed();
    Views();
    Divergence.OpenedAs(Image(), Runs());
  }

  lemma SectorBytes()
    ensures InPlace(Image(), Runs())[0x20_0000] == 1 && InPlace(Image(), Runs())[0x20_1000] == 2
  {
    hide Image, InPlace;
    InPlaceNormalForm(Image(), Runs(), 0x20_0000);
    InPlaceNormalForm(Image(), Runs(), 0x20_1000);
    assert Runs()[0].Covers(0x20_0000) && Runs()[1].Covers(0x20_1000);
  }

  /** Whichever way it is opened, the two sectors read as the newer header's log left them. */
  lemma NewestHeaderWins()
    ensures FromBytes(Image(), None).Ok? && FromBacking(Image(), None) == FromBytes(Image(), None)
    ensures var d := FromBytes(Image(), None).value;
            WellFormed(d) && ByteAt(d, 0) == Ok(1) && ByteAt(d, 0x1000) == Ok(2)
  {
    hide Image, InPlace, Runs, Metadata.Validate, ByteAt, FromBytes, FromBacking, Bat.Usable, Format.SpotOf;
    Opened();
    SectorBytes();
    Build.OneBlockValid();
    var d := Decoded();
    assert WellFormed(d);
    FirstSpots();
    Format.ByteRule(d, 0, 4096, Format.Spot(0, 0, 0, 0, 0));
    Format.ByteRule(d, 0x1000, 4096, Format.Spot(0, 0x1000, 0, 0, 8));
  }

  lemma FirstSpots()
    ensures Format.SpotOf(Build.ONE_BLOCK, 0, 4096, Format.Spot(0, 0, 0, 0, 0))
    ensures Format.SpotOf(Build.ONE_BLOCK, 0x1000, 4096, Format.Spot(0, 0x1000, 0, 0, 8))
  {}
}
