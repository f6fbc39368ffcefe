/**
 Opening a container: from owned bytes, replaying the log in place, or from a backing,
 replaying it through an overlay. Both end in the same assembly.
 */
module Open {
  import opened Bytes
  import opened Header
  import opened Replay
  import opened Backing
  import opened Log
  import opened Metadata
  import opened Region
  import opened Bat
  import opened Disk
  import opened Reader

  const MIN_CONTAINER: nat := 0x25_0000

  /** The region tables the assembly accepts: the first copy, or failing that the second. */
  function Regions(view: seq<byte>): (r: Result<RegionTable>)
    requires |view| >= MIN_CONTAINER
    ensures r.Ok? ==> r.value.bat.End() <= |view| && r.value.metadata.End() <= |view|
    ensures r != Err(Panic)
  {
    var head := view[..MIN_CONTAINER];
    var first := Table(head[TABLE1..], |view|);
    if first.Ok? then first else Table(head[TABLE2..], |view|)
  }

  /** Parsed and validated disk parameters. */
  function Parameters(region: seq<byte>): (r: Result<Meta>)
    ensures r.Ok? ==> Metadata.Valid(r.value)
    ensures r != Err(Panic)
  {
    var meta :- Parsed(region);
    var _ :- Validate(meta);
    Ok(meta)
  }

  /** The disk that a committed container describes. */
  function Assembled(view: seq<byte>, parent: Option<Disk>): (r: Result<Disk>)
    requires MIN_CONTAINER <= |view| < TWO63
    ensures r.Ok? ==> r.value.view == view && r.value.parent == parent && Metadata.Valid(r.value.meta)
    ensures r != Err(Panic)
  {
    var regions :- Regions(view);
    var meta :- Parameters(view[regions.metadata.offset..regions.metadata.End()]);
    if meta.hasParent && parent.None? then Err(DifferencingNotSupported)
    else Ok(Disk(view, Entries(view[regions.bat.offset..regions.bat.End()]), meta, parent))
  }

  function Checked(image: seq<byte>): Result<()> {
    if |image| < 8 || image[..8] != MAGIC then Err(BadMagic)
    else if |image| < MIN_CONTAINER then Err(ContainerTooSmall)
    else Ok(())
  }

  /** Opening owned bytes. */
  function FromBytes(image: seq<byte>, parent: Option<Disk>): Result<Disk>
    requires |image| < TWO63
  {
    var _ :- Checked(image);
    var after :- Applied(image);
    Assembled(after, parent)
  }

  /** Opening through a backing. */
  function FromBacking(image: seq<byte>, parent: Option<Disk>): Result<Disk>
    requires |image| < TWO63
  {
    var _ :- Checked(image);
    var h :- ActiveHeader(image[..MIN_CONTAINER]);
    var runs :- OverlayRuns(image, h);
    Assembled(Overlaid(image, 0, runs), parent)
  }

  /** The headers lie in the prefix that the bounded path reads. */
  lemma HeaderInPrefix(image: seq<byte>)
    requires |image| >= MIN_CONTAINER
    ensures ActiveHeader(image[..MIN_CONTAINER]) == ActiveHeader(image)
  {
    hide ActiveHeader, ActiveOffset;
    SliceSlice(image, 0, MIN_CONTAINER, HEADER1, HEADER1 + HEADER_SIZE);
    SliceSlice(image, 0, MIN_CONTAINER, HEADER2, HEADER2 + HEADER_SIZE);
    ActiveHeaderFrame(image[..MIN_CONTAINER], image);
  }

  /**
   The log may be replayed either way: both paths panic or neither does, and if neither, no
   sector that in-place replay would skip has the last word on a container byte.
   */
  ghost predicate EitherWay(image: seq<byte>)
    requires |image| < TWO63
  {
    var runs := ReplayRuns(image);
    runs.Ok? ==>
      && (Trips(runs.value, SectorEnd) <==> Trips(runs.value, ZeroLength))
      && (!Trips(runs.value, SectorEnd) ==> Settled(runs.value, |image|))
  }

  /** Both ways of opening fail alike or decode the same disk. */
  lemma OpenPathsAgree(image: seq<byte>, parent: Option<Disk>)
    requires |image| < TWO63 && EitherWay(image)
    ensures FromBacking(image, parent) == FromBytes(image, parent)
  {
    hide ActiveHeader, HeaderRuns, Assembled, Overlaid, InPlace, Trips, Settled;
    if Checked(image).Ok? {
      HeaderInPrefix(image);
      var runs := ReplayRuns(image);
      if runs.Ok? && !Trips(runs.value, SectorEnd) {
        SettledAgrees(image, runs.value);
      }
    }
  }

  /** Which path panics over the runs of a log: each over its own trap, and over nothing else. */
  lemma PanicsExactly(image: seq<byte>, parent: Option<Disk>)
    requires |image| < TWO63 && Checked(image).Ok? && ReplayRuns(image).Ok?
    ensures FromBytes(image, parent) == Err(Panic) <==> Trips(ReplayRuns(image).value, SectorEnd)
    ensures FromBacking(image, parent) == Err(Panic) <==> Trips(ReplayRuns(image).value, ZeroLength)
  {
    hide ActiveHeader, HeaderRuns, Assembled, Overlaid, InPlace, Trips;
    HeaderInPrefix(image);
  }

  /** A clean image needs no condition. */
  lemma CleanImagesAgree(image: seq<byte>, parent: Option<Disk>)
    requires |image| < TWO63
    requires ActiveHeader(image).Ok? ==>
               ActiveHeader(image).value.logLength == 0 || ActiveHeader(image).value.logGuid == Zeros(16)
    ensures FromBacking(image, parent) == FromBytes(image, parent)
  {
    hide ActiveHeader;
    NoTrip(SectorEnd);
    NoTrip(ZeroLength);
    OpenPathsAgree(image, parent);
  }

  // ── The methods ───────────────────────────────────────────────────────────

  ghost function ParentDisk(parent: VhdxReader?): Option<Disk> {
    if parent == null then None else Some(parent.disk)
  }

  /** What a reader opened over `backing` with this parent may move. */
  ghost predicate Footprint(reader: VhdxReader, backing: Backing, parent: VhdxReader?) {
    reader.Sources == backing.Sources() + if parent == null then {} else parent.Sources
  }

  /** A region of the committed container, read at its place and patched. */
  method ReadRegion(backing: Backing, overlay: seq<Run>, offset: u64, length: u32)
    returns (r: Result<seq<byte>>)
    requires backing.Sound()
    requires forall k :: 0 <= k < |overlay| ==> overlay[k].offset < TWO64
    modifies backing.Sources()
    ensures if offset + length <= |backing.Window()|
            then r == Ok(Overlaid(backing.Window(), 0, overlay)[offset..offset + length])
            else r == Err(OffsetOutOfBounds)
  {
    hide Overlaid;
    if backing.Len() < Min(offset + length, TWO64 - 1) {
      return Err(OffsetOutOfBounds);
    }
    var v := backing.ReadExactAt(offset, length);
    if |v| < length {
      return Err(OffsetOutOfBounds);
    }
    PatchLocality(backing.Window(), 0, overlay, offset, offset + length);
    var buf := new byte[|v|](i requires 0 <= i < |v| => v[i]);
    assert buf[0..buf.Length] == v == backing.Window()[offset..offset + length];
    assert 0 + offset == offset;
    Patch(overlay, buf, 0, buf.Length, offset);
    assert buf[0..buf.Length] == buf[..];
    return Ok(buf[..]);
  }

  method Assemble(backing: Backing, overlay: seq<Run>, parent: VhdxReader?)
    returns (r: Result<VhdxReader>)
    requires backing.Sound() && |backing.Window()| >= MIN_CONTAINER
    requires forall k :: 0 <= k < |overlay| ==> overlay[k].offset < TWO64
    requires parent != null ==> parent.Valid()
    modifies backing.Sources()
    ensures match Assembled(Overlaid(backing.Window(), 0, overlay), ParentDisk(parent))
            case Ok(d) => r.Ok? && r.value.Valid() && r.value.pos == 0 && r.value.disk == d
            case Err(e) => r == Err(e)
    ensures r.Ok? ==> fresh(r.value.Repr - if parent == null then {} else parent.Repr)
    ensures r.Ok? ==> Footprint(r.value, backing, parent)
  {
    hide Overlaid, Regions, Parameters, VhdxReader.Valid, Entries, Validate, WellFormed;
    ghost var view := Overlaid(backing.Window(), 0, overlay);
    var read := ReadRegion(backing, overlay, 0, MIN_CONTAINER);
    assert read == Ok(view[..MIN_CONTAINER]);
    var table := ReadTables(view, read.value, backing.Len());
    if table.Err? {
      return Err(table.error);
    }
    var regions := table.value;
    var metaRegion := ReadRegion(backing, overlay, regions.metadata.offset, regions.metadata.length);
    var meta := ReadParameters(metaRegion.value);
    if meta.Err? {
      return Err(meta.error);
    }
    if meta.value.hasParent && parent == null {
      return Err(DifferencingNotSupported);
    }
    var batRegion := ReadRegion(backing, overlay, regions.bat.offset, regions.bat.length);
    var bat := ParseBat(batRegion.value);
    var reader := new VhdxReader(backing, overlay, bat, meta.value, parent);
    return Ok(reader);
  }

  /** The first region table copy, or failing that the second. */
  method ReadTables(ghost view: seq<byte>, head: seq<byte>, containerLen: u64) returns (r: Result<RegionTable>)
    requires |view| == containerLen >= MIN_CONTAINER && head == view[..MIN_CONTAINER]
    ensures r == Regions(view)
  {
    hide Table;
    r := ParseRegionTable(head, TABLE1, containerLen);
    if r.Err? {
      r := ParseRegionTable(head, TABLE2, containerLen);
    }
  }

  method ReadParameters(region: seq<byte>) returns (r: Result<Meta>)
    ensures r == Parameters(region)
  {
    hide Parsed, Validate;
    r := ParseMetadata(region);
    if r.Ok? {
      var valid := Validate(r.value);
      if valid.Err? {
        return Err(valid.error);
      }
    }
  }

  /** Open owned bytes: the log is folded into the buffer before parsing. */
  method ParseBytes(data: array<byte>, parent: VhdxReader?) returns (r: Result<VhdxReader>)
    requires data.Length < TWO63 && (parent != null ==> parent.Valid())
    modifies data
    ensures match FromBytes(old(data[..]), ParentDisk(parent))
            case Ok(d) => r.Ok? && r.value.Valid() && r.value.pos == 0 && r.value.disk == d
            case Err(e) => r == Err(e)
    ensures r.Ok? ==> fresh(r.value.Repr - if parent == null then {} else parent.Repr)
    ensures r.Ok? ==> Footprint(r.value, Mem([]), parent)
  {
    hide Applied, Assembled, Overlaid, VhdxReader.Valid;
    if data.Length < 8 || data[..8] != MAGIC {
      assert data.Length >= 8 ==> data[..8] == data[..][..8];
      return Err(BadMagic);
    }
    assert data[..8] == data[..][..8];
    if data.Length < MIN_CONTAINER {
      return Err(ContainerTooSmall);
    }
    var applied := Apply(data);
    if applied.Err? {
      return Err(applied.error);
    }
    NothingOverlaid(data[..]);
    r := Assemble(Mem(data[..]), [], parent);
  }

  lemma NothingOverlaid(img: seq<byte>)
    ensures Overlaid(img, 0, []) == img
  {}

  /** Open through a backing: the log becomes an overlay on later reads. */
  method ParseBacking(backing: Backing, parent: VhdxReader?) returns (r: Result<VhdxReader>)
    requires backing.Sound() && (parent != null ==> parent.Valid())
    modifies backing.Sources()
    ensures match FromBacking(backing.Window(), ParentDisk(parent))
            case Ok(d) => r.Ok? && r.value.Valid() && r.value.pos == 0 && r.value.disk == d
            case Err(e) => r == Err(e)
    ensures r.Ok? ==> fresh(r.value.Repr - if parent == null then {} else parent.Repr)
    ensures r.Ok? ==> Footprint(r.value, backing, parent)
  {
    hide Assembled, Overlaid, VhdxReader.Valid, ActiveHeader, OverlayRuns;
    var magic := new byte[8];
    var n := backing.ReadAt(magic, 0, 8, 0);
    assert n == 8 ==> magic[..] == backing.Window()[..8];
    if n < 8 || magic[..] != MAGIC {
      return Err(BadMagic);
    }
    if backing.Len() < MIN_CONTAINER {
      return Err(ContainerTooSmall);
    }
    var head := backing.ReadExactAt(0, MIN_CONTAINER);
    assert head == backing.Window()[..MIN_CONTAINER];
    var header := ParseActiveHeader(head);
    if header.Err? {
      return Err(header.error);
    }
    var overlay := BuildOverlay(backing, header.value);
    if overlay.Err? {
      return Err(overlay.error);
    }
    r := Assemble(backing, overlay.value.runs, parent);
  }
}
