/**
 Why the fixpoint needs the block table clear of the headers: an image on which repairing one
 entry breaks a header copy, so that a second attempt has something to repair.
 */
module Overlap {
  import opened Bytes
  import opened Crc
  import opened Header
  import opened Region
  import opened Integrity
  import opened Repair
  import opened Fixpoint
  import Build
  import Open
  import Preserve

  /** Offset of the block table: inside the first header copy. */
  const BAT: nat := 0x1_0800

  function HeadParts(): seq<Build.Part> {
    [Build.Part(0, HEAD_SIGNATURE), Build.Part(2048, [1])]
  }

  /** A valid header with a one in its reserved part, where the block table lies. */
  function Head(): (h: seq<byte>)
    ensures |h| == HEADER_SIZE
  {
    Signed(Build.Paste(HEADER_SIZE, HeadParts()))
  }

  /** A block table of eight bytes at `BAT`, and no metadata. */
  function Planned(): (p: Build.Plan)
    ensures Build.Fits(p)
  {
    hide Head, Build.TableBlock;
    Build.Plan(Open.MIN_CONTAINER, Head(), Head(), Build.TableBlock(Region(BAT, 8), Region(0, 0)), [], [], [])
  }

  function Image(): (img: seq<byte>)
    ensures |img| == Open.MIN_CONTAINER
  {
    hide Build.Container;
    Build.Container(Planned())
  }

  lemma HeadBytes()
    ensures Head()[0..4] == HEAD_SIGNATURE && ChecksumOk(Head())
    ensures LeU64(Head(), 2048) == 1 && Head()[2048] == 1
    ensures forall p :: 2049 <= p < 2056 ==> Head()[p] == 0
  {
    hide Crc32c, ChecksumOk, Signed, Build.Paste;
    var parts, h := HeadParts(), Head();
    Build.SignedOk(Build.Paste(HEADER_SIZE, parts));
    Build.SignedPart(HEADER_SIZE, parts, 0);
    Build.SignedPart(HEADER_SIZE, parts, 1);
    assert h[2048] == h[2048..2049][0];
    forall p | 2049 <= p < 2056
      ensures h[p] == 0
    {
      Build.Blank(HEADER_SIZE, parts, p);
      Build.SignedSlice(Build.Paste(HEADER_SIZE, parts), p, p + 1);
      assert h[p] == h[p..p + 1][0] == Build.Paste(HEADER_SIZE, parts)[p..p + 1][0];
    }
  }

  lemma ImageShows()
    ensures Build.Shows(Image(), Planned())
  {
    hide Planned, Build.Container, Build.Shows;
    Build.ContainerShows(Planned());
  }

  lemma BlocksOk()
    ensures Readable(Image())
    ensures forall c :: BlockOk(Image(), HeaderBlock, c) && BlockOk(Image(), TableBlock, c)
  {
    hide Crc32c, Image, Head, ChecksumOk, HeaderOk, TableOk, Build.Shows, Build.TableBlock;
    var img := Image();
    ImageShows();
    HeadBytes();
    Build.ShowsSize(img, Planned());
    Build.HeadersRead(img, Planned());
    Build.TableBlockReads(Region(BAT, 8), Region(0, 0));
    Build.TablesRead(img, Planned());
    assert BlockOk(img, HeaderBlock, First) && BlockOk(img, HeaderBlock, Second);
    assert BlockOk(img, TableBlock, First) && BlockOk(img, TableBlock, Second);
  }

  function Laid(): Layout { Layout(Region(BAT, 8), Region(0, 0), None, None, None, false) }

  /** The analyser's view: everything in order but one entry in an undefined state. */
  lemma ImageLayout()
    ensures ParsedLayout(Image()) == Some(Laid())
    ensures RawEntry(Image(), Laid(), 0) == 1
  {
    hide Image, Head, LeU64, NamedRegions, Build.Shows, Build.TableBlock, Open.Regions, Preserve.CountsFit;
    ImageShows();
    Build.RegionsRead(Image(), Planned(), Region(BAT, 8), Region(0, 0));
    EntryByte();
  }

  lemma EntryByte()
    ensures LeU64(Image(), BAT) == 1
  {
    hide Image, Head, LeU64, Build.TableBlock;
    ImageShows();
    HeadBytes();
    LeU64Slice(Image(), HEADER1, HEADER1 + HEADER_SIZE, 2048);
  }

  lemma OneFix(img: seq<byte>, bat: nat, f: Finding)
    requires CanFix(|img|, Some(bat), f) && bat + 8 <= |img| && (Repairable(f) ==> f == UndefinedBlockState(0))
    ensures Fix(img, Some(bat), f) == if f == UndefinedBlockState(0) then Splice(img, bat, Zeros(8)) else img
  {
    hide Splice, Cleaned, LeU64, ToLe64, Signed;
  }

  /** The one repair. */
  lemma {:induction false} OneRepair(img: seq<byte>, bat: nat, fs: seq<Finding>)
    requires CanFixAll(|img|, Some(bat), fs) && bat + 8 <= |img|
    requires forall f :: f in fs && Repairable(f) ==> f == UndefinedBlockState(0)
    ensures FixAll(img, Some(bat), fs) == if UndefinedBlockState(0) in fs then Splice(img, bat, Zeros(8)) else img
  {
    hide Splice, CanFix, Fix, Repairable;
    if |fs| > 0 {
      var init, last := fs[..|fs| - 1], fs[|fs| - 1];
      assert fs == init + [last];
      assert last in fs;
      OneRepair(img, bat, init);
      OneFix(FixAll(img, Some(bat), init), bat, last);
      SpliceAgain(img, bat);
    }
  }

  lemma SpliceAgain(img: seq<byte>, bat: nat)
    requires bat + 8 <= |img|
    ensures Splice(Splice(img, bat, Zeros(8)), bat, Zeros(8)) == Splice(img, bat, Zeros(8))
  {}

  lemma OnlyUndefined(f: Finding)
    requires Repairable(f) && Found(Image(), f)
    ensures f == UndefinedBlockState(0)
  {
    hide Image, ParsedLayout, HeaderOk, TableOk, RawEntry, LogZone, Structural, Readable;
    BlocksOk();
    ImageLayout();
    assert BlockOk(Image(), HeaderBlock, First) && BlockOk(Image(), HeaderBlock, Second);
    assert BlockOk(Image(), TableBlock, First) && BlockOk(Image(), TableBlock, Second);
  }

  lemma Undefined()
    ensures Found(Image(), UndefinedBlockState(0))
  {
    hide Image, ParsedLayout, RawEntry, LogZone, Structural, BlockOk;
    BlocksOk();
    ImageLayout();
  }

  lemma NotApart()
    ensures !Apart(Image())
  {
    hide Image, ParsedLayout, LayoutOutside, BlockOk, Found, EntryClear, Mismatch;
    BlocksOk();
    ImageLayout();
    Undefined();
    InsideHeader();
    assert !EntryApart(Image(), 0, ParsedLayout(Image()).value.bat.offset + 0 * 8);
  }

  lemma InsideHeader()
    ensures !EntryClear(BAT)
  {
    assert !(BAT + 8 <= Place(HeaderBlock, First) || Place(HeaderBlock, First) + Size(HeaderBlock) <= BAT);
  }

  /**
   Repairing this image, whatever else is reported of it, leaves a header copy whose checksum
   fails: a second attempt finds a repair to make.
   */
  lemma SecondRepairNeeded(issues: seq<Finding>)
    requires ReportsOn(Image(), issues)
    ensures !Apart(Image())
    ensures Found(After(Image(), issues), HeaderChecksumMismatch(First))
  {
    hide Found, FixAll, CanFix, ParsedLayout, Image, RawEntry, BlockOk, Apart, Panics;
    var img, f0 := Image(), UndefinedBlockState(0);
    NotApart();
    ImageLayout();
    Undefined();
    assert f0 in issues by {
      assert Repairable(f0);
    }
    forall f | f in issues && Repairable(f)
      ensures f == f0
    {
      OnlyUndefined(f);
    }
    ReportedCanFix(img, issues);
    OneRepair(img, BAT, issues);
    BrokenHeader(After(img, issues));
  }

  lemma SpliceElsewhere(b: seq<byte>, at: nat, x: seq<byte>, lo: nat, hi: nat)
    requires at + |x| <= |b| && lo <= hi <= |b| && (hi <= at || at + |x| <= lo)
    ensures Splice(b, at, x)[lo..hi] == b[lo..hi]
  {}

  lemma BrokenHeader(r: seq<byte>)
    requires r == Splice(Image(), BAT, Zeros(8))
    ensures Found(r, HeaderChecksumMismatch(First))
  {
    hide Image, Head, Splice, Crc32c, HeaderOk, ChecksumOk, TableOk, ParsedLayout;
    var img := Image();
    BlocksOk();
    SpliceElsewhere(img, BAT, Zeros(8), HEADER2, HEADER2 + HEADER_SIZE);
    SpliceElsewhere(img, BAT, Zeros(8), 0, 8);
    assert r[..8] == r[0..8] && img[..8] == img[0..8];
    HeaderSlotFrame(r, img, HEADER2, HEADER2);
    assert BlockOk(img, HeaderBlock, Second);
    ImageHeader();
    ChangedHeader(img, r);
  }

  lemma ImageHeader()
    ensures Image()[HEADER1..HEADER1 + HEADER_SIZE] == Head()
  {
    hide Image, Head, Build.TableBlock;
    ImageShows();
  }

  lemma ChangedHeader(img: seq<byte>, r: seq<byte>)
    requires HEADER2 <= |img| == |r| && r == Splice(img, BAT, Zeros(8))
    requires img[HEADER1..HEADER1 + HEADER_SIZE] == Head()
    ensures !HeaderOk(r, HEADER1)
  {
    hide Head, Splice, Crc32c, ChecksumOk;
    HeadBytes();
    var x, y := Head(), r[HEADER1..HEADER1 + HEADER_SIZE];
    forall p | 0 <= p < HEADER_SIZE && !(2048 <= p < 2052)
      ensures x[p] == y[p]
    {
      assert x[p] == img[HEADER1..HEADER1 + HEADER_SIZE][p] == img[HEADER1 + p];
      if 2052 <= p < 2056 {
        assert r[HEADER1 + p] == r[BAT..BAT + 8][p - 2048] == 0;
      }
    }
    assert y[2048] == r[BAT..BAT + 8][0] == 0;
    ChangeDetected(x, y, 2048);
  }
}
