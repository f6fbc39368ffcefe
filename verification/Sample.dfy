/**
 A differencing disk on which repair changes a decoded byte: its one block is in the undefined
 state, which reads as zero, and is repaired to the state that asks the parent.
 */
module Sample {
  import opened Bytes
  import opened Arith
  import opened Region
  import opened Disk
  import opened Repair
  import opened Fixpoint
  import opened Preserve
  import Bat
  import Build
  import I = Integrity
  import M = Metadata
  import Open

  /** A disk of one block of 1 MiB that defers to a parent. */
  const META: M.Meta := Build.ONE_BLOCK.(hasParent := true)

  function Planned(): (p: Build.Plan)
    ensures Build.Describes(p, META) && p.size == Open.MIN_CONTAINER && p.bat == ToLe64(1)
  {
    hide Build.Head, Build.Standard, Build.Describes, ToLe64;
    Build.Standard(Open.MIN_CONTAINER, Build.Head(Zeros(16), 0, 0), META, ToLe64(1), [])
  }

  function Image(): (img: seq<byte>)
    ensures |img| == Open.MIN_CONTAINER
  {
    hide Planned, Build.Container;
    Build.Container(Planned())
  }

  /** The parent: one present block of sevens. */
  function Parent(): Disk {
    Disk(Fill(0x10_0000, 7), [6], Build.ONE_BLOCK, None)
  }

  function Child(): Disk {
    Disk(Image(), [1], META, Some(Parent()))
  }

  lemma ImageShows()
    ensures Build.Shows(Image(), Planned())
  {
    hide Planned, Build.Container, Build.Shows, ToLe64;
    Build.ContainerShows(Planned());
  }

  lemma MetaValid()
    ensures M.Valid(META) && META.ChunkRatio() == 4096
  {
    hide Div, Mod, M.CountOnes;
    Build.OneBlockValid();
  }

  lemma ParentReads()
    ensures WellFormed(Parent()) && ByteAt(Parent(), 0) == Ok(7)
  {
    hide M.Validate, Div, Mod, M.Meta.ChunkRatio;
    Build.OneBlockValid();
    DivUnique(0, 0x10_0000, 0, 0);
    DivUnique(0, 4096, 0, 0);
  }

  lemma Opens()
    ensures Open.FromBytes(Image(), Some(Parent())) == Ok(Child()) && CleanLog(Image())
    ensures CountsFit(Image()) && SameTable(Image(), Child())
  {
    hide Image, CleanLog, CountsFit, SameTable, M.Validate, Build.Shows, Bat.Entries, Build.TableBlock;
    hide Open.FromBytes, Open.Assembled, Parent, Build.Head, Build.Items, WellFormed;
    var img, p := Image(), Planned();
    ImageShows();
    MetaValid();
    Build.OneEntryTable(1);
    Build.CleanRead(img, p);
    Build.ShowsSize(img, p);
    Build.SameTables(img, p, META, Child());
    Build.Assembles(img, p, META, Some(Parent()));
    CleanOpens(img, Some(Parent()));
  }

  /** The image is one that the preservation theorem speaks about. */
  lemma ImageDecodes()
    ensures Decodes(Image(), Some(Parent()), Child())
  {
    hide Image, CleanLog, CountsFit, Open.FromBytes, WellFormed, Apart, SameTable, Child, Parent, Build.Shows;
    hide RangeOutside, Build.Describes;
    ImageShows();
    Opens();
    Build.StandsApart(Image(), Planned(), META);
    ParentReads();
  }

  /** The one entry of such a container is in the undefined state, and is reported. */
  lemma BlockUndefined(img: seq<byte>, p: Build.Plan)
    requires Build.Describes(p, META) && Build.Shows(img, p) && p.bat == ToLe64(1)
    ensures I.Found(img, I.UndefinedBlockState(0))
  {
    hide I.ParsedLayout, LeU64, ToLe64, I.LogZone, I.Layout.IsBitmapSlot, Build.Shows, Build.TableBlock, Build.Items;
    Build.LayoutRead(img, p, META);
    Build.ShowsSize(img, p);
    PayloadSlot(I.ParsedLayout(img).value);
    EntryIs(img, p);
    FoundOffends(img, I.UndefinedBlockState(0));
  }

  lemma Undefined()
    ensures I.Found(Image(), I.UndefinedBlockState(0))
  {
    hide Image, Planned, Build.Shows, Build.Describes, I.Found;
    ImageShows();
    BlockUndefined(Image(), Planned());
  }

  lemma EntryIs(img: seq<byte>, p: Build.Plan)
    requires Build.Fits(p) && Build.Shows(img, p) && p.bat == ToLe64(1)
    ensures LeU64(img, Build.BAT_AT) == 1
  {
    hide ToLe64, LeU64;
    LeU64Slice(img, Build.BAT_AT, Build.BAT_AT + 8, 0);
  }

  lemma PayloadSlot(l: I.Layout)
    requires l.blockSize == Some(0x10_0000) && l.sectorSize == Some(512)
    ensures !l.IsBitmapSlot(0)
  {
    hide Div, Mod;
    DivUnique(M.SECTORS_PER_CHUNK * 512, 0x10_0000, 4096, 0);
    DivUnique(0, 4097, 0, 0);
  }

  /** The byte at `v` reads as `before`, and from the repaired image as `after`. */
  ghost predicate Changes(img: seq<byte>, issues: seq<I.Finding>, parent: Disk, d: Disk, v: nat,
                          before: byte, after: byte)
    requires ReportsOn(img, issues)
  {
    && Decodes(img, Some(parent), d)
    && WellFormed(d) && ByteAt(d, v) == Ok(before)
    && I.ParsedLayout(img).value.bat.End() <= |img|
    && WellFormed(Repaired(img, issues, d)) && ByteAt(Repaired(img, issues, d), v) == Ok(after)
  }

  /** Before repair the first byte of the disk is zero; afterwards it is the parent's seven. */
  lemma RepairShowsParent(issues: seq<I.Finding>)
    requires ReportsOn(Image(), issues)
    ensures Changes(Image(), issues, Parent(), Child(), 0, 0, 7)
  {
    hide Image, I.Found, WellFormed, ByteAt, I.ParsedLayout, Repaired, Decodes, Parent;
    ImageDecodes();
    Undefined();
    ParentReads();
    var f0 := I.UndefinedBlockState(0);
    assert I.Repairable(f0) && f0 in issues;
    Formed(Image(), issues, Some(Parent()), Child());
    FirstIndex(Child());
    RepairedByte(Image(), issues, Some(Parent()), Child(), 0);
  }

  lemma FirstIndex(d: Disk)
    requires WellFormed(d) && d.meta == META
    ensures IndexOf(d, 0) == 0
  {
    hide WellFormed, Div, M.Meta.ChunkRatio;
    MetaValid();
    DivUnique(0, 0x10_0000, 0, 0);
    DivUnique(0, 4096, 0, 0);
  }
}
