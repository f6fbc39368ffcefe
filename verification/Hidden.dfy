/**
 Two containers whose metadata items the analyser misjudges: overlapping items that one order of
 the sort hides, and items apart of which an overlap is reported.
 */
module Hidden {
  import opened Bytes
  import opened Orders
  import opened Region
  import opened Sweeps
  import Build
  import I = Integrity
  import M = Metadata
  import Open
  import Preserve

  /** Where one item stands in the metadata region. */
  datatype Extent = Extent(at: u32, length: u32)

  function ItemParts(a: Extent, b: Extent, c: Extent): seq<Build.Part> {
    [Build.Part(0, M.METADATA_SIGNATURE), Build.Part(10, [3]),
     Build.Part(32, Build.Item(M.FILE_PARAMETERS, a.at, a.length)),
     Build.Part(64, Build.Item(M.VIRTUAL_DISK_SIZE, b.at, b.length)),
     Build.Part(96, Build.Item(M.LOGICAL_SECTOR_SIZE, c.at, c.length))]
  }

  /** A metadata region of three items. */
  function Items(a: Extent, b: Extent, c: Extent): (r: seq<byte>)
    ensures |r| == Build.ITEMS_SIZE
  {
    Build.Paste(Build.ITEMS_SIZE, ItemParts(a, b, c))
  }

  function Planned(a: Extent, b: Extent, c: Extent): (p: Build.Plan)
    ensures Build.Fits(p) && p.size == Open.MIN_CONTAINER
  {
    hide Build.Head, Build.TableBlock, Items;
    Build.Plan(Open.MIN_CONTAINER, Build.Head(Zeros(16), 0, 0), Build.Head(Zeros(16), 0, 0),
               Build.TableBlock(Region(Build.BAT_AT, 0), Region(Build.ITEMS_AT, Build.ITEMS_SIZE)),
               Items(a, b, c), [], [])
  }

  function Image(a: Extent, b: Extent, c: Extent): (img: seq<byte>)
    ensures |img| == Open.MIN_CONTAINER
  {
    hide Planned, Build.Container;
    Build.Container(Planned(a, b, c))
  }

  lemma ItemsRead(a: Extent, b: Extent, c: Extent)
    ensures var r := Items(a, b, c);
            && r[0..8] == M.METADATA_SIGNATURE && LeU16(r, 10) == 3
            && LeU32(r, 48) == a.at && LeU32(r, 52) == a.length
            && LeU32(r, 80) == b.at && LeU32(r, 84) == b.length
            && LeU32(r, 112) == c.at && LeU32(r, 116) == c.length
  {
    hide Build.Paste, Build.Item, LeU32, ToLe32;
    var n, parts, r := Build.ITEMS_SIZE, ItemParts(a, b, c), Items(a, b, c);
    Build.Pasted(n, parts, 0);
    Build.PastedByte(n, parts, 1, 0);
    Build.Blank(n, parts, 11);
    Build.Pasted(n, parts, 2);
    Build.Pasted(n, parts, 3);
    Build.Pasted(n, parts, 4);
    Build.ItemReads(r, 32, M.FILE_PARAMETERS, a.at, a.length);
    Build.ItemReads(r, 64, M.VIRTUAL_DISK_SIZE, b.at, b.length);
    Build.ItemReads(r, 96, M.LOGICAL_SECTOR_SIZE, c.at, c.length);
  }

  function Range(e: Extent): Keyed { Keyed(e.at, Min(e.at + e.length, TWO32 - 1)) }

  lemma Ranges(a: Extent, b: Extent, c: Extent)
    ensures ItemRanges(Items(a, b, c)) == [Range(a), Range(b), Range(c)]
  {
    hide Items, LeU16, LeU32;
    ItemsRead(a, b, c);
    var r := Items(a, b, c);
    assert ItemRange(r, 0) == Range(a) && ItemRange(r, 1) == Range(b) && ItemRange(r, 2) == Range(c);
  }

  lemma ImageShows(a: Extent, b: Extent, c: Extent)
    ensures Build.Shows(Image(a, b, c), Planned(a, b, c))
  {
    hide Planned, Build.Container, Build.Shows;
    Build.ContainerShows(Planned(a, b, c));
  }

  /** What the analyser sweeps. */
  lemma Swept(a: Extent, b: Extent, c: Extent)
    ensures I.SweepsItems(Image(a, b, c)) && I.SweptItems(Image(a, b, c)) == [Range(a), Range(b), Range(c)]
  {
    hide Image, Items, Build.Head, Build.TableBlock, Build.Shows, ItemRanges, LeU16, LeU32, I.NamedRegions, I.TableOk;
    hide Open.Regions, Preserve.CountsFit, Range;
    var img, p, md := Image(a, b, c), Planned(a, b, c), Region(Build.ITEMS_AT, Build.ITEMS_SIZE);
    ImageShows(a, b, c);
    Build.ShowsSize(img, p);
    Build.TableBlockReads(Region(Build.BAT_AT, 0), md);
    Build.TablesRead(img, p);
    Build.RegionsRead(img, p, Region(Build.BAT_AT, 0), md);
    RegionShows(a, b, c);
    Ranges(a, b, c);
  }

  lemma RegionShows(a: Extent, b: Extent, c: Extent)
    ensures var img := Image(a, b, c);
            && img[Build.ITEMS_AT..Build.ITEMS_AT + Build.ITEMS_SIZE] == Items(a, b, c)
            && I.HasItems(img, Region(Build.ITEMS_AT, Build.ITEMS_SIZE))
  {
    hide Image, Items, Build.Head, Build.TableBlock, LeU32, LeU16;
    ImageShows(a, b, c);
    ItemsRead(a, b, c);
    SliceSlice(Image(a, b, c), Build.ITEMS_AT, Build.ITEMS_AT + Build.ITEMS_SIZE, 0, 8);
  }

  // ── An overlap that one order hides ───────────────────────────────────────

  const OUTER: Extent := Extent(0x800, 16)
  const EMPTY: Extent := Extent(0x800, 0)
  const INNER: Extent := Extent(0x804, 4)

  /**
   Of this container's items two share bytes, and an empty one stands between them in one of the
   orders that the sort may leave: in that order no overlap is reported.
   */
  lemma EmptyRangeHides(blocks: seq<Keyed>)
    ensures var img := Image(OUTER, EMPTY, INNER);
            && I.SweepsItems(img) && SomeShare(I.SweptItems(img))
            && I.MayMissOverlap(img, blocks) && I.MayReportOverlap(img, blocks)
  {
    hide Image, I.SweepsItems, I.SweptItems, I.MayMissOverlap, I.MayReportOverlap, SomeShare, AllPass, SomeStartsInside;
    hide Trusted, I.OverlapsJudged;
    Swept(OUTER, EMPTY, INNER);
    I.OverlapFoundExactly(Image(OUTER, EMPTY, INNER), blocks);
    TwoShare();
    GroupsPass();
  }

  lemma TwoShare()
    ensures SomeShare([Range(OUTER), Range(EMPTY), Range(INNER)])
  {
    hide Share;
    var rs := [Range(OUTER), Range(EMPTY), Range(INNER)];
    ShareExactly(rs[0], rs[2]);
  }

  /** The empty range can follow the outer one, and the inner one ends the list. */
  lemma GroupsPass()
    ensures AllPass([Range(OUTER), Range(EMPTY), Range(INNER)])
  {
    var rs := [Range(OUTER), Range(EMPTY), Range(INNER)];
    Picked(rs[0], rs[1], rs[2], 0x800);
    Picked(rs[0], rs[1], rs[2], 0x804);
    hide Pick;
    assert EndsBy(rs, rs[2], 0x804);
  }

  lemma Picked(a: Keyed, b: Keyed, c: Keyed, k: nat)
    ensures forall full :: Pick([a, b, c], k, full) == Kept(a, k, full) + Kept(b, k, full) + Kept(c, k, full)
  {
    forall full
      ensures Pick([a, b, c], k, full) == Kept(a, k, full) + Kept(b, k, full) + Kept(c, k, full)
    {
      assert [a, b, c] == [] + [a] + [b] + [c];
      PickAppend([], a, k, full);
      PickAppend([] + [a], b, k, full);
      PickAppend([] + [a] + [b], c, k, full);
    }
  }

  function Kept(p: Keyed, k: nat, full: bool): seq<Keyed> {
    if p.key == k && (p.key < p.value) == full then [p] else []
  }

  // ── An overlap that is none ───────────────────────────────────────────────

  const POINT: Extent := Extent(0x804, 0)
  const APART: Extent := Extent(0x900, 4)

  /** No two items of this container share a byte; an empty one inside another is reported. */
  lemma EmptyRangeReported(blocks: seq<Keyed>)
    ensures var img := Image(OUTER, POINT, APART);
            && I.SweepsItems(img) && !SomeShare(I.SweptItems(img)) && I.MayReportOverlap(img, blocks)
  {
    hide Image, I.SweepsItems, I.SweptItems, I.MayMissOverlap, I.MayReportOverlap, SomeShare, AllPass, SomeStartsInside;
    hide Trusted, I.OverlapsJudged;
    Swept(OUTER, POINT, APART);
    I.OverlapFoundExactly(Image(OUTER, POINT, APART), blocks);
    PointInside();
    NoneShare();
  }

  lemma PointInside()
    ensures SomeStartsInside([Range(OUTER), Range(POINT), Range(APART)])
  {
    var rs := [Range(OUTER), Range(POINT), Range(APART)];
    assert StartsInside(rs[1], rs[0]);
  }

  lemma NoneShare()
    ensures !SomeShare([Range(OUTER), Range(POINT), Range(APART)])
  {
    hide Share;
    var rs := [Range(OUTER), Range(POINT), Range(APART)];
    forall i, j | 0 <= i < 3 && 0 <= j < 3 && i != j
      ensures !Share(rs[i], rs[j])
    {
      ShareExactly(rs[i], rs[j]);
    }
  }
}
