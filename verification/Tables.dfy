/** The region table and the metadata table in plain arithmetic on their bytes. */
module Tables {
  import opened Bytes
  import opened Crc
  import opened Header
  import opened Region
  import opened Metadata
  import Disk
  import I = Integrity
  import Open
  import Sweeps

  // ── The region table ──────────────────────────────────────────────────────

  /** Entry `i` of a region table carries the identifier `guid`. */
  predicate Named(t: seq<byte>, i: nat, guid: seq<byte>) {
    |guid| == 16 && 16 + 32 * i + 32 <= |t| && t[16 + 32 * i..16 + 32 * i + 16] == guid
  }

  /** The region that entry `i` describes. */
  function Described(t: seq<byte>, i: nat): Region { Region(LeU64(t, 16 + 32 * i + 16), LeU32(t, 16 + 32 * i + 24)) }

  lemma EntryNamed(t: seq<byte>, i: nat, guid: seq<byte>)
    requires |guid| == 16 && 16 + 32 * i + 32 <= |t|
    ensures EntryGuid(t, i) == guid <==> Named(t, i, guid)
    ensures EntryRegion(t, i) == Described(t, i)
  {
    hide LeU32, LeU64;
    assert 16 + i * 32 == 16 + 32 * i;
  }

  /** Of several entries with one identifier the last counts. */
  lemma {:induction false} LastNamed(t: seq<byte>, n: nat, guid: seq<byte>, k: nat)
    requires |guid| == 16 && 16 + 32 * n <= |t| && k < n && Named(t, k, guid)
    requires forall i :: k < i < n ==> !Named(t, i, guid)
    ensures LastRegion(t, n, guid) == Some(Described(t, k))
  {
    hide Named, Described, EntryGuid, EntryRegion;
    EntryNamed(t, n - 1, guid);
    if k < n - 1 {
      LastNamed(t, n - 1, guid, k);
    }
  }

  lemma {:induction false} NoneNamed(t: seq<byte>, n: nat, guid: seq<byte>)
    requires |guid| == 16 && 16 + 32 * n <= |t| && forall i :: 0 <= i < n ==> !Named(t, i, guid)
    ensures LastRegion(t, n, guid) == None
  {
    hide Named, Described, EntryGuid, EntryRegion;
    if n > 0 {
      EntryNamed(t, n - 1, guid);
      NoneNamed(t, n - 1, guid);
    }
  }

  /** `n` entries are visited: as many as declared, at most 2048, and only whole ones. */
  predicate Entries(t: seq<byte>, n: nat) {
    && n <= LeU32(t, 8) && n <= 2048 && 16 + 32 * n <= |t|
    && (n == LeU32(t, 8) || n == 2048 || |t| < 16 + 32 * (n + 1))
  }

  lemma VisitedExactly(t: seq<byte>, n: nat)
    requires |t| >= 16
    ensures Entries(t, n) <==> n == Visited(t)
  {
    hide LeU32;
  }

  /** A table of at least 64 KiB whose signature and checksum are right. */
  predicate Verified(t: seq<byte>) {
    && |t| >= 0x1_0000 && t[..4] == [0x72, 0x65, 0x67, 0x69]
    && Crc32c(t[..4] + [0, 0, 0, 0] + t[8..0x1_0000]) == LeU32(t, 4)
  }

  lemma VerifiedCovers(t: seq<byte>)
    requires |t| >= 0x1_0000
    ensures Verified(t) <==> t[..4] == TABLE_SIGNATURE && Crc32c(Unsigned(Covered(t))) == LeU32(t, 4)
  {
    hide Crc32c, LeU32;
    assert Unsigned(Covered(t)) == t[..4] + [0, 0, 0, 0] + t[8..0x1_0000];
  }

  lemma InsideExactly(t: seq<byte>, n: nat, len: nat)
    ensures AllInside(t, n, len) <==> forall i :: 0 <= i < n ==> Described(t, i).offset + Described(t, i).length <= len
  {
    hide LeU32, LeU64;
    assert forall i: nat :: 16 + i * 32 == 16 + 32 * i;
    forall i | 0 <= i < n
      ensures EntryRegion(t, i) == Described(t, i)
    {
      assert 16 + i * 32 == 16 + 32 * i;
    }
  }

  /** `k` is the last of `n` entries with the identifier `guid`. */
  predicate LastOf(t: seq<byte>, n: nat, guid: seq<byte>, k: nat) {
    k < n && Named(t, k, guid) && forall i :: k < i < n ==> !Named(t, i, guid)
  }

  lemma {:induction false} LastExists(t: seq<byte>, n: nat, guid: seq<byte>) returns (k: nat)
    requires |guid| == 16 && 16 + 32 * n <= |t| && LastRegion(t, n, guid).Some?
    ensures LastOf(t, n, guid, k)
  {
    hide Named, EntryGuid, EntryRegion;
    if n > 0 {
      EntryNamed(t, n - 1, guid);
      if Named(t, n - 1, guid) {
        k := n - 1;
      } else {
        k := LastExists(t, n - 1, guid);
      }
    }
  }

  /** Every region that a verified table describes lies in the container. */
  predicate RegionsFit(t: seq<byte>, n: nat, len: nat) {
    forall i :: 0 <= i < n ==> Described(t, i).offset + Described(t, i).length <= len
  }

  /** What the reader takes from a table of at least 64 KiB: the regions of two last entries. */
  lemma TableExactly(t: seq<byte>, len: nat, n: nat, b: nat, m: nat)
    requires |t| >= 0x1_0000 && Entries(t, n)
    ensures !Verified(t) ==> Table(t, len) == Err(InvalidRegionTable)
    ensures Verified(t) && !RegionsFit(t, n, len) ==> Table(t, len) == Err(OffsetOutOfBounds)
    ensures Verified(t) && RegionsFit(t, n, len) && LastOf(t, n, BAT_GUID, b) && LastOf(t, n, METADATA_GUID, m) ==>
              Table(t, len) == Ok(RegionTable(Described(t, b), Described(t, m)))
    ensures Table(t, len).Ok? ==>
              exists b, m :: LastOf(t, n, BAT_GUID, b) && LastOf(t, n, METADATA_GUID, m)
  {
    hide Crc32c, LeU32, LeU64, Named, Described, AllInside, LastRegion, Visited, Unsigned, Covered, Verified;
    VerifiedCovers(t);
    VisitedExactly(t, n);
    InsideExactly(t, n, len);
    if LastOf(t, n, BAT_GUID, b) {
      LastNamed(t, n, BAT_GUID, b);
    }
    if LastOf(t, n, METADATA_GUID, m) {
      LastNamed(t, n, METADATA_GUID, m);
    }
    if Table(t, len).Ok? {
      var x := LastExists(t, n, BAT_GUID);
      var y := LastExists(t, n, METADATA_GUID);
    }
  }

  // ── The metadata table ────────────────────────────────────────────────────

  /** Entry `i` of a metadata table is item `guid` with at least `need` bytes, all in the region `r`. */
  predicate Item(r: seq<byte>, i: nat, guid: seq<byte>, need: nat) {
    && |guid| == 16 && 32 + 32 * i + 32 <= |r| && r[32 + 32 * i..32 + 32 * i + 16] == guid
    && LeU32(r, 32 + 32 * i + 16) + LeU32(r, 32 + 32 * i + 20) <= |r| && LeU32(r, 32 + 32 * i + 20) >= need
  }

  lemma ItemIs(r: seq<byte>, i: nat, guid: seq<byte>, need: nat)
    requires |guid| == 16
    ensures ItemHere(r, i, guid, need) <==> Item(r, i, guid, need)
  {
    hide LeU32;
    assert 32 + i * 32 == 32 + 32 * i;
  }

  predicate LastItemOf(r: seq<byte>, n: nat, guid: seq<byte>, need: nat, k: nat) {
    k < n && Item(r, k, guid, need) && forall i :: k < i < n ==> !Item(r, i, guid, need)
  }

  lemma {:induction false} LastItemIs(r: seq<byte>, n: nat, guid: seq<byte>, need: nat, k: nat)
    requires |guid| == 16
    ensures LastItemOf(r, n, guid, need, k) ==> LastItem(r, n, guid, need) == Some(LeU32(r, 32 + 32 * k + 16))
    ensures (forall i :: 0 <= i < n ==> !Item(r, i, guid, need)) ==> LastItem(r, n, guid, need) == None
  {
    hide ItemHere, Item, LeU32;
    if n > 0 {
      ItemIs(r, n - 1, guid, need);
      LastItemIs(r, n - 1, guid, need, k);
    }
  }

  /** Either identifier of the virtual disk size. */
  predicate SizeItem(r: seq<byte>, i: nat) {
    Item(r, i, VIRTUAL_DISK_SIZE, 8) || Item(r, i, VIRTUAL_DISK_SIZE_QEMU, 8)
  }

  lemma SizeIs(r: seq<byte>, i: nat)
    ensures SizeItem(r, i) <==> ItemHere(r, i, VIRTUAL_DISK_SIZE, 8) || ItemHere(r, i, VIRTUAL_DISK_SIZE_QEMU, 8)
  {
    hide ItemHere, Item;
    ItemIs(r, i, VIRTUAL_DISK_SIZE, 8);
    ItemIs(r, i, VIRTUAL_DISK_SIZE_QEMU, 8);
  }

  lemma {:induction false} LastSizeIs(r: seq<byte>, n: nat, k: nat)
    ensures k < n && SizeItem(r, k) && (forall i :: k < i < n ==> !SizeItem(r, i)) ==>
              LastSize(r, n) == Some(LeU32(r, 32 + 32 * k + 16))
    ensures (forall i :: 0 <= i < n ==> !SizeItem(r, i)) ==> LastSize(r, n) == None
  {
    hide ItemHere, SizeItem, LeU32;
    if n > 0 {
      SizeIs(r, n - 1);
      LastSizeIs(r, n - 1, k);
    }
  }

  /** A metadata region that starts with its signature and declares `n` items. */
  predicate Declares(r: seq<byte>, n: nat) {
    && |r| >= 12 && r[..8] == [0x6D, 0x65, 0x74, 0x61, 0x64, 0x61, 0x74, 0x61]
    && n == r[10] as int + 0x100 * r[11] as int
  }

  /** Parameters are those of the last items: block size and parent bit, disk size, and sector size or 512. */
  lemma ParametersExactly(r: seq<byte>, n: nat, f: nat, s: nat, z: nat)
    requires Declares(r, n) && LastItemOf(r, n, FILE_PARAMETERS, 8, f)
    requires s < n && SizeItem(r, s) && forall i :: s < i < n ==> !SizeItem(r, i)
    ensures var at, size := LeU32(r, 32 + 32 * f + 16), LeU64(r, LeU32(r, 32 + 32 * s + 16));
            var parent := LeU32(r, at + 4) / 2 % 2 == 1;
            && (LastItemOf(r, n, LOGICAL_SECTOR_SIZE, 4, z) ==>
                  Parsed(r) == Ok(Meta(LeU32(r, at), parent, size, LeU32(r, LeU32(r, 32 + 32 * z + 16)))))
            && ((forall i :: 0 <= i < n ==> !Item(r, i, LOGICAL_SECTOR_SIZE, 4)) ==>
                  Parsed(r) == Ok(Meta(LeU32(r, at), parent, size, 512)))
  {
    hide LeU32, LeU64, Item, SizeItem, LastItem, LastSize, LastItemOf;
    LastItemIs(r, n, FILE_PARAMETERS, 8, f);
    LastSizeIs(r, n, s);
    LastItemIs(r, n, LOGICAL_SECTOR_SIZE, 4, z);
  }

  /** Without a block size or a disk size there are no parameters. */
  lemma ParametersMissing(r: seq<byte>, n: nat)
    requires Declares(r, n)
    ensures (forall i :: 0 <= i < n ==> !Item(r, i, FILE_PARAMETERS, 8)) ==>
              Parsed(r) == Err(MetadataMissing("BlockSize"))
    ensures (forall i :: 0 <= i < n ==> !SizeItem(r, i)) ==> Parsed(r).Err?
  {
    hide LeU32, LeU64, Item, SizeItem, LastItem, LastSize;
    LastItemIs(r, n, FILE_PARAMETERS, 8, 0);
    LastSizeIs(r, n, 0);
  }

  // ── The analyser's fields ─────────────────────────────────────────────────

  /** Entry `i` is item `guid`, and `width` bytes at its offset lie in the `room` up to the container's end. */
  predicate Field(r: seq<byte>, room: nat, i: nat, guid: seq<byte>, width: nat) {
    && |guid| == 16 && 32 + 32 * i + 32 <= |r| && r[32 + 32 * i..32 + 32 * i + 16] == guid
    && LeU32(r, 32 + 32 * i + 16) + width <= room
  }

  lemma {:induction false} LastFieldIs(r: seq<byte>, room: nat, n: nat, guid: seq<byte>, width: nat, k: nat)
    requires |guid| == 16 && 32 + 32 * n <= |r|
    ensures k < n && Field(r, room, k, guid, width) && (forall i :: k < i < n ==> !Field(r, room, i, guid, width)) ==>
              I.LastField(r, room, n, guid, width) == Some(LeU32(r, 32 + 32 * k + 16))
    ensures (forall i :: 0 <= i < n ==> !Field(r, room, i, guid, width)) ==>
              I.LastField(r, room, n, guid, width) == None
  {
    hide Field, LeU32, Guid;
    if n > 0 {
      FieldIs(r, room, n - 1, guid, width);
      LastFieldIs(r, room, n - 1, guid, width, k);
    }
  }

  lemma FieldIs(r: seq<byte>, room: nat, i: nat, guid: seq<byte>, width: nat)
    requires |guid| == 16 && 32 + 32 * i + 32 <= |r|
    ensures Field(r, room, i, guid, width) <==> Guid(r, 32 + i * 32) == guid && I.ItemOffset(r, i) + width <= room
    ensures I.ItemOffset(r, i) == LeU32(r, 32 + 32 * i + 16)
  {
    hide LeU32;
    assert 32 + i * 32 == 32 + 32 * i;
  }

  /** Each parser believes the table copy at 192 KiB, and the one at 256 KiB only when it cannot use the first. */
  lemma FirstTableCounts(view: seq<byte>)
    requires 0x25_0000 <= |view| < TWO63
    ensures var first, second := Table(view[0x3_0000..0x25_0000], |view|), Table(view[0x4_0000..0x25_0000], |view|);
            Open.Regions(view) == if first.Ok? then first else second
    ensures I.TableOk(view, 0x3_0000) && I.TableRegions(view[0x3_0000..0x4_0000]).Some? ==>
              I.NamedRegions(view) == I.TableRegions(view[0x3_0000..0x4_0000])
    ensures !(I.TableOk(view, 0x3_0000) && I.TableRegions(view[0x3_0000..0x4_0000]).Some?) ==>
              I.NamedRegions(view)
              == if I.TableOk(view, 0x4_0000) then I.TableRegions(view[0x4_0000..0x5_0000]) else None
  {
    hide Table, I.TableOk, I.TableRegions;
    assert view[..0x25_0000][0x3_0000..] == view[0x3_0000..0x25_0000];
    assert view[..0x25_0000][0x4_0000..] == view[0x4_0000..0x25_0000];
  }

  /** A disk that defers to a parent is opened with one only. */
  lemma ParentNeeded(view: seq<byte>, parent: Option<Disk.Disk>)
    requires 0x25_0000 <= |view| < TWO63 && Open.Regions(view).Ok?
    ensures var t := Open.Regions(view).value;
            var region := view[t.metadata.offset..t.metadata.offset + t.metadata.length];
            Parsed(region).Ok? && Valid(Parsed(region).value) ==>
              var m := Parsed(region).value;
              if m.hasParent && parent.None? then Open.Assembled(view, parent) == Err(DifferencingNotSupported)
              else
                && Open.Assembled(view, parent).Ok?
                && var d := Open.Assembled(view, parent).value;
                   && d.view == view && d.meta == m && d.parent == parent && |d.entries| == t.bat.length / 8
                   && forall i :: 0 <= i < |d.entries| ==> d.entries[i] == LeU64(view, t.bat.offset + 8 * i)
  {
    hide Open.Regions, Parsed, LeU64;
    var t := Open.Regions(view).value;
    forall i | 0 <= i < t.bat.length / 8
      ensures LeU64(view[t.bat.offset..t.bat.End()], i * 8) == LeU64(view, t.bat.offset + 8 * i)
    {
      LeU64Slice(view, t.bat.offset, t.bat.End(), i * 8);
      assert t.bat.offset + i * 8 == t.bat.offset + 8 * i;
    }
  }

  /** `n` items are visited: as many as declared, at most `limit`, and only whole ones. */
  predicate ItemsVisited(r: seq<byte>, limit: nat, n: nat) {
    && n <= LeU16(r, 10) && n <= limit && (n > 0 ==> 32 + 32 * n <= |r|)
    && (n == LeU16(r, 10) || n == limit || |r| < 32 + 32 * (n + 1))
  }

  /** The analyser reads at most 256 items for the parameters and orders the ranges of at most 2048. */
  lemma AnalysedItems(r: seq<byte>, n: nat)
    ensures ItemsVisited(r, 256, n) <==> n == I.ItemVisits(r)
    ensures ItemsVisited(r, 2048, n) <==> n == |Sweeps.ItemRanges(r)|
  {
    hide LeU16;
  }

  /** An item's range starts at its offset and ends after its length, or at the largest 32-bit number. */
  lemma RangeExactly(r: seq<byte>, i: nat)
    requires i < |Sweeps.ItemRanges(r)|
    ensures var range, off, len := Sweeps.ItemRanges(r)[i], LeU32(r, 32 + 32 * i + 16), LeU32(r, 32 + 32 * i + 20);
            && range.key == off
            && range.value == if off + len < 0x1_0000_0000 then off + len else 0xFFFF_FFFF
  {
    hide LeU16, LeU32;
    assert 32 + i * 32 == 32 + 32 * i;
  }

  // ── Refusals ──────────────────────────────────────────────────────────────

  /** Both ways of opening refuse a container without the signature, shorter than 2368 KiB, or without a header. */
  lemma Refusals(image: seq<byte>, parent: Option<Disk.Disk>)
    requires |image| < TWO63
    ensures var marked := |image| >= 8 && image[..8] == [0x76, 0x68, 0x64, 0x78, 0x66, 0x69, 0x6C, 0x65];
            && (!marked ==> Open.FromBytes(image, parent) == Open.FromBacking(image, parent) == Err(BadMagic))
            && (marked && |image| < 0x25_0000 ==>
                  Open.FromBytes(image, parent) == Open.FromBacking(image, parent) == Err(ContainerTooSmall))
            && (marked && |image| >= 0x25_0000 && !HeaderOk(image, 0x1_0000) && !HeaderOk(image, 0x2_0000) ==>
                  Open.FromBytes(image, parent) == Open.FromBacking(image, parent) == Err(NoValidHeader))
  {
    hide HeaderOk, Open.Assembled, HeaderAt;
    if |image| >= 0x25_0000 {
      Open.HeaderInPrefix(image);
    }
  }
}
