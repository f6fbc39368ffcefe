/**
 Repair under a dirty log: the log replays as before, and the disk decoded after replay changes
 only where repair zeroed an entry that replay does not restore.
 */
module Dirty {
  import opened Bytes
  import opened Arith
  import opened Header
  import opened Region
  import opened Replay
  import opened Disk
  import opened Repair
  import opened Fixpoint
  import opened Preserve
  import Bat
  import Chain
  import I = Integrity
  import Log
  import M = Metadata
  import Open

  /** Repair writes nothing into the log that the active header names. */
  ghost predicate LogOutside(img: seq<byte>) {
    ActiveHeader(img).Ok? ==>
      var h := ActiveHeader(img).value;
      h.logOffset + h.logLength <= |img| ==> RangeOutside(img, h.logOffset, h.logOffset + h.logLength)
  }

  /**
   The container replays `runs`, none of which reaches the region tables, and then decodes to
   `d`; the analyser reads it, before replay, as the reader does after.
   */
  ghost predicate Replays(img: seq<byte>, runs: seq<Run>, parent: Option<Disk>, d: Disk) {
    && Open.MIN_CONTAINER <= |img| < TWO63
    && (parent.Some? ==> WellFormed(parent.value))
    && Log.ReplayRuns(img) == Ok(runs) && Log.Avoids(runs, TABLE1, I.MIN_SIZE) && LogOutside(img)
    && CountsFit(img) && Apart(img) && RangeOutside(img, 0, 8)
    && Open.FromBytes(img, parent) == Ok(d)
    && SameTable(img, d)
  }

  // ── The log ───────────────────────────────────────────────────────────────

  /** The repaired image asks for the same runs. */
  lemma RunsKept(img: seq<byte>, issues: seq<I.Finding>)
    requires ReportsOn(img, issues) && I.Readable(img) && |img| < TWO63 && EntriesClear(img) && LogOutside(img)
    ensures Log.ReplayRuns(After(img, issues)) == Log.ReplayRuns(img)
  {
    hide ActiveHeader, ReportsOn, After, EntriesClear, Outside, Log.Committed, Log.LogRuns, Log.TablesFit;
    HeadersAfter(img, issues);
    if ActiveHeader(img).Ok? {
      var h := ActiveHeader(img).value;
      if h.logOffset + h.logLength <= |img| {
        SliceKept(img, issues, h.logOffset, h.logOffset + h.logLength);
      }
    }
  }

  /** A run that in-place replay applies has the last word on `p`. */
  predicate Rewritten(runs: seq<Run>, n: nat, p: nat) { TopApplied(runs, p, n) >= 0 }

  /** Replay leaves two images alike where they were, and wherever a run is applied. */
  lemma ReplaySame(x: seq<byte>, y: seq<byte>, runs: seq<Run>, p: nat)
    requires |x| == |y| && p < |x| && (x[p] == y[p] || Rewritten(runs, |x|, p))
    ensures InPlace(x, runs)[p] == InPlace(y, runs)[p]
  {
    InPlaceNormalForm(x, runs, p);
    InPlaceNormalForm(y, runs, p);
  }

  lemma ReplaySlice(x: seq<byte>, y: seq<byte>, runs: seq<Run>, lo: nat, hi: nat)
    requires |x| == |y| && lo <= hi <= |x| && x[lo..hi] == y[lo..hi]
    ensures InPlace(x, runs)[lo..hi] == InPlace(y, runs)[lo..hi]
  {
    hide InPlace, Rewritten;
    forall p | lo <= p < hi
      ensures InPlace(x, runs)[p] == InPlace(y, runs)[p]
    {
      assert x[p] == x[lo..hi][p - lo] == y[lo..hi][p - lo];
      ReplaySame(x, y, runs, p);
    }
    SameSlice(InPlace(x, runs), InPlace(y, runs), lo, hi);
  }

  /** Runs that avoid the region tables do not change what the reader finds in them. */
  lemma RegionsUnreplayed(x: seq<byte>, runs: seq<Run>)
    requires Open.MIN_CONTAINER <= |x| && CountsFit(x) && Log.Avoids(runs, TABLE1, I.MIN_SIZE)
    ensures Open.Regions(InPlace(x, runs)) == Open.Regions(x)
  {
    hide InPlace, Open.Regions, Slot, Table, LeU32, Log.Avoids;
    var y := InPlace(x, runs);
    SlotUnreplayed(x, runs, I.First);
    SlotUnreplayed(x, runs, I.Second);
    CountIn(x, I.First);
    CountIn(x, I.Second);
    CountIn(y, I.First);
    CountIn(y, I.Second);
    RegionsByCopy(x);
    RegionsByCopy(y);
  }

  lemma SlotUnreplayed(x: seq<byte>, runs: seq<Run>, c: I.Copy)
    requires I.MIN_SIZE <= |x| && Log.Avoids(runs, TABLE1, I.MIN_SIZE)
    ensures Slot(InPlace(x, runs), TableBlock, c) == Slot(x, TableBlock, c)
  {
    hide InPlace;
    Log.AvoidsKeeps(x, runs, Place(TableBlock, c), Place(TableBlock, c) + TABLE_SIZE);
  }

  // ── Opening ───────────────────────────────────────────────────────────────

  lemma OpensAs(img: seq<byte>, runs: seq<Run>, parent: Option<Disk>)
    requires Open.MIN_CONTAINER <= |img| < TWO63 && img[..8] == MAGIC && Log.ReplayRuns(img) == Ok(runs)
    ensures Open.FromBytes(img, parent)
         == if Log.Trips(runs, SectorEnd) then Err(Panic) else Open.Assembled(InPlace(img, runs), parent)
  {
    hide Open.Assembled, InPlace, Log.Trips, Log.ReplayRuns;
  }

  /** The repaired image opens, with the same parameters and parent. */
  lemma ReplayedReopens(img: seq<byte>, issues: seq<I.Finding>, runs: seq<Run>, parent: Option<Disk>, d: Disk)
    requires ReportsOn(img, issues) && Replays(img, runs, parent, d)
    ensures var x, y, l := InPlace(img, runs), InPlace(After(img, issues), runs), I.ParsedLayout(img).value;
            && l.bat.End() <= |img|
            && d == Disk(x, Bat.Entries(x[l.bat.offset..l.bat.End()]), d.meta, parent)
            && Open.FromBytes(After(img, issues), parent)
               == Ok(Disk(y, Bat.Entries(y[l.bat.offset..l.bat.End()]), d.meta, parent))
  {
    hide I.ParsedLayout, Open.FromBytes, ReportsOn, After, Open.Regions, Bat.Entries, Open.Parameters, Log.ReplayRuns;
    hide Open.Assembled, LogOutside, CountsFit, EntriesClear, LayoutOutside, I.Layout.ChunkRatio, M.Meta.ChunkRatio;
    hide InPlace, Log.Avoids, Log.Trips, RangeOutside, I.HasItems, SameFields, I.Readable;
    var r, l := After(img, issues), I.ParsedLayout(img).value;
    var x, y, t := InPlace(img, runs), InPlace(r, runs), RegionTable(l.bat, l.metadata);
    OpenedMagic(img, parent);
    ReadableKept(img, issues);
    RunsKept(img, issues);
    OpensAs(img, runs, parent);
    OpensAs(r, runs, parent);
    RegionsUnreplayed(img, runs);
    CountsKept(img, issues);
    RegionsKept(img, issues);
    RegionsUnreplayed(r, runs);
    LongEnough(x, parent);
    LayoutKept(img, issues);
    AssembledIs(x, parent, t);
    AssembledIs(y, parent, t);
    ReplaySlice(img, r, runs, l.metadata.offset, l.metadata.End());
  }

  /** The disk that the repaired container decodes to. */
  function RepairedReplayed(img: seq<byte>, issues: seq<I.Finding>, runs: seq<Run>, d: Disk): Disk
    requires ReportsOn(img, issues)
    requires I.ParsedLayout(img).Some? && I.ParsedLayout(img).value.bat.End() <= |img|
  {
    var y, bat := InPlace(After(img, issues), runs), I.ParsedLayout(img).value.bat;
    Disk(y, Bat.Entries(y[bat.offset..bat.End()]), d.meta, d.parent)
  }

  // ── Entries ───────────────────────────────────────────────────────────────

  /** The two entries at `at` have the same state and offset, byte for byte. */
  predicate SameSeen(x: seq<byte>, y: seq<byte>, at: nat)
    requires at + 8 <= |x| && at + 8 <= |y|
  {
    && x[at] % 8 == y[at] % 8 && x[at + 2] / 16 == y[at + 2] / 16
    && forall p :: at + 3 <= p < at + 8 ==> x[p] == y[p]
  }

  lemma SeenNumbers(raw: nat, b0: nat, b1: nat, high: nat, low: nat, b3: nat, top: nat)
    requires b0 < 0x100 && b1 < 0x100 && low < 16
    requires raw == b0 + 0x100 * b1 + 0x1_0000 * (16 * high + low) + 0x100_0000 * b3 + TWO32 * top
    ensures raw % 8 == b0 % 8 && raw / MIB == high + 16 * b3 + 0x1000 * top
  {
    hide Div, Mod;
    var q, r := high + 16 * b3 + 0x1000 * top, b0 + 0x100 * b1 + 0x1_0000 * low;
    DivUnique(raw, MIB, q, r);
    DivIsQuotient(raw, MIB);
    DivUnique(raw, 8, 0x2_0000 * q + 0x2000 * low + 0x20 * b1 + b0 / 8, b0 % 8);
    DivIsQuotient(raw, 8);
  }

  /** State and offset of an entry in terms of its bytes. */
  lemma SeenIn(x: seq<byte>, at: nat)
    requires at + 8 <= |x|
    ensures LeU64(x, at) % 8 == x[at] % 8
    ensures LeU64(x, at) / MIB == (x[at + 2] / 16) as int + 16 * (x[at + 3] as int) + 0x1000 * LeU32(x, at + 4)
  {
    var top := LeU32(x, at + 4);
    assert LeU64(x, at) == LeU32(x, at) + TWO32 * top;
    SeenNumbers(LeU64(x, at), x[at], x[at + 1], x[at + 2] / 16, x[at + 2] % 16, x[at + 3], top);
  }

  lemma SeenAlike(x: seq<byte>, y: seq<byte>, at: nat)
    requires at + 8 <= |x| && at + 8 <= |y| && SameSeen(x, y, at)
    ensures LeU64(x, at) % 8 == LeU64(y, at) % 8 && LeU64(x, at) / MIB == LeU64(y, at) / MIB
  {
    SeenIn(x, at);
    SeenIn(y, at);
    hide LeU64;
    assert x[at + 4] == y[at + 4] && x[at + 5] == y[at + 5] && x[at + 6] == y[at + 6] && x[at + 7] == y[at + 7];
  }

  /** Equal state and offset mean alike bytes. */
  lemma AlikeSeen(x: seq<byte>, y: seq<byte>, at: nat)
    requires at + 8 <= |x| && at + 8 <= |y|
    requires LeU64(x, at) % 8 == LeU64(y, at) % 8 && LeU64(x, at) / MIB == LeU64(y, at) / MIB
    ensures SameSeen(x, y, at)
  {
    SeenIn(x, at);
    SeenIn(y, at);
    hide LeU64;
    var a, b := LeU32(x, at + 4), LeU32(y, at + 4);
    hide LeU32;
    Digits((x[at + 2] / 16) as int + 16 * (x[at + 3] as int), a,
           (y[at + 2] / 16) as int + 16 * (y[at + 3] as int), b, 0x1000);
    Digits((x[at + 2] / 16) as int, x[at + 3], (y[at + 2] / 16) as int, y[at + 3], 16);
    LeU32Injective(x, y, at + 4);
  }

  lemma Digits(a: nat, b: nat, c: nat, d: nat, unit: nat)
    requires a < unit && c < unit && a + unit * b == c + unit * d
    ensures a == c && b == d
  {
    hide Div, Mod;
    DivUnique(a + unit * b, unit, b, a);
    DivUnique(c + unit * d, unit, d, c);
  }

  /** Repair keeps state and offset of an entry unless it zeroes it. */
  lemma RawSeen(img: seq<byte>, issues: seq<I.Finding>, i: nat)
    requires ReportsOn(img, issues) && I.Scannable(img) && EntriesClear(img)
    requires i < I.ParsedLayout(img).value.Count() && !Zeroed(issues, i)
    ensures SameSeen(img, After(img, issues), I.ParsedLayout(img).value.bat.offset + i * 8)
  {
    hide I.ParsedLayout, ReportsOn, After, EntriesClear, LeU64, SameSeen, Cleaned, Zeroed;
    var at := I.ParsedLayout(img).value.bat.offset + i * 8;
    RawAfter(img, issues, i);
    CleanedKeeps(LeU64(img, at));
    AlikeSeen(img, After(img, issues), at);
  }

  lemma NotRewritten(x: seq<byte>, runs: seq<Run>, p: nat)
    requires p < |x| && !Rewritten(runs, |x|, p)
    ensures InPlace(x, runs)[p] == x[p]
  {
    InPlaceNormalForm(x, runs, p);
  }

  /** Replay keeps alike entries alike, whichever of their bytes it rewrites. */
  lemma ReplaySeen(x: seq<byte>, y: seq<byte>, runs: seq<Run>, at: nat)
    requires |x| == |y| && at + 8 <= |x| && SameSeen(x, y, at)
    ensures SameSeen(InPlace(x, runs), InPlace(y, runs), at)
  {
    hide InPlace, Rewritten;
    forall p | at <= p < at + 8
      ensures Rewritten(runs, |x|, p) ==> InPlace(x, runs)[p] == InPlace(y, runs)[p]
      ensures !Rewritten(runs, |x|, p) ==> InPlace(x, runs)[p] == x[p] && InPlace(y, runs)[p] == y[p]
    {
      if Rewritten(runs, |x|, p) {
        ReplaySame(x, y, runs, p);
      } else {
        NotRewritten(x, runs, p);
        NotRewritten(y, runs, p);
      }
    }
    assert at <= at + 2 < at + 8;
  }

  /** Replay restores every byte of the entry at `at`. */
  predicate Restored(runs: seq<Run>, n: nat, at: nat) {
    forall p :: at <= p < at + 8 ==> Rewritten(runs, n, p)
  }

  /** Replay writes no byte of the entry at `at`. */
  predicate Unwritten(runs: seq<Run>, n: nat, at: nat) {
    forall p :: at <= p < at + 8 ==> !Rewritten(runs, n, p)
  }

  lemma RestoredEntry(x: seq<byte>, y: seq<byte>, runs: seq<Run>, at: nat)
    requires |x| == |y| && at + 8 <= |x| && Restored(runs, |x|, at)
    ensures LeU64(InPlace(x, runs), at) == LeU64(InPlace(y, runs), at)
  {
    hide InPlace, Rewritten, LeU64;
    forall p | at <= p < at + 8
      ensures InPlace(x, runs)[p] == InPlace(y, runs)[p]
    {
      ReplaySame(x, y, runs, p);
    }
    SameBytesRead(InPlace(x, runs), InPlace(y, runs), at);
  }

  lemma UnwrittenEntry(x: seq<byte>, runs: seq<Run>, at: nat)
    requires at + 8 <= |x| && Unwritten(runs, |x|, at)
    ensures LeU64(InPlace(x, runs), at) == LeU64(x, at)
  {
    hide InPlace, Rewritten, LeU64;
    forall p | at <= p < at + 8
      ensures InPlace(x, runs)[p] == x[p]
    {
      NotRewritten(x, runs, p);
    }
    SameBytesRead(InPlace(x, runs), x, at);
  }

  lemma ZeroBytes(x: seq<byte>, at: nat)
    requires at + 8 <= |x| && LeU64(x, at) == 0
    ensures forall p :: at <= p < at + 8 ==> x[p] == 0
  {
    assert LeU32(x, at) == 0 && LeU32(x, at + 4) == 0;
  }

  /** A byte of a zeroed entry is, after replay, the byte that replay wrote there, or zero. */
  predicate RunsOrZeros(x: seq<byte>, y: seq<byte>, runs: seq<Run>, at: nat)
    requires |x| == |y| && at + 8 <= |x|
  {
    forall p :: at <= p < at + 8 ==> y[p] == if Rewritten(runs, |x|, p) then x[p] else 0
  }

  lemma ZeroedEntry(x: seq<byte>, y: seq<byte>, runs: seq<Run>, at: nat)
    requires |x| == |y| && at + 8 <= |x| && LeU64(y, at) == 0
    ensures RunsOrZeros(InPlace(x, runs), InPlace(y, runs), runs, at)
  {
    hide InPlace, Rewritten, LeU64;
    ZeroBytes(y, at);
    forall p | at <= p < at + 8
      ensures InPlace(y, runs)[p] == if Rewritten(runs, |x|, p) then InPlace(x, runs)[p] else 0
    {
      if Rewritten(runs, |x|, p) {
        ReplaySame(x, y, runs, p);
      } else {
        NotRewritten(y, runs, p);
      }
    }
  }

  lemma EntryIn(x: seq<byte>, bat: Region, i: nat)
    requires bat.End() <= |x| && i < bat.length / 8
    ensures var es := Bat.Entries(x[bat.offset..bat.End()]);
            i < |es| && es[i] == LeU64(x, bat.offset + i * 8)
  {
    hide LeU64;
    LeU64Slice(x, bat.offset, bat.End(), i * 8);
  }

  /** Where entry `i` of the scanned table stands. */
  function Spot(img: seq<byte>, i: nat): nat
    requires I.ParsedLayout(img).Some?
  {
    I.ParsedLayout(img).value.bat.offset + i * 8
  }

  /** What both decoded disks are made of. */
  lemma BothDisks(img: seq<byte>, issues: seq<I.Finding>, runs: seq<Run>, parent: Option<Disk>, d: Disk)
    requires ReportsOn(img, issues) && Replays(img, runs, parent, d)
    ensures I.Readable(img) && I.ParsedLayout(img).Some? && I.ParsedLayout(img).value.bat.End() <= |img|
    ensures parent.Some? ==> WellFormed(parent.value)
    ensures var e, l := RepairedReplayed(img, issues, runs, d), I.ParsedLayout(img).value;
            && WellFormed(d) && WellFormed(e)
            && Open.FromBytes(After(img, issues), parent) == Ok(e)
            && d.view == InPlace(img, runs) && e.view == InPlace(After(img, issues), runs)
            && d.parent == e.parent == parent && d.meta == e.meta
            && |d.entries| == |e.entries| == l.Count()
  {
    hide I.ParsedLayout, Open.FromBytes, ReportsOn, After, Open.Regions, Log.ReplayRuns, InPlace, M.Validate;
    hide LogOutside, CountsFit, EntriesClear, LayoutOutside, Log.Avoids, RangeOutside, I.Layout.ChunkRatio;
    hide Open.Assembled, Log.Trips, M.Meta.ChunkRatio, I.Readable, LeU64;
    OpenedMagic(img, parent);
    ReplayedReopens(img, issues, runs, parent, d);
    OpensAs(img, runs, parent);
    AssembledValid(InPlace(img, runs), parent);
    Bat.ValidUsable(d.meta);
  }

  lemma ZeroAfter(raw: u64, issues: seq<I.Finding>, i: nat)
    requires Zeroed(issues, i)
    ensures EntryAfter(raw, issues, i) == 0
  {
    hide Zeroed;
  }

  /** Each entry of the two disks: alike unless zeroed, and what replay makes of a zeroed one. */
  lemma EntryPair(img: seq<byte>, issues: seq<I.Finding>, runs: seq<Run>, parent: Option<Disk>, d: Disk, i: nat)
    requires ReportsOn(img, issues) && Replays(img, runs, parent, d) && i < |d.entries|
    ensures I.ParsedLayout(img).value.bat.End() <= |img|
    ensures var es := RepairedReplayed(img, issues, runs, d).entries;
            && |es| == |d.entries|
            && (!Zeroed(issues, i) || Restored(runs, |img|, Spot(img, i)) ==>
                  es[i] % 8 == d.entries[i] % 8 && es[i] / MIB == d.entries[i] / MIB)
            && (Zeroed(issues, i) && Unwritten(runs, |img|, Spot(img, i)) ==> es[i] == 0)
    ensures var y, at := InPlace(After(img, issues), runs), Spot(img, i);
            && at + 8 <= |img| && RepairedReplayed(img, issues, runs, d).entries[i] == LeU64(y, at)
            && (Zeroed(issues, i) ==> RunsOrZeros(InPlace(img, runs), y, runs, at))
  {
    hide I.ParsedLayout, Open.FromBytes, ReportsOn, After, Open.Regions, Log.ReplayRuns, InPlace, LogOutside, CountsFit;
    hide EntriesClear, LayoutOutside, Log.Avoids, RangeOutside, Restored, Unwritten, LeU64, SameSeen, Zeroed;
    hide WellFormed;
    hide I.Layout.ChunkRatio, M.Meta.ChunkRatio, Bat.Entries, I.Readable;
    ReplayedReopens(img, issues, runs, parent, d);
    BothDisks(img, issues, runs, parent, d);
    var r, l, at := After(img, issues), I.ParsedLayout(img).value, Spot(img, i);
    EntryIn(InPlace(img, runs), l.bat, i);
    EntryIn(InPlace(r, runs), l.bat, i);
    if Restored(runs, |img|, at) {
      RestoredEntry(img, r, runs, at);
    } else if !Zeroed(issues, i) {
      RawSeen(img, issues, i);
      ReplaySeen(img, r, runs, at);
      SeenAlike(InPlace(img, runs), InPlace(r, runs), at);
    }
    if Zeroed(issues, i) {
      RawAfter(img, issues, i);
      ZeroAfter(I.RawEntry(img, l, i), issues, i);
      ZeroedEntry(img, r, runs, at);
      if Unwritten(runs, |img|, at) {
        UnwrittenEntry(r, runs, at);
      }
    }
  }

  // ── What one virtual byte becomes ─────────────────────────────────────────

  /** What a read of `v` consults in this image is not written by repair, or is restored by replay. */
  ghost predicate ReadsKept(img: seq<byte>, runs: seq<Run>, d: Disk, v: nat)
    requires WellFormed(d)
  {
    forall a: nat :: Chain.Consults(d, v, a) && a < |img| ==> Outside(img, a) || Rewritten(runs, |img|, a)
  }

  /** The entry of `v` was not zeroed, or replay restores it. */
  predicate EntryKept(img: seq<byte>, issues: seq<I.Finding>, runs: seq<Run>, i: nat)
    requires I.ParsedLayout(img).Some?
  {
    !Zeroed(issues, i) || Restored(runs, |img|, Spot(img, i))
  }

  lemma ReplayedTarget(img: seq<byte>, issues: seq<I.Finding>, runs: seq<Run>, parent: Option<Disk>, d: Disk, v: nat)
    requires ReportsOn(img, issues) && Replays(img, runs, parent, d)
    ensures I.ParsedLayout(img).value.bat.End() <= |img|
    ensures WellFormed(d) && WellFormed(RepairedReplayed(img, issues, runs, d))
    ensures EntryKept(img, issues, runs, IndexOf(d, v)) ==>
              TargetOf(RepairedReplayed(img, issues, runs, d), v) == TargetOf(d, v)
  {
    BothDisks(img, issues, runs, parent, d);
    var e, i := RepairedReplayed(img, issues, runs, d), IndexOf(d, v);
    var slot := Bat.BitmapIndex(Div(v, d.meta.blockSize), d.meta.ChunkRatio());
    I.SlotsAgree(I.ParsedLayout(img).value, Div(v, d.meta.blockSize));
    SlotKept(img, issues, slot);
    hide I.ParsedLayout, ReportsOn, Open.FromBytes, Open.Regions, Apart, CountsFit, LogOutside, Log.Avoids;
    hide Log.ReplayRuns;
    hide Div, Mod, M.Meta.ChunkRatio, M.Validate, Bat.ReadTarget, RepairedReplayed, Bat.PayloadIndex, Bat.BitmapIndex;
    hide Zeroed, Restored, Unwritten;
    if EntryKept(img, issues, runs, i) {
      if i < |d.entries| {
        EntryPair(img, issues, runs, parent, d, i);
      }
      if slot < |d.entries| {
        EntryPair(img, issues, runs, parent, d, slot);
      }
      TargetSees(d.entries, e.entries, d.meta, v);
    }
  }

  lemma ViewsAgree(img: seq<byte>, issues: seq<I.Finding>, runs: seq<Run>, a: nat)
    requires ReportsOn(img, issues) && a < |img| && (Outside(img, a) || Rewritten(runs, |img|, a))
    ensures InPlace(img, runs)[a] == InPlace(After(img, issues), runs)[a]
  {
    hide ReportsOn, Outside, After, InPlace, Rewritten;
    if Outside(img, a) {
      OutsideKept(img, issues, a);
    }
    ReplaySame(img, After(img, issues), runs, a);
  }

  lemma ConsultedAlike(img: seq<byte>, issues: seq<I.Finding>, runs: seq<Run>, d: Disk, v: nat)
    requires ReportsOn(img, issues) && WellFormed(d) && ReadsKept(img, runs, d, v)
    ensures forall a: nat :: Chain.Consults(d, v, a) && a < |img| ==>
              InPlace(img, runs)[a] == InPlace(After(img, issues), runs)[a]
  {
    hide ReportsOn, Outside, After, InPlace, Rewritten, Chain.Consults, WellFormed;
    forall a: nat | Chain.Consults(d, v, a) && a < |img|
      ensures InPlace(img, runs)[a] == InPlace(After(img, issues), runs)[a]
    {
      ViewsAgree(img, issues, runs, a);
    }
  }

  lemma KeptByte(img: seq<byte>, issues: seq<I.Finding>, runs: seq<Run>, parent: Option<Disk>, d: Disk, v: nat)
    requires ReportsOn(img, issues) && Replays(img, runs, parent, d) && WellFormed(d)
    requires EntryKept(img, issues, runs, IndexOf(d, v)) && ReadsKept(img, runs, d, v)
    ensures I.ParsedLayout(img).value.bat.End() <= |img| && WellFormed(RepairedReplayed(img, issues, runs, d))
    ensures ByteAt(RepairedReplayed(img, issues, runs, d), v) == ByteAt(d, v)
  {
    hide *;
    BothDisks(img, issues, runs, parent, d);
    ReplayedTarget(img, issues, runs, parent, d, v);
    ConsultedAlike(img, issues, runs, d, v);
    Chain.SameImageByte(d, RepairedReplayed(img, issues, runs, d), v);
  }

  lemma LostByte(img: seq<byte>, issues: seq<I.Finding>, runs: seq<Run>, parent: Option<Disk>, d: Disk, v: nat)
    requires ReportsOn(img, issues) && Replays(img, runs, parent, d) && WellFormed(d)
    requires v < d.meta.diskSize && IndexOf(d, v) < |d.entries|
    requires Zeroed(issues, IndexOf(d, v)) && Unwritten(runs, |img|, Spot(img, IndexOf(d, v)))
    ensures I.ParsedLayout(img).value.bat.End() <= |img| && WellFormed(RepairedReplayed(img, issues, runs, d))
    ensures ByteAt(RepairedReplayed(img, issues, runs, d), v) == ParentByte(parent, v)
  {
    hide I.ParsedLayout, ReportsOn, Replays, WellFormed, IndexOf, ByteAt, RepairedReplayed, After, InPlace, Zeroed;
    hide Unwritten;
    BothDisks(img, issues, runs, parent, d);
    EntryPair(img, issues, runs, parent, d, IndexOf(d, v));
    SameIndex(d, RepairedReplayed(img, issues, runs, d), v);
    AbsentByte(RepairedReplayed(img, issues, runs, d), v);
  }

  /** A zeroed entry is one of the reader's. */
  lemma ZeroedInTable(img: seq<byte>, issues: seq<I.Finding>, i: nat)
    requires ReportsOn(img, issues) && Zeroed(issues, i)
    ensures I.ParsedLayout(img).Some? && i < I.ParsedLayout(img).value.Count()
  {
    hide I.ParsedLayout, ReportsOn;
    var f := if I.UndefinedBlockState(i) in issues then I.UndefinedBlockState(i)
      else if I.BatEntryInStructuralRegion(i) in issues then I.BatEntryInStructuralRegion(i)
      else I.BatEntryBeyondContainer(i);
    FoundRaw(img, issues, f);
  }

  /**
   The repaired container asks for the same replay and opens. A byte whose entry repair did not
   zero, or replay restores, reads as before, if what it reads is not written by repair or is
   restored too; one whose entry was zeroed, where replay writes nothing, reads as the parent's.
   In general a zeroed entry is, byte for byte, what replay writes there, or zero.
   */
  lemma ReplayedByte(img: seq<byte>, issues: seq<I.Finding>, runs: seq<Run>, parent: Option<Disk>, d: Disk, v: nat)
    requires ReportsOn(img, issues) && Replays(img, runs, parent, d) && v < d.meta.diskSize
    ensures Log.ReplayRuns(After(img, issues)) == Ok(runs)
    ensures I.ParsedLayout(img).value.bat.End() <= |img|
    ensures WellFormed(d) && WellFormed(RepairedReplayed(img, issues, runs, d))
    ensures Open.FromBytes(After(img, issues), parent) == Ok(RepairedReplayed(img, issues, runs, d))
    ensures var e, i := RepairedReplayed(img, issues, runs, d), IndexOf(d, v);
            && (EntryKept(img, issues, runs, i) && ReadsKept(img, runs, d, v) ==> ByteAt(e, v) == ByteAt(d, v))
            && (Zeroed(issues, i) && Unwritten(runs, |img|, Spot(img, i)) ==> ByteAt(e, v) == ParentByte(parent, v))
            && (Zeroed(issues, i) ==>
                  && i < |e.entries| && Spot(img, i) + 8 <= |img| && e.entries[i] == LeU64(e.view, Spot(img, i))
                  && RunsOrZeros(d.view, e.view, runs, Spot(img, i)))
  {
    BothDisks(img, issues, runs, parent, d);
    RunsKept(img, issues);
    hide I.ParsedLayout, ReportsOn, Replays, After, WellFormed, ByteAt, IndexOf, Zeroed, EntryKept, ReadsKept;
    hide Unwritten;
    hide Open.FromBytes, RepairedReplayed, InPlace;
    var i := IndexOf(d, v);
    if EntryKept(img, issues, runs, i) && ReadsKept(img, runs, d, v) {
      KeptByte(img, issues, runs, parent, d, v);
    }
    if Zeroed(issues, i) {
      ZeroedInTable(img, issues, i);
      EntryPair(img, issues, runs, parent, d, i);
      if Unwritten(runs, |img|, Spot(img, i)) {
        LostByte(img, issues, runs, parent, d, v);
      }
    }
  }
}
