/** The log: walking it, ordering its entries, and the two ways of replaying them. */
module Log {
  import opened Bytes
  import opened Crc
  import opened Header
  import opened Replay
  import opened Backing

  const LOGE: seq<byte> := [0x6C, 0x6F, 0x67, 0x65]
  const DESC: seq<byte> := [0x64, 0x65, 0x73, 0x63]
  const ZERO: seq<byte> := [0x7A, 0x65, 0x72, 0x6F]

  // ── One entry ─────────────────────────────────────────────────────────────

  function DescriptorCount(entry: seq<byte>): nat { LeU32(entry, 24) }

  function SectorBase(entry: seq<byte>): nat { 64 + DescriptorCount(entry) * 32 }

  /** Indexing a descriptor outside the entry panics. */
  predicate TableFits(entry: seq<byte>) {
    DescriptorCount(entry) == 0 || SectorBase(entry) <= |entry|
  }

  /** Data descriptors among the first `i`: each consumes one sector of the entry. */
  function SectorsBefore(entry: seq<byte>, i: nat): nat {
    if i == 0 then 0
    else SectorsBefore(entry, i - 1) + if SignatureAt(entry, 64 + (i - 1) * 32, DESC) then 1 else 0
  }

  /** The run, if any, that descriptor `i` contributes. */
  function DescriptorRuns(entry: seq<byte>, i: nat): (r: seq<Run>)
    ensures forall k :: 0 <= k < |r| ==>
              r[k].offset < TWO64 && (r[k].sector ==> |r[k].bytes| == SECTOR)
  {
    var at := 64 + i * 32;
    if SignatureAt(entry, at, DESC) then
      var from := SectorBase(entry) + SectorsBefore(entry, i) * SECTOR;
      if from + SECTOR <= |entry| then [Run(LeU64(entry, at + 24), entry[from..from + SECTOR], true)] else []
    else if SignatureAt(entry, at, ZERO) && LeU64(entry, at + 8) > 0 then
      [Run(LeU64(entry, at + 16), Zeros(LeU64(entry, at + 8)), false)]
    else []
  }

  function RunsUpTo(entry: seq<byte>, n: nat): (r: seq<Run>)
    ensures forall k :: 0 <= k < |r| ==>
              r[k].offset < TWO64 && (r[k].sector ==> |r[k].bytes| == SECTOR)
  {
    if n == 0 then [] else RunsUpTo(entry, n - 1) + DescriptorRuns(entry, n - 1)
  }

  function EntryRuns(entry: seq<byte>): seq<Run> { RunsUpTo(entry, DescriptorCount(entry)) }

  predicate Trips(runs: seq<Run>, t: Trap) {
    exists k :: 0 <= k < |runs| && runs[k].Trips(t)
  }

  lemma {:induction false} RunsPrefix(entry: seq<byte>, i: nat, n: nat)
    requires i <= n
    ensures RunsUpTo(entry, i) <= RunsUpTo(entry, n)
  {
    hide DescriptorRuns;
    if i < n {
      RunsPrefix(entry, i, n - 1);
    }
  }

  lemma TripsPrefix(entry: seq<byte>, i: nat, t: Trap)
    requires i <= DescriptorCount(entry) && Trips(RunsUpTo(entry, i), t)
    ensures Trips(EntryRuns(entry), t)
  {
    hide DescriptorRuns;
    RunsPrefix(entry, i, DescriptorCount(entry));
    var k :| 0 <= k < |RunsUpTo(entry, i)| && RunsUpTo(entry, i)[k].Trips(t);
    assert EntryRuns(entry)[k] == RunsUpTo(entry, i)[k];
  }

  /**
   Replay one entry in place. It panics exactly when the descriptor table runs past the
   entry or the end of a data sector overflows; otherwise the container is rewritten by
   the entry's runs.
   */
  method ApplyEntry(data: array<byte>, entry: seq<byte>) returns (panicked: bool)
    requires data.Length < TWO63
    modifies data
    ensures panicked == (!TableFits(entry) || Trips(EntryRuns(entry), SectorEnd))
    ensures !panicked ==> data[..] == InPlace(old(data[..]), EntryRuns(entry))
  {
    hide LeU32, LeU64, DescriptorRuns, InPlace;
    var count := DescriptorCount(entry);
    var sectorIdx := 0;
    NoRuns(data[..]);
    for i := 0 to count
      invariant sectorIdx == SectorsBefore(entry, i)
      invariant i > 0 ==> 64 + i * 32 <= |entry|
      invariant !Trips(RunsUpTo(entry, i), SectorEnd)
      invariant data[..] == InPlace(old(data[..]), RunsUpTo(entry, i))
    {
      if |entry| < 64 + (i + 1) * 32 {
        return true;
      }
      InPlaceConcat(old(data[..]), RunsUpTo(entry, i), DescriptorRuns(entry, i));
      TripsNext(entry, i, SectorEnd);
      panicked := ApplyDescriptor(data, entry, i, sectorIdx);
      if panicked {
        TripsPrefix(entry, i + 1, SectorEnd);
        return true;
      }
      if entry[64 + i * 32..64 + i * 32 + 4] == DESC {
        sectorIdx := sectorIdx + 1;
      }
    }
    return false;
  }

  lemma TripsNext(entry: seq<byte>, i: nat, t: Trap)
    ensures Trips(RunsUpTo(entry, i + 1), t) <==> Trips(RunsUpTo(entry, i), t) || Trips(DescriptorRuns(entry, i), t)
  {
    hide DescriptorRuns;
    TripsConcat(RunsUpTo(entry, i), DescriptorRuns(entry, i), t);
  }

  lemma TripsConcat(a: seq<Run>, b: seq<Run>, t: Trap)
    ensures Trips(a + b, t) <==> Trips(a, t) || Trips(b, t)
  {
    assert forall k :: 0 <= k < |a| ==> (a + b)[k] == a[k];
    assert forall k :: 0 <= k < |b| ==> (a + b)[|a| + k] == b[k];
  }

  method ApplyDescriptor(data: array<byte>, entry: seq<byte>, i: nat, sectorIdx: nat)
    returns (panicked: bool)
    requires 64 + (i + 1) * 32 <= |entry| && sectorIdx == SectorsBefore(entry, i)
    requires data.Length < TWO63
    modifies data
    ensures panicked == Trips(DescriptorRuns(entry, i), SectorEnd)
    ensures !panicked ==> data[..] == InPlace(old(data[..]), DescriptorRuns(entry, i))
  {
    hide LeU32, LeU64, InPlace, Trips, SectorsBefore;
    NoRuns(data[..]);
    NoTrip(SectorEnd);
    var at := 64 + i * 32;
    if entry[at..at + 4] == DESC {
      var fileOff, from := LeU64(entry, at + 24), SectorBase(entry) + sectorIdx * SECTOR;
      if from + SECTOR <= |entry| {
        panicked := ApplySector(data, fileOff, entry[from..from + SECTOR]);
        return;
      }
    } else if entry[at..at + 4] == ZERO {
      var zeroLen, fileOff := LeU64(entry, at + 8), LeU64(entry, at + 16);
      ApplyZero(data, fileOff, zeroLen);
      ZeroNoSector(fileOff, Zeros(zeroLen));
    }
    return false;
  }

  lemma ZeroNoSector(offset: nat, bytes: seq<byte>)
    ensures !Trips([Run(offset, bytes, false)], SectorEnd)
  {}

  method ApplySector(data: array<byte>, fileOff: u64, sector: seq<byte>) returns (panicked: bool)
    requires |sector| == SECTOR
    modifies data
    ensures panicked == Trips([Run(fileOff, sector, true)], SectorEnd)
    ensures !panicked ==> data[..] == InPlace(old(data[..]), [Run(fileOff, sector, true)])
  {
    var run := Run(fileOff, sector, true);
    OneRun(data[..], run);
    if fileOff + SECTOR >= TWO64 {
      assert [run][0].Trips(SectorEnd);
      return true;
    }
    if fileOff + SECTOR <= data.Length {
      CopyInto(data, fileOff, sector);
      assert data[..] == Overwrite(old(data[..]), 0, run);
    }
    return false;
  }

  method ApplyZero(data: array<byte>, fileOff: u64, zeroLen: u64)
    requires data.Length < TWO63
    modifies data
    ensures data[..] == InPlace(old(data[..]),
                                if zeroLen > 0 then [Run(fileOff, Zeros(zeroLen), false)] else [])
  {
    NoRuns(data[..]);
    if fileOff < data.Length {
      FillZero(data, fileOff, Min(Min(fileOff + zeroLen, TWO64 - 1), data.Length));
    }
    if zeroLen > 0 {
      ghost var run := Run(fileOff, Zeros(zeroLen), false);
      OneRun(old(data[..]), run);
      assert data[..] == Overwrite(old(data[..]), 0, run);
    } else {
      assert data[..] == old(data[..]);
    }
  }

  lemma NoRuns(img: seq<byte>)
    ensures InPlace(img, []) == img
  {}

  lemma OneRun(img: seq<byte>, run: Run)
    ensures InPlace(img, [run]) == if run.Applies(|img|) then Overwrite(img, 0, run) else img
  {
    assert [run][..0] == [];
    assert InPlace(img, []) == img;
  }

  method FillZero(data: array<byte>, from: nat, to: nat)
    requires from <= data.Length && to <= data.Length
    modifies data
    ensures forall p :: 0 <= p < data.Length ==>
              data[p] == if from <= p < to then 0 else old(data[p])
  {
    var i := from;
    while i < to
      invariant from <= i && (i <= to || i == from)
      invariant forall p :: 0 <= p < data.Length ==>
                  data[p] == if from <= p < i then 0 else old(data[p])
    {
      data[i] := 0;
      i := i + 1;
    }
  }

  /** The committed sectors of a dirty log, kept beside the container. */
  class LogOverlay {
    var runs: seq<Run>

    constructor ()
      ensures runs == []
    {
      runs := [];
    }

    method Push(run: Run)
      modifies this
      ensures runs == old(runs) + if |run.bytes| == 0 then [] else [run]
    {
      if |run.bytes| == 0 {
        return;
      }
      runs := runs + [run];
    }
  }

  /**
   Record one entry's runs. It panics exactly when the descriptor table runs past the entry or
   a zero descriptor asks for more than can be allocated.
   */
  method OverlayEntry(overlay: LogOverlay, entry: seq<byte>) returns (panicked: bool)
    modifies overlay
    ensures panicked == (!TableFits(entry) || Trips(EntryRuns(entry), ZeroLength))
    ensures !panicked ==> overlay.runs == old(overlay.runs) + EntryRuns(entry)
  {
    hide LeU32, LeU64, DescriptorRuns, Trips;
    var count := DescriptorCount(entry);
    var sectorIdx := 0;
    NoTrip(ZeroLength);
    for i := 0 to count
      invariant sectorIdx == SectorsBefore(entry, i)
      invariant i > 0 ==> 64 + i * 32 <= |entry|
      invariant !Trips(RunsUpTo(entry, i), ZeroLength)
      invariant overlay.runs == old(overlay.runs) + RunsUpTo(entry, i)
    {
      if |entry| < 64 + (i + 1) * 32 {
        return true;
      }
      TripsNext(entry, i, ZeroLength);
      panicked := OverlayDescriptor(overlay, entry, i, sectorIdx);
      if panicked {
        TripsPrefix(entry, i + 1, ZeroLength);
        return true;
      }
      if entry[64 + i * 32..64 + i * 32 + 4] == DESC {
        sectorIdx := sectorIdx + 1;
      }
    }
    return false;
  }

  lemma NoTrip(t: Trap)
    ensures !Trips([], t)
  {}

  method OverlayDescriptor(overlay: LogOverlay, entry: seq<byte>, i: nat, sectorIdx: nat)
    returns (panicked: bool)
    requires 64 + (i + 1) * 32 <= |entry| && sectorIdx == SectorsBefore(entry, i)
    modifies overlay
    ensures panicked == Trips(DescriptorRuns(entry, i), ZeroLength)
    ensures !panicked ==> overlay.runs == old(overlay.runs) + DescriptorRuns(entry, i)
  {
    hide LeU32, LeU64;
    var at := 64 + i * 32;
    if entry[at..at + 4] == DESC {
      var fileOff, from := LeU64(entry, at + 24), SectorBase(entry) + sectorIdx * SECTOR;
      if from + SECTOR <= |entry| {
        overlay.Push(Run(fileOff, entry[from..from + SECTOR], true));
      }
    } else if entry[at..at + 4] == ZERO {
      var zeroLen, fileOff := LeU64(entry, at + 8), LeU64(entry, at + 16);
      if zeroLen >= TWO63 {
        assert DescriptorRuns(entry, i)[0].Trips(ZeroLength);
        return true;
      }
      if zeroLen > 0 {
        overlay.Push(Run(fileOff, Zeros(zeroLen), false));
      }
    }
    return false;
  }

  // ── Walking the log ───────────────────────────────────────────────────────

  function EntryLength(log: seq<byte>, pos: nat): nat { LeU32(log, pos + 8) }

  /** A well-formed entry starts at `pos`. */
  predicate EntryFits(log: seq<byte>, pos: nat) {
    && pos + 64 <= |log|
    && SignatureAt(log, pos, LOGE)
    && 64 <= EntryLength(log, pos)
    && pos + EntryLength(log, pos) <= |log|
  }

  /** Positions of the entries met walking the log from `pos`. */
  function Walk(log: seq<byte>, pos: nat): (w: seq<nat>)
    ensures forall k :: 0 <= k < |w| ==> pos <= w[k] && EntryFits(log, w[k])
    decreases |log| - pos
  {
    if EntryFits(log, pos) then [pos] + Walk(log, pos + EntryLength(log, pos)) else []
  }

  function EntryAt(log: seq<byte>, pos: nat): (e: seq<byte>)
    requires EntryFits(log, pos)
    ensures |e| >= 64
  {
    log[pos..pos + EntryLength(log, pos)]
  }

  /** An entry is replayed if its checksum verifies and it names the header's log. */
  predicate Replayable(entry: seq<byte>, guid: seq<byte>)
    requires |entry| >= 64
  {
    ChecksumOk(entry) && Guid(entry, 32) == guid
  }

  predicate AllFit(log: seq<byte>, at: seq<nat>) {
    forall k :: 0 <= k < |at| ==> EntryFits(log, at[k])
  }

  /** The replayable entries among those at the given positions, in order. */
  function Kept(log: seq<byte>, at: seq<nat>, guid: seq<byte>): (es: seq<seq<byte>>)
    requires AllFit(log, at)
    ensures forall k :: 0 <= k < |es| ==> |es[k]| >= 64 && Replayable(es[k], guid)
  {
    if |at| == 0 then []
    else
      var before := Kept(log, at[..|at| - 1], guid);
      var e := EntryAt(log, at[|at| - 1]);
      if Replayable(e, guid) then before + [e] else before
  }

  // ── Replay order ──────────────────────────────────────────────────────────

  function Sequence(entry: seq<byte>): u64 { LeU64(entry, 16) }

  /** Insert after every entry whose sequence number is not greater. */
  function Insert(sorted: seq<seq<byte>>, e: seq<byte>): (r: seq<seq<byte>>)
    ensures |r| == |sorted| + 1
  {
    if |sorted| == 0 || Sequence(sorted[|sorted| - 1]) <= Sequence(e) then sorted + [e]
    else Insert(sorted[..|sorted| - 1], e) + [sorted[|sorted| - 1]]
  }

  /** The library's stable sort by sequence number. */
  function SortBySequence(es: seq<seq<byte>>): (r: seq<seq<byte>>)
    ensures |r| == |es|
  {
    if |es| == 0 then [] else Insert(SortBySequence(es[..|es| - 1]), es[|es| - 1])
  }

  predicate Ascending(es: seq<seq<byte>>) {
    forall i, j :: 0 <= i < j < |es| ==> Sequence(es[i]) <= Sequence(es[j])
  }

  /** The entries with sequence number `k`, in order. */
  function WithSequence(es: seq<seq<byte>>, k: u64): seq<seq<byte>> {
    if |es| == 0 then []
    else
      var last := es[|es| - 1];
      WithSequence(es[..|es| - 1], k) + if Sequence(last) == k then [last] else []
  }

  lemma {:induction false} WithSequenceConcat(a: seq<seq<byte>>, b: seq<seq<byte>>, k: u64)
    ensures WithSequence(a + b, k) == WithSequence(a, k) + WithSequence(b, k)
  {
    hide LeU64;
    if |b| == 0 {
      assert a + b == a;
    } else {
      assert (a + b)[..|a + b| - 1] == a + b[..|b| - 1];
      WithSequenceConcat(a, b[..|b| - 1], k);
    }
  }

  lemma OneWithSequence(e: seq<byte>, k: u64)
    ensures WithSequence([e], k) == if Sequence(e) == k then [e] else []
  {
    hide LeU64;
    assert [e][..0] == [];
    assert WithSequence([], k) == [];
  }

  lemma {:induction false} InsertAscending(sorted: seq<seq<byte>>, e: seq<byte>)
    requires Ascending(sorted)
    ensures Ascending(Insert(sorted, e))
    ensures forall x :: x in Insert(sorted, e) ==> x in sorted || x == e
  {
    hide LeU64;
    if |sorted| > 0 && Sequence(sorted[|sorted| - 1]) > Sequence(e) {
      var init, last := sorted[..|sorted| - 1], sorted[|sorted| - 1];
      InsertAscending(init, e);
      var r := Insert(init, e);
      forall i | 0 <= i < |r|
        ensures Sequence(r[i]) <= Sequence(last)
      {
        assert r[i] in r;
      }
      assert Ascending(r + [last]);
    }
  }

  lemma {:induction false} InsertKeepsGroups(sorted: seq<seq<byte>>, e: seq<byte>, k: u64)
    ensures WithSequence(Insert(sorted, e), k) == WithSequence(sorted, k) + WithSequence([e], k)
  {
    hide LeU64, WithSequence;
    if |sorted| == 0 || Sequence(sorted[|sorted| - 1]) <= Sequence(e) {
      WithSequenceConcat(sorted, [e], k);
    } else {
      var init, last := sorted[..|sorted| - 1], sorted[|sorted| - 1];
      assert sorted == init + [last];
      InsertKeepsGroups(init, e, k);
      WithSequenceConcat(Insert(init, e), [last], k);
      WithSequenceConcat(init, [last], k);
      OneWithSequence(e, k);
      OneWithSequence(last, k);
    }
  }

  /** The sort is a sort, and keeps entries of equal sequence number in log order. */
  lemma {:induction false} SortIsStable(es: seq<seq<byte>>, k: u64)
    ensures Ascending(SortBySequence(es))
    ensures forall x :: x in SortBySequence(es) ==> x in es
    ensures WithSequence(SortBySequence(es), k) == WithSequence(es, k)
  {
    hide LeU64, WithSequence, Insert;
    if |es| > 0 {
      var init, last := es[..|es| - 1], es[|es| - 1];
      SortIsStable(init, k);
      InsertAscending(SortBySequence(init), last);
      InsertKeepsGroups(SortBySequence(init), last, k);
      WithSequenceConcat(init, [last], k);
      assert es == init + [last];
    } else {
      assert SortBySequence(es) == es;
    }
  }

  /** Ascending order and the groups of equal sequence number determine the replay order. */
  lemma {:induction false} StableOrderUnique(a: seq<seq<byte>>, b: seq<seq<byte>>)
    requires Ascending(a) && Ascending(b)
    requires forall k: u64 :: WithSequence(a, k) == WithSequence(b, k)
    ensures a == b
  {
    hide LeU64, WithSequence;
    if |a| > 0 || |b| > 0 {
      SameLast(a, b);
      var a', b' := a[..|a| - 1], b[..|b| - 1];
      forall k: u64
        ensures WithSequence(a', k) == WithSequence(b', k)
      {
        assert WithSequence(a, k) == WithSequence(b, k);
        DropFromGroup(a, k);
        DropFromGroup(b, k);
      }
      StableOrderUnique(a', b');
      assert a == a' + [a[|a| - 1]] && b == b' + [b[|b| - 1]];
    }
  }

  lemma SameLast(a: seq<seq<byte>>, b: seq<seq<byte>>)
    requires Ascending(a) && Ascending(b) && (|a| > 0 || |b| > 0)
    requires forall k: u64 :: WithSequence(a, k) == WithSequence(b, k)
    ensures |a| > 0 && |b| > 0 && a[|a| - 1] == b[|b| - 1]
  {
    hide LeU64, WithSequence;
    if |a| > 0 {
      LastOfGroup(a);
      assert WithSequence(b, Sequence(a[|a| - 1])) != [];
      InGroup(b, Sequence(a[|a| - 1]));
    }
    if |b| > 0 {
      LastOfGroup(b);
      assert WithSequence(a, Sequence(b[|b| - 1])) != [];
      InGroup(a, Sequence(b[|b| - 1]));
    }
    assert Sequence(a[|a| - 1]) == Sequence(b[|b| - 1]);
  }

  lemma DropFromGroup(es: seq<seq<byte>>, k: u64)
    requires |es| > 0
    ensures var g := WithSequence(es, k);
            WithSequence(es[..|es| - 1], k)
            == if Sequence(es[|es| - 1]) == k && |g| > 0 then g[..|g| - 1] else g
  {
    hide LeU64;
  }

  lemma LastOfGroup(es: seq<seq<byte>>)
    requires |es| > 0
    ensures var g := WithSequence(es, Sequence(es[|es| - 1]));
            |g| > 0 && g[|g| - 1] == es[|es| - 1]
  {
    hide LeU64;
  }

  /** A non-empty group has a member in the list. */
  lemma {:induction false} InGroup(es: seq<seq<byte>>, k: u64)
    ensures WithSequence(es, k) != [] ==> exists i :: 0 <= i < |es| && Sequence(es[i]) == k
  {
    hide LeU64;
    if |es| > 0 && Sequence(es[|es| - 1]) != k {
      InGroup(es[..|es| - 1], k);
      if WithSequence(es, k) != [] {
        var i :| 0 <= i < |es| - 1 && Sequence(es[..|es| - 1][i]) == k;
        assert Sequence(es[i]) == k;
      }
    }
  }

  /** A log already in sequence order is replayed in log order. */
  lemma {:induction false} SortedIsIdentity(es: seq<seq<byte>>)
    requires Ascending(es)
    ensures SortBySequence(es) == es
  {
    hide LeU64;
    if |es| > 0 {
      SortedIsIdentity(es[..|es| - 1]);
      assert es == es[..|es| - 1] + [es[|es| - 1]];
    }
  }

  /** The entries to replay, in replay order. */
  function Committed(log: seq<byte>, guid: seq<byte>): (es: seq<seq<byte>>) {
    SortBySequence(Kept(log, Walk(log, 0), guid))
  }

  lemma KeptNone(log: seq<byte>, guid: seq<byte>)
    ensures AllFit(log, []) && Kept(log, [], guid) == []
  {}

  lemma KeptOneMore(log: seq<byte>, at: seq<nat>, pos: nat, guid: seq<byte>)
    requires AllFit(log, at) && EntryFits(log, pos)
    ensures AllFit(log, at + [pos])
    ensures var e := EntryAt(log, pos);
            Kept(log, at + [pos], guid)
            == Kept(log, at, guid) + if Replayable(e, guid) then [e] else []
  {
    hide Crc32c, LeU32, ChecksumOk;
    assert (at + [pos])[..|at|] == at;
  }

  /** One step of the walk, which has come through the positions `done`. */
  lemma WalkStep(log: seq<byte>, done: seq<nat>, pos: nat)
    ensures EntryFits(log, pos) ==> done + Walk(log, pos) == done + [pos] + Walk(log, pos + EntryLength(log, pos))
    ensures !EntryFits(log, pos) ==> done + Walk(log, pos) == done
  {
    hide LeU32;
  }

  method CollectEntries(log: seq<byte>, guid: seq<byte>) returns (es: seq<seq<byte>>)
    ensures es == Committed(log, guid)
  {
    hide Crc32c, LeU32, LeU64, SortBySequence, Kept, ChecksumOk, Walk, AllFit, Guid;
    var entries: seq<seq<byte>> := [];
    ghost var done: seq<nat> := [];
    var pos := 0;
    KeptNone(log, guid);
    while true
      invariant AllFit(log, done) && Walk(log, 0) == done + Walk(log, pos)
      invariant entries == Kept(log, done, guid)
      decreases |log| - pos
    {
      WalkStep(log, done, pos);
      if pos + 64 > |log| || log[pos..pos + 4] != LOGE {
        break;
      }
      var len := LeU32(log, pos + 8);
      if len < 64 || pos + len > |log| {
        break;
      }
      var entry := log[pos..pos + len];
      var ok := VerifyCrc32c(entry);
      if ok && Guid(entry, 32) == guid {
        entries := entries + [entry];
      }
      KeptOneMore(log, done, pos, guid);
      done := done + [pos];
      pos := pos + len;
    }
    assert done == Walk(log, 0);
    es := SortBySequence(entries);
  }

  // ── The whole log ─────────────────────────────────────────────────────────

  predicate TablesFit(es: seq<seq<byte>>) {
    forall k :: 0 <= k < |es| ==> TableFits(es[k])
  }

  function LogRuns(es: seq<seq<byte>>): (r: seq<Run>)
    ensures forall k :: 0 <= k < |r| ==>
              r[k].offset < TWO64 && (r[k].sector ==> |r[k].bytes| == SECTOR)
  {
    if |es| == 0 then [] else LogRuns(es[..|es| - 1]) + EntryRuns(es[|es| - 1])
  }

  /** The runs a header's log asks to replay: none for a clean image. */
  function HeaderRuns(data: seq<byte>, h: LogHeader): (r: Result<seq<Run>>)
    requires |data| < TWO63
    ensures r.Ok? ==> forall k :: 0 <= k < |r.value| ==>
              r.value[k].offset < TWO64 && (r.value[k].sector ==> |r.value[k].bytes| == SECTOR)
  {
    if h.logLength == 0 || h.logGuid == Zeros(16) then Ok([])
    else if |data| < Min(h.logOffset + h.logLength, TWO64 - 1) then Err(OffsetOutOfBounds)
    else
      var es := Committed(data[h.logOffset..h.logOffset + h.logLength], h.logGuid);
      if TablesFit(es) then Ok(LogRuns(es)) else Err(Panic)
  }

  /** The same as an overlay: a zero run too long to allocate panics. */
  function OverlayRuns(data: seq<byte>, h: LogHeader): (r: Result<seq<Run>>)
    requires |data| < TWO63
    ensures r.Ok? ==> r == HeaderRuns(data, h)
    ensures r.Ok? ==> forall k :: 0 <= k < |r.value| ==> r.value[k].offset < TWO64
  {
    var runs :- HeaderRuns(data, h);
    if Trips(runs, ZeroLength) then Err(Panic) else Ok(runs)
  }

  function ReplayRuns(data: seq<byte>): (r: Result<seq<Run>>)
    requires |data| < TWO63
    ensures r.Ok? ==> forall k :: 0 <= k < |r.value| ==>
              r.value[k].offset < TWO64 && (r.value[k].sector ==> |r.value[k].bytes| == SECTOR)
  {
    var h :- ActiveHeader(data);
    HeaderRuns(data, h)
  }

  /** The container after in-place replay. */
  function Applied(data: seq<byte>): (r: Result<seq<byte>>)
    requires |data| < TWO63
    ensures r.Ok? ==> |r.value| == |data|
  {
    var runs :- ReplayRuns(data);
    if Trips(runs, SectorEnd) then Err(Panic) else Ok(InPlace(data, runs))
  }

  /** Replay the given entries into the container, in order. */
  method ApplyEntries(data: array<byte>, es: seq<seq<byte>>) returns (panicked: bool)
    requires data.Length < TWO63
    modifies data
    ensures panicked == (!TablesFit(es) || Trips(LogRuns(es), SectorEnd))
    ensures !panicked ==> data[..] == InPlace(old(data[..]), LogRuns(es))
  {
    hide LeU32, EntryRuns, InPlace, TableFits;
    NoRuns(data[..]);
    for k := 0 to |es|
      invariant TablesFit(es[..k]) && !Trips(LogRuns(es[..k]), SectorEnd)
      invariant data[..] == InPlace(old(data[..]), LogRuns(es[..k]))
    {
      assert es[..k + 1][..k] == es[..k];
      TripsConcat(LogRuns(es[..k]), EntryRuns(es[k]), SectorEnd);
      InPlaceConcat(old(data[..]), LogRuns(es[..k]), EntryRuns(es[k]));
      panicked := ApplyEntry(data, es[k]);
      if panicked {
        if TablesFit(es) {
          LogRunsTrip(es, k + 1, SectorEnd);
        }
        return true;
      }
    }
    assert es[..|es|] == es;
    return false;
  }

  lemma {:induction false} LogRunsTrip(es: seq<seq<byte>>, k: nat, t: Trap)
    requires k <= |es| && Trips(LogRuns(es[..k]), t)
    ensures Trips(LogRuns(es), t)
    decreases |es| - k
  {
    hide EntryRuns;
    if k == |es| {
      assert es[..k] == es;
    } else {
      assert es[..k + 1][..k] == es[..k];
      TripsConcat(LogRuns(es[..k]), EntryRuns(es[k]), t);
      LogRunsTrip(es, k + 1, t);
    }
  }

  /** Fold a dirty log into the whole container. */
  method Apply(data: array<byte>) returns (r: Result<()>)
    requires data.Length < TWO63
    modifies data
    ensures match Applied(old(data[..]))
            case Ok(after) => r == Ok(()) && data[..] == after
            case Err(e) => r == Err(e)
  {
    hide Crc32c, LeU32, LeU64, HeaderOk, Committed, InPlace, LogRuns, TablesFit, Trips;
    var h := ParseActiveHeader(data[..]);
    if h.Err? {
      return Err(h.error);
    }
    var header := h.value;
    if header.logLength == 0 || header.logGuid == Zeros(16) {
      NoTrip(SectorEnd);
      NoRuns(data[..]);
      return Ok(());
    }
    var logEnd := Min(header.logOffset + header.logLength, TWO64 - 1);
    if data.Length < logEnd {
      return Err(OffsetOutOfBounds);
    }
    var es := CollectEntries(data[header.logOffset..logEnd], header.logGuid);
    assert data[header.logOffset..logEnd] == data[..][header.logOffset..logEnd];
    var panicked := ApplyEntries(data, es);
    return if panicked then Err(Panic) else Ok(());
  }

  /** Record a dirty log's runs; reads the log region of the backing and nothing else. */
  method BuildOverlay(backing: Backing, header: LogHeader) returns (r: Result<LogOverlay>)
    requires backing.Sound()
    modifies backing.Sources()
    ensures match OverlayRuns(backing.Window(), header)
            case Ok(runs) => r.Ok? && fresh(r.value) && r.value.runs == runs
            case Err(e) => r == Err(e)
  {
    hide LeU32, LeU64, Committed, LogRuns, TablesFit, Trips;
    if header.logLength == 0 || header.logGuid == Zeros(16) {
      NoTrip(ZeroLength);
      var none := new LogOverlay();
      return Ok(none);
    }
    var logEnd := Min(header.logOffset + header.logLength, TWO64 - 1);
    if backing.Len() < logEnd {
      return Err(OffsetOutOfBounds);
    }
    var log := backing.ReadExactAt(header.logOffset, header.logLength);
    if |log| < header.logLength {
      return Err(OffsetOutOfBounds);
    }
    var es := CollectEntries(log, header.logGuid);
    var overlay := new LogOverlay();
    var panicked := OverlayEntries(overlay, es);
    return if panicked then Err(Panic) else Ok(overlay);
  }

  method OverlayEntries(overlay: LogOverlay, es: seq<seq<byte>>) returns (panicked: bool)
    modifies overlay
    ensures panicked == (!TablesFit(es) || Trips(LogRuns(es), ZeroLength))
    ensures !panicked ==> overlay.runs == old(overlay.runs) + LogRuns(es)
  {
    hide EntryRuns, TableFits, Trips;
    NoTrip(ZeroLength);
    for k := 0 to |es|
      invariant TablesFit(es[..k]) && !Trips(LogRuns(es[..k]), ZeroLength)
      invariant overlay.runs == old(overlay.runs) + LogRuns(es[..k])
    {
      assert es[..k + 1][..k] == es[..k];
      TripsConcat(LogRuns(es[..k]), EntryRuns(es[k]), ZeroLength);
      panicked := OverlayEntry(overlay, es[k]);
      if panicked {
        if TablesFit(es) {
          LogRunsTrip(es, k + 1, ZeroLength);
        }
        return true;
      }
    }
    assert es[..|es|] == es;
    return false;
  }

  /** No run reaches into `[lo, hi)`. */
  predicate Avoids(runs: seq<Run>, lo: nat, hi: nat) {
    forall k, p :: 0 <= k < |runs| && lo <= p < hi ==> !runs[k].Covers(p)
  }

  lemma AvoidsKeeps(img: seq<byte>, runs: seq<Run>, lo: nat, hi: nat)
    requires lo <= hi <= |img| && Avoids(runs, lo, hi)
    ensures InPlace(img, runs)[lo..hi] == img[lo..hi]
  {
    forall p | lo <= p < hi
      ensures InPlace(img, runs)[p] == img[p]
    {
      Untouched(img, runs, p);
    }
  }

  /** Replay is idempotent on a log that rewrites neither the headers nor itself. */
  lemma ApplyIdempotent(data: seq<byte>)
    requires HEADER2 + HEADER_SIZE <= |data| < TWO63 && Applied(data).Ok?
    requires var h, runs := ActiveHeader(data).value, ReplayRuns(data).value;
             && Avoids(runs, HEADER1, HEADER1 + HEADER_SIZE)
             && Avoids(runs, HEADER2, HEADER2 + HEADER_SIZE)
             && Avoids(runs, h.logOffset, h.logOffset + h.logLength)
    ensures Applied(Applied(data).value) == Applied(data)
  {
    hide Crc32c, LeU32, LeU64, HeaderOk, Committed, InPlace, LogRuns, TablesFit, Trips;
    var h, runs, after := ActiveHeader(data).value, ReplayRuns(data).value, Applied(data).value;
    AvoidsKeeps(data, runs, HEADER1, HEADER1 + HEADER_SIZE);
    AvoidsKeeps(data, runs, HEADER2, HEADER2 + HEADER_SIZE);
    ActiveHeaderFrame(data, after);
    if h.logLength != 0 && h.logGuid != Zeros(16) {
      AvoidsKeeps(data, runs, h.logOffset, h.logOffset + h.logLength);
    }
    InPlaceIdempotent(data, runs);
  }
}
