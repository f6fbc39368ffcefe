/** The log in plain arithmetic on its bytes: entries, descriptors, sectors and replay order. */
module LogFormat {
  import opened Bytes
  import opened Crc
  import opened Header
  import opened Replay
  import opened Log
  import LogCheck

  // ── Descriptors ───────────────────────────────────────────────────────────

  /** Descriptor `i` starts with "desc". */
  predicate IsData(entry: seq<byte>, i: nat) {
    SignatureAt(entry, 64 + 32 * i, [0x64, 0x65, 0x73, 0x63])
  }

  /** The data descriptors among the first `i`. */
  function DataBelow(entry: seq<byte>, i: nat): set<nat> {
    set j: nat | j < i && IsData(entry, j)
  }

  lemma SectorsStep(entry: seq<byte>, i: nat)
    ensures SectorsBefore(entry, 0) == 0
    ensures SectorsBefore(entry, i + 1) == SectorsBefore(entry, i) + if IsData(entry, i) then 1 else 0
  {
    assert 64 + 32 * i == 64 + i * 32;
    hide SignatureAt;
  }

  lemma DataStep(entry: seq<byte>, i: nat)
    ensures DataBelow(entry, 0) == {}
    ensures |DataBelow(entry, i + 1)| == |DataBelow(entry, i)| + if IsData(entry, i) then 1 else 0
  {
    hide IsData;
    assert DataBelow(entry, i + 1) == DataBelow(entry, i) + if IsData(entry, i) then {i} else {};
  }

  lemma {:induction false} SectorsCounted(entry: seq<byte>, i: nat)
    ensures SectorsBefore(entry, i) == |DataBelow(entry, i)|
  {
    hide *;
    SectorsStep(entry, if i == 0 then 0 else i - 1);
    DataStep(entry, if i == 0 then 0 else i - 1);
    if i > 0 {
      SectorsCounted(entry, i - 1);
    }
  }

  /** A data descriptor whose sector, numbered among the data descriptors, lies in the entry. */
  predicate WritesSector(entry: seq<byte>, n: nat, i: nat) {
    IsData(entry, i) && 64 + 32 * n + 4096 * |DataBelow(entry, i)| + 4096 <= |entry|
  }

  predicate WritesZeros(entry: seq<byte>, i: nat) {
    SignatureAt(entry, 64 + 32 * i, [0x7A, 0x65, 0x72, 0x6F]) && LeU64(entry, 64 + 32 * i + 8) > 0
  }

  predicate Asks(entry: seq<byte>, n: nat, i: nat) { WritesSector(entry, n, i) || WritesZeros(entry, i) }

  /** What a descriptor asks for: a sector of the entry at bytes 24 to 32, or zeros at bytes 16 to 24. */
  function Asked(entry: seq<byte>, n: nat, i: nat): (r: Run)
    requires Asks(entry, n, i)
  {
    if WritesSector(entry, n, i) then
      var from := 64 + 32 * n + 4096 * |DataBelow(entry, i)|;
      Run(LeU64(entry, 64 + 32 * i + 24), entry[from..from + 4096], true)
    else Run(LeU64(entry, 64 + 32 * i + 16), Zeros(LeU64(entry, 64 + 32 * i + 8)), false)
  }

  lemma DescriptorAsks(entry: seq<byte>, i: nat)
    ensures var n := LeU32(entry, 24);
            DescriptorRuns(entry, i)
            == if Asks(entry, n, i) then [Asked(entry, n, i)] else []
  {
    hide LeU32, LeU64;
    SectorsCounted(entry, i);
    hide SectorsBefore, DataBelow;
    assert [0x64, 0x65, 0x73, 0x63][0] != [0x7A, 0x65, 0x72, 0x6F][0];
  }

  /** `at` lists, in order, the descriptors among the first `m` of `n` that ask for something. */
  ghost predicate Lists(entry: seq<byte>, n: nat, m: nat, at: seq<nat>) {
    && (forall j, k :: 0 <= j < k < |at| ==> at[j] < at[k])
    && (forall i: nat :: i in at <==> i < m && Asks(entry, n, i))
  }

  /** Going back by one descriptor. */
  lemma ListsInit(entry: seq<byte>, n: nat, m: nat, at: seq<nat>)
    requires m > 0 && Lists(entry, n, m, at)
    ensures Asks(entry, n, m - 1) ==> |at| > 0 && at[|at| - 1] == m - 1 && Lists(entry, n, m - 1, at[..|at| - 1])
    ensures !Asks(entry, n, m - 1) ==> Lists(entry, n, m - 1, at)
  {
    hide Asks;
    if Asks(entry, n, m - 1) {
      assert m - 1 in at;
      var j :| 0 <= j < |at| && at[j] == m - 1;
      assert at[|at| - 1] in at;
      var init := at[..|at| - 1];
      assert at == init + [m - 1];
      forall i: nat
        ensures i in init <==> i < m - 1 && Asks(entry, n, i)
      {
        assert i in at <==> i in init || i == m - 1;
        if i in init {
          var k :| 0 <= k < |init| && init[k] == i;
          assert at[k] < at[|at| - 1];
        }
      }
    }
  }

  lemma ListsBelow(entry: seq<byte>, n: nat, m: nat, at: seq<nat>)
    requires Lists(entry, n, m, at)
    ensures forall k :: 0 <= k < |at| ==> Asks(entry, n, at[k])
    ensures m == 0 ==> |at| == 0
  {
    hide Asks;
    forall k | 0 <= k < |at|
      ensures at[k] < m && Asks(entry, n, at[k])
    {
      assert at[k] in at;
    }
    if |at| > 0 {
      assert at[0] < m;
    }
  }

  lemma RunsStep(entry: seq<byte>, m: nat)
    ensures RunsUpTo(entry, 0) == []
    ensures var n := LeU32(entry, 24);
            RunsUpTo(entry, m + 1)
            == if Asks(entry, n, m) then RunsUpTo(entry, m) + [Asked(entry, n, m)] else RunsUpTo(entry, m)
  {
    hide LeU32, DescriptorRuns, Asks, Asked;
    DescriptorAsks(entry, m);
  }

  lemma {:induction false} RunsListed(entry: seq<byte>, m: nat, at: seq<nat>)
    requires Lists(entry, LeU32(entry, 24), m, at)
    ensures |RunsUpTo(entry, m)| == |at|
    ensures forall k :: 0 <= k < |at| ==>
              && Asks(entry, LeU32(entry, 24), at[k])
              && RunsUpTo(entry, m)[k] == Asked(entry, LeU32(entry, 24), at[k])
  {
    hide *;
    ListsBelow(entry, LeU32(entry, 24), m, at);
    RunsStep(entry, if m == 0 then 0 else m - 1);
    if m > 0 {
      ListsInit(entry, LeU32(entry, 24), m, at);
      RunsListed(entry, m - 1, if Asks(entry, LeU32(entry, 24), m - 1) then at[..|at| - 1] else at);
    }
  }

  /** An entry contributes what its descriptors ask for, in their order, and nothing else. */
  lemma EntryAsks(entry: seq<byte>, at: seq<nat>)
    requires Lists(entry, LeU32(entry, 24), LeU32(entry, 24), at)
    ensures |EntryRuns(entry)| == |at|
    ensures forall k :: 0 <= k < |at| ==>
              && Asks(entry, LeU32(entry, 24), at[k])
              && EntryRuns(entry)[k] == Asked(entry, LeU32(entry, 24), at[k])
  {
    hide LeU32, RunsUpTo, Asks, Asked, Lists;
    RunsListed(entry, LeU32(entry, 24), at);
  }

  lemma {:induction false} AllData(entry: seq<byte>, n: nat, i: nat)
    requires i <= n && forall j: nat :: j < n ==> IsData(entry, j)
    ensures |DataBelow(entry, i)| == i
  {
    hide IsData, DataBelow;
    DataStep(entry, if i == 0 then 0 else i - 1);
    if i > 0 {
      AllData(entry, n, i - 1);
    }
  }

  /** An entry of `n` data descriptors and their `n` sectors writes each sector at its own offset. */
  lemma DataEntry(entry: seq<byte>, n: nat)
    requires LeU32(entry, 24) == n && |entry| == 64 + 32 * n + 4096 * n
    requires forall i: nat :: i < n ==> entry[64 + 32 * i..64 + 32 * i + 4] == [0x64, 0x65, 0x73, 0x63]
    ensures |EntryRuns(entry)| == n
    ensures forall i :: 0 <= i < n ==>
              EntryRuns(entry)[i]
              == Run(LeU64(entry, 64 + 32 * i + 24),
                     entry[64 + 32 * n + 4096 * i..64 + 32 * n + 4096 * (i + 1)], true)
  {
    hide LeU32, LeU64, EntryRuns, Lists;
    var at := seq(n, i requires 0 <= i => i);
    forall i: nat | i < n
      ensures Asks(entry, n, i)
      ensures Asked(entry, n, i) == Run(LeU64(entry, 64 + 32 * i + 24),
                                        entry[64 + 32 * n + 4096 * i..64 + 32 * n + 4096 * (i + 1)], true)
    {
      assert forall j: nat :: j < n ==> IsData(entry, j);
      AllData(entry, n, i);
    }
    EveryListed(entry, n);
    EntryAsks(entry, at);
  }

  lemma EveryListed(entry: seq<byte>, n: nat)
    requires forall i: nat :: i < n ==> Asks(entry, n, i)
    ensures Lists(entry, n, n, seq(n, i requires 0 <= i => i))
  {
    hide Asks;
    var at := seq(n, i requires 0 <= i => i);
    forall i: nat
      ensures i in at <==> i < n
    {
      if i < n {
        assert at[i] == i;
      }
    }
  }

  /** The sectors that runs write, joined. */
  function SectorBytes(runs: seq<Run>): seq<byte> {
    if |runs| == 0 then []
    else SectorBytes(runs[..|runs| - 1]) + if runs[|runs| - 1].sector then runs[|runs| - 1].bytes else []
  }

  lemma SectorBytesOneMore(runs: seq<Run>, r: Run)
    ensures SectorBytes(runs + [r]) == SectorBytes(runs) + if r.sector then r.bytes else []
    ensures SectorBytes([]) == []
  {
    assert (runs + [r])[..|runs|] == runs;
  }

  lemma NextSlice(d: seq<byte>, a: nat, b: nat)
    requires a <= b && b + 4096 <= |d|
    ensures d[a..b] + d[b..b + 4096] == d[a..b + 4096]
  {}

  lemma {:induction false} SectorsJoin(entry: seq<byte>, m: nat)
    requires 64 + 32 * LeU32(entry, 24) + 4096 * |DataBelow(entry, m)| <= |entry|
    ensures var base := 64 + 32 * LeU32(entry, 24);
            SectorBytes(RunsUpTo(entry, m)) == entry[base..base + 4096 * |DataBelow(entry, m)|]
  {
    hide *;
    if m == 0 {
      SectorBytesOneMore([], Run(0, [], false));
      DataStep(entry, 0);
      RunsStep(entry, 0);
    } else {
      DataStep(entry, m - 1);
      SectorsJoin(entry, m - 1);
      SectorsOneMore(entry, LeU32(entry, 24), m - 1);
    }
  }

  lemma SectorsOneMore(entry: seq<byte>, n: nat, k: nat)
    requires n == LeU32(entry, 24) && 64 + 32 * n + 4096 * |DataBelow(entry, k + 1)| <= |entry|
    requires |DataBelow(entry, k)| <= |DataBelow(entry, k + 1)|
    requires SectorBytes(RunsUpTo(entry, k)) == entry[64 + 32 * n..64 + 32 * n + 4096 * |DataBelow(entry, k)|]
    ensures SectorBytes(RunsUpTo(entry, k + 1)) == entry[64 + 32 * n..64 + 32 * n + 4096 * |DataBelow(entry, k + 1)|]
  {
    hide *;
    RunsStep(entry, k);
    DataStep(entry, k);
    AskedBytes(entry, n, k);
    if Asks(entry, n, k) {
      SectorBytesOneMore(RunsUpTo(entry, k), Asked(entry, n, k));
    }
    if IsData(entry, k) {
      NextSlice(entry, 64 + 32 * n, 64 + 32 * n + 4096 * |DataBelow(entry, k)|);
    }
  }

  /** The sector bytes of one descriptor. */
  lemma AskedBytes(entry: seq<byte>, n: nat, k: nat)
    ensures var at := 64 + 32 * n + 4096 * |DataBelow(entry, k)|;
            && (IsData(entry, k) && at + 4096 <= |entry| ==>
                  Asks(entry, n, k) && Asked(entry, n, k).sector && Asked(entry, n, k).bytes == entry[at..at + 4096])
            && (!IsData(entry, k) && Asks(entry, n, k) ==> !Asked(entry, n, k).sector)
  {
    hide LeU64, IsData, DataBelow, WritesZeros;
  }

  /** When the sectors of its data descriptors fit, an entry writes all of them, in order, once each. */
  lemma EverySectorOnce(entry: seq<byte>)
    requires 64 + 32 * LeU32(entry, 24) + 4096 * |DataBelow(entry, LeU32(entry, 24))| <= |entry|
    ensures var base := 64 + 32 * LeU32(entry, 24);
            SectorBytes(EntryRuns(entry)) == entry[base..base + 4096 * |DataBelow(entry, LeU32(entry, 24))|]
  {
    hide LeU32, SectorBytes, RunsUpTo, DataBelow;
    SectorsJoin(entry, LeU32(entry, 24));
  }

  // ── Walking and ordering ──────────────────────────────────────────────────

  /** An entry starts at `pos`: it is signed "loge" and its length field keeps it inside the log. */
  predicate EntryHere(log: seq<byte>, pos: nat) {
    && pos + 64 <= |log| && log[pos..pos + 4] == [0x6C, 0x6F, 0x67, 0x65]
    && 64 <= LeU32(log, pos + 8) <= |log| - pos
  }

  /** Where an entry ends. */
  function Next(log: seq<byte>, pos: nat): nat { pos + LeU32(log, pos + 8) }

  /** Positions of adjacent entries from `from` on; the walk stops where no entry starts. */
  predicate EndToEnd(log: seq<byte>, from: nat, w: seq<nat>) {
    && (forall k :: 0 <= k < |w| ==> EntryHere(log, w[k]))
    && (forall k :: 0 < k < |w| ==> w[k] == Next(log, w[k - 1]))
    && (if |w| == 0 then !EntryHere(log, from)
        else w[0] == from && !EntryHere(log, Next(log, w[|w| - 1])))
  }

  lemma WalkHere(log: seq<byte>, pos: nat)
    ensures EntryHere(log, pos) ==> pos + 64 <= Next(log, pos) <= |log|
    ensures Walk(log, pos) == if EntryHere(log, pos) then [pos] + Walk(log, Next(log, pos)) else []
    ensures forall k :: 0 <= k < |Walk(log, pos)| ==>
              && EntryFits(log, Walk(log, pos)[k]) && EntryHere(log, Walk(log, pos)[k])
  {
    hide LeU32;
  }

  lemma FirstFits(log: seq<byte>, pos: nat, rest: seq<nat>)
    requires EntryHere(log, pos) && EndToEnd(log, Next(log, pos), rest)
    ensures EndToEnd(log, pos, [pos] + rest)
  {
    hide EntryHere, Next;
    var w := [pos] + rest;
    forall k | 0 < k < |w|
      ensures w[k] == Next(log, w[k - 1]) && EntryHere(log, w[k])
    {
      assert w[k] == rest[k - 1];
      if k > 1 {
        assert w[k - 1] == rest[k - 2];
      }
    }
  }

  lemma RestFits(log: seq<byte>, pos: nat, w: seq<nat>)
    requires EndToEnd(log, pos, w) && |w| > 0
    ensures w[0] == pos && EntryHere(log, pos) && EndToEnd(log, Next(log, pos), w[1..])
  {
    hide EntryHere, Next;
    var rest := w[1..];
    forall k | 0 < k < |rest|
      ensures rest[k] == Next(log, rest[k - 1])
    {
      assert rest[k] == w[k + 1] && rest[k - 1] == w[k];
    }
  }

  lemma {:induction false} WalkEndToEnd(log: seq<byte>, pos: nat)
    ensures EndToEnd(log, pos, Walk(log, pos))
    decreases |log| - pos
  {
    hide Next, Walk, EntryHere;
    WalkHere(log, pos);
    if EntryHere(log, pos) {
      hide EndToEnd;
      WalkEndToEnd(log, Next(log, pos));
      FirstFits(log, pos, Walk(log, Next(log, pos)));
    }
  }

  /** The walk visits exactly the positions of adjacent entries from the start of the log. */
  lemma {:induction false} WalkExactly(log: seq<byte>, pos: nat, w: seq<nat>)
    ensures EndToEnd(log, pos, w) <==> w == Walk(log, pos)
  {
    WalkEndToEnd(log, pos);
    if EndToEnd(log, pos, w) {
      EndToEndUnique(log, pos, w);
    }
  }

  lemma {:induction false} EndToEndUnique(log: seq<byte>, pos: nat, w: seq<nat>)
    requires EndToEnd(log, pos, w)
    ensures w == Walk(log, pos)
    decreases |w|
  {
    hide Next, Walk, EntryHere;
    WalkHere(log, pos);
    if |w| > 0 {
      RestFits(log, pos, w);
      hide EndToEnd;
      EndToEndUnique(log, Next(log, pos), w[1..]);
      assert w == [w[0]] + w[1..];
    }
  }

  /** The checksum over the entry with bytes 4 to 8 cleared is the number at those bytes. */
  predicate Verifies(e: seq<byte>)
    requires |e| >= 64
  {
    Crc32c(e[..4] + [0, 0, 0, 0] + e[8..]) == LeU32(e, 4)
  }

  predicate Accepted(e: seq<byte>, guid: seq<byte>)
    requires |e| >= 64
  {
    Verifies(e) && e[32..48] == guid
  }

  lemma AcceptedExactly(e: seq<byte>, guid: seq<byte>)
    requires |e| >= 64
    ensures Replayable(e, guid) <==> Accepted(e, guid)
    ensures ChecksumOk(e) <==> Verifies(e)
  {
    hide Crc32c, LeU32;
    assert e[..4] + Zeros(4) + e[8..] == e[..4] + [0, 0, 0, 0] + e[8..];
  }

  /** The bytes of the entry at `pos`. */
  function Whole(log: seq<byte>, pos: nat): (e: seq<byte>)
    requires EntryHere(log, pos)
    ensures |e| >= 64
  {
    log[pos..pos + LeU32(log, pos + 8)]
  }

  predicate AllHere(log: seq<byte>, w: seq<nat>) {
    forall k :: 0 <= k < |w| ==> EntryHere(log, w[k])
  }

  /** `at` lists, in order, the accepted entries among those at `w`. */
  ghost predicate Chosen(log: seq<byte>, guid: seq<byte>, w: seq<nat>, at: seq<nat>)
    requires AllHere(log, w)
  {
    && (forall j, k :: 0 <= j < k < |at| ==> at[j] < at[k])
    && (forall i: nat :: i in at <==> i < |w| && Accepted(Whole(log, w[i]), guid))
  }

  /** Going back by one entry. */
  lemma ChosenInit(log: seq<byte>, guid: seq<byte>, w: seq<nat>, at: seq<nat>)
    requires AllHere(log, w) && |w| > 0 && Chosen(log, guid, w, at)
    ensures var init, last := w[..|w| - 1], Whole(log, w[|w| - 1]);
            && AllHere(log, init)
            && (Accepted(last, guid) ==>
                  |at| > 0 && at[|at| - 1] == |w| - 1 && Chosen(log, guid, init, at[..|at| - 1]))
            && (!Accepted(last, guid) ==> Chosen(log, guid, init, at))
  {
    hide EntryHere, Whole, Accepted;
    var m := |w| - 1;
    if Accepted(Whole(log, w[m]), guid) {
      assert m in at;
      var j :| 0 <= j < |at| && at[j] == m;
      assert at[|at| - 1] in at;
      var init := at[..|at| - 1];
      assert at == init + [m];
      forall i: nat
        ensures i in init <==> i < m && Accepted(Whole(log, w[i]), guid)
      {
        assert i in at <==> i in init || i == m;
        if i in init {
          var k :| 0 <= k < |init| && init[k] == i;
          assert at[k] < at[|at| - 1];
        }
      }
    }
  }

  lemma EntryIsWhole(log: seq<byte>, pos: nat)
    ensures EntryFits(log, pos) <==> EntryHere(log, pos)
    ensures EntryHere(log, pos) ==> EntryAt(log, pos) == Whole(log, pos)
  {
    hide LeU32;
  }

  lemma KeptStep(log: seq<byte>, guid: seq<byte>, w: seq<nat>)
    requires AllHere(log, w) && |w| > 0
    ensures AllFit(log, w) && AllFit(log, w[..|w| - 1])
    ensures var before, e := Kept(log, w[..|w| - 1], guid), Whole(log, w[|w| - 1]);
            Kept(log, w, guid) == if Accepted(e, guid) then before + [e] else before
  {
    hide EntryHere, EntryFits, EntryAt, Whole, Accepted, Replayable;
    forall k | 0 <= k < |w|
      ensures EntryFits(log, w[k])
    {
      EntryIsWhole(log, w[k]);
    }
    EntryIsWhole(log, w[|w| - 1]);
    AcceptedExactly(Whole(log, w[|w| - 1]), guid);
  }

  lemma ChosenBelow(log: seq<byte>, guid: seq<byte>, w: seq<nat>, at: seq<nat>)
    requires AllHere(log, w) && Chosen(log, guid, w, at)
    ensures forall k :: 0 <= k < |at| ==> at[k] < |w|
    ensures |w| == 0 ==> |at| == 0
  {
    hide EntryHere, Whole, Accepted;
    forall k | 0 <= k < |at|
      ensures at[k] < |w|
    {
      assert at[k] in at;
    }
    if |at| > 0 {
      assert at[0] < |w|;
    }
  }

  /** `es` are the entries of `w` that `at` lists. */
  ghost predicate Takes(log: seq<byte>, w: seq<nat>, at: seq<nat>, es: seq<seq<byte>>) {
    && AllHere(log, w) && |es| == |at|
    && forall k :: 0 <= k < |at| ==> at[k] < |w| && es[k] == Whole(log, w[at[k]])
  }

  lemma TakesMore(log: seq<byte>, w: seq<nat>, at: seq<nat>, es: seq<seq<byte>>)
    requires AllHere(log, w) && |w| > 0 && Takes(log, w[..|w| - 1], at, es)
    ensures Takes(log, w, at, es) && Takes(log, w, at + [|w| - 1], es + [Whole(log, w[|w| - 1])])
  {
    hide EntryHere, Whole;
    assert forall k :: 0 <= k < |at| ==> w[..|w| - 1][at[k]] == w[at[k]];
  }

  lemma {:induction false} KeptTakes(log: seq<byte>, guid: seq<byte>, w: seq<nat>, at: seq<nat>)
    requires AllHere(log, w) && Chosen(log, guid, w, at)
    ensures AllFit(log, w) && Takes(log, w, at, Kept(log, w, guid))
  {
    hide *;
    if |w| == 0 {
      ChosenBelow(log, guid, w, at);
      KeptNone(log, guid);
      TakesNone(log);
    } else {
      LastHere(log, w);
      var init, last := w[..|w| - 1], Whole(log, w[|w| - 1]);
      ChosenInit(log, guid, w, at);
      KeptStep(log, guid, w);
      if Accepted(last, guid) {
        var before := at[..|at| - 1];
        KeptTakes(log, guid, init, before);
        TakesMore(log, w, before, Kept(log, init, guid));
        assert at == before + [|w| - 1];
      } else {
        KeptTakes(log, guid, init, at);
        TakesMore(log, w, at, Kept(log, init, guid));
      }
    }
  }

  lemma TakesNone(log: seq<byte>)
    ensures Takes(log, [], [], [])
  {}

  lemma LastHere(log: seq<byte>, w: seq<nat>)
    requires AllHere(log, w) && |w| > 0
    ensures EntryHere(log, w[|w| - 1])
  {}

  /** Filtering keeps the accepted entries, each once and in log order. */
  lemma KeptExactly(log: seq<byte>, guid: seq<byte>, w: seq<nat>, at: seq<nat>)
    requires AllHere(log, w) && Chosen(log, guid, w, at)
    ensures AllFit(log, w) && |Kept(log, w, guid)| == |at|
    ensures forall k :: 0 <= k < |at| ==> at[k] < |w| && Kept(log, w, guid)[k] == Whole(log, w[at[k]])
  {
    hide Chosen, Kept, EntryHere, Whole;
    KeptTakes(log, guid, w, at);
  }

  /** The replay order is ascending in the number at bytes 16 to 24. */
  lemma CommittedAscending(log: seq<byte>, guid: seq<byte>)
    ensures var es := Committed(log, guid);
            forall i, j :: 0 <= i < j < |es| ==> LeU64(es[i], 16) <= LeU64(es[j], 16)
  {
    hide LeU64, Walk, Kept, SortBySequence;
    SortIsStable(Kept(log, Walk(log, 0), guid), 0);
  }

  // ── Writing ───────────────────────────────────────────────────────────────

  /** Entries are replayed one after another. */
  lemma EntryAfterEntry(es: seq<seq<byte>>, e: seq<byte>)
    ensures LogRuns([]) == [] && LogRuns(es + [e]) == LogRuns(es) + EntryRuns(e)
  {
    hide EntryRuns;
    assert (es + [e])[..|es|] == es;
  }

  /** Writing a run over a buffer, clipped at its end. */
  lemma OverwriteIs(d: seq<byte>, run: Run)
    ensures var last := Min(run.offset + |run.bytes|, |d|);
            Overwrite(d, 0, run)
            == if run.offset < |d| then d[..run.offset] + run.bytes[..last - run.offset] + d[last..] else d
  {
    var r, last := Overwrite(d, 0, run), Min(run.offset + |run.bytes|, |d|);
    if run.offset < |d| {
      var parts := d[..run.offset] + run.bytes[..last - run.offset] + d[last..];
      assert |parts| == |d|;
      forall i | 0 <= i < |d|
        ensures r[i] == parts[i]
      {
        assert r[i] == if run.Covers(i) then run.bytes[i - run.offset] else d[i];
      }
    } else {
      assert r == d;
    }
  }

  lemma OneMoreRun(img: seq<byte>, runs: seq<Run>, run: Run)
    ensures InPlace(img, []) == img && Overlaid(img, 0, []) == img
    ensures Overlaid(img, 0, runs + [run]) == Overwrite(Overlaid(img, 0, runs), 0, run)
    ensures var before := InPlace(img, runs);
            InPlace(img, runs + [run])
            == if run.sector ==> run.offset + |run.bytes| <= |img| then Overwrite(before, 0, run) else before
  {
    hide Overwrite;
    assert (runs + [run])[..|runs|] == runs;
  }

  /** A sector is written in place when it fits, and left out otherwise. */
  lemma SectorInPlace(img: seq<byte>, runs: seq<Run>, o: nat, sector: seq<byte>)
    requires |sector| == 4096
    ensures InPlace(img, []) == img
    ensures var before := InPlace(img, runs);
            InPlace(img, runs + [Run(o, sector, true)])
            == if o + 4096 <= |img| then before[..o] + sector + before[o + 4096..] else before
  {
    hide Overwrite, InPlace;
    var run := Run(o, sector, true);
    OneMoreRun(img, runs, run);
    OverwriteIs(InPlace(img, runs), run);
    assert sector[..4096] == sector;
  }

  lemma ZerosOver(d: seq<byte>, o: nat, n: nat)
    ensures var last := Min(o + n, |d|);
            Overwrite(d, 0, Run(o, Zeros(n), false)) == if o < |d| then d[..o] + Zeros(last - o) + d[last..] else d
  {
    var r, last := Overwrite(d, 0, Run(o, Zeros(n), false)), Min(o + n, |d|);
    hide Overwrite;
    if o < |d| {
      var parts := d[..o] + Zeros(last - o) + d[last..];
      assert |parts| == |d|;
      forall i | 0 <= i < |d|
        ensures r[i] == parts[i]
      {
        assert r[i] == if o <= i < o + n then 0 else d[i];
      }
    } else {
      assert r == d;
    }
  }

  /** Zeros are written up to the end of the container. */
  lemma ZerosInPlace(img: seq<byte>, runs: seq<Run>, o: nat, n: nat)
    ensures var before, last := InPlace(img, runs), Min(o + n, |img|);
            InPlace(img, runs + [Run(o, Zeros(n), false)])
            == if o < |img| then before[..o] + Zeros(last - o) + before[last..] else before
  {
    hide Overwrite, InPlace, Zeros, Min;
    OneMoreRun(img, runs, Run(o, Zeros(n), false));
    ZerosOver(InPlace(img, runs), o, n);
  }

  /** Through the overlay any run is written up to the end of the container. */
  lemma RunOverlaid(img: seq<byte>, runs: seq<Run>, run: Run)
    ensures Overlaid(img, 0, []) == img
    ensures var before, last := Overlaid(img, 0, runs), Min(run.offset + |run.bytes|, |img|);
            Overlaid(img, 0, runs + [run])
            == if run.offset < |img| then before[..run.offset] + run.bytes[..last - run.offset] + before[last..]
               else before
  {
    hide Overwrite, Overlaid;
    OneMoreRun(img, runs, run);
    OverwriteIs(Overlaid(img, 0, runs), run);
  }

  /** The identifier of a header without a log. */
  const NO_LOG: seq<byte> := [0, 0, 0, 0, 0, 0, 0, 0, 0, 0, 0, 0, 0, 0, 0, 0]

  /**
   What a header asks to replay: nothing without a length or an identifier; an error for a log that
   is not in the container; otherwise the committed entries of the log it names, one after another.
   */
  lemma HeaderAsks(data: seq<byte>, h: LogHeader)
    requires |data| < TWO63 && |h.logGuid| == 16
    ensures h.logLength == 0 || h.logGuid == NO_LOG ==> HeaderRuns(data, h) == Ok([])
    ensures h.logLength > 0 && h.logGuid != NO_LOG ==>
              if h.logOffset + h.logLength > |data| then HeaderRuns(data, h) == Err(OffsetOutOfBounds)
              else
                var es := Committed(data[h.logOffset..h.logOffset + h.logLength], h.logGuid);
                if exists e :: e in es && 0 < LeU32(e, 24) && 64 + 32 * LeU32(e, 24) > |e| then
                  HeaderRuns(data, h) == Err(Panic)
                else HeaderRuns(data, h) == Ok(LogRuns(es))
  {
    hide Committed, LogRuns, LeU32;
    assert Zeros(16) == NO_LOG;
    if h.logLength > 0 && h.logGuid != Zeros(16) && h.logOffset + h.logLength <= |data| {
      TablesRule(Committed(data[h.logOffset..h.logOffset + h.logLength], h.logGuid));
    }
  }

  lemma TablesRule(es: seq<seq<byte>>)
    ensures TablesFit(es) <==> !exists e :: e in es && 0 < LeU32(e, 24) && 64 + 32 * LeU32(e, 24) > |e|
  {
    hide LeU32;
    forall e | e in es
      ensures TableFits(e) <==> !(0 < LeU32(e, 24) && 64 + 32 * LeU32(e, 24) > |e|)
    {
    }
    if e :| e in es && 0 < LeU32(e, 24) && 64 + 32 * LeU32(e, 24) > |e| {
      var k :| 0 <= k < |es| && es[k] == e;
      assert !TableFits(es[k]);
    }
  }

  /** The two ways to panic: a sector that would end at 2^64 or later, and 2^63 zeros or more. */
  lemma TrapsExactly(runs: seq<Run>)
    ensures Trips(runs, SectorEnd) <==>
              exists r :: r in runs && r.sector && r.offset + |r.bytes| >= 0x1_0000_0000_0000_0000
    ensures Trips(runs, ZeroLength) <==>
              exists r :: r in runs && !r.sector && |r.bytes| >= 0x8000_0000_0000_0000
  {
    if r :| r in runs && r.sector && r.offset + |r.bytes| >= 0x1_0000_0000_0000_0000 {
      var k :| 0 <= k < |runs| && runs[k] == r;
      assert runs[k].Trips(SectorEnd);
    }
    if r :| r in runs && !r.sector && |r.bytes| >= 0x8000_0000_0000_0000 {
      var k :| 0 <= k < |runs| && runs[k] == r;
      assert runs[k].Trips(ZeroLength);
    }
  }

  // ── What the analyser says of a log ───────────────────────────────────────

  /**
   An entry is reported for its checksum, or else for its identifier and for a sequence number that
   does not follow the one before, modulo 2^64.
   */
  lemma EntrySays(e: seq<byte>, at: nat, prev: Option<u64>, guid: seq<byte>, f: LogCheck.LogFinding)
    requires |e| >= 64
    ensures f in LogCheck.EntryIssues(e, at, prev, guid) <==>
              match f
              case LogEntryCrcMismatch(x) => x == at && !Verifies(e)
              case LogEntryGuidMismatch(x) => x == at && Verifies(e) && e[32..48] != guid
              case LogSequenceNumberGap(x, expected, found) =>
                && x == at && Verifies(e) && prev.Some? && expected == (prev.value + 1) % 0x1_0000_0000_0000_0000
                && found == LeU64(e, 16) && found != expected
              case _ => false
  {
    hide LeU64, LeU32, Verifies;
    AcceptedExactly(e, guid);
  }

  /** `j` is the last entry before `k` whose checksum verifies. */
  predicate Precedes(log: seq<byte>, w: seq<nat>, j: nat, k: nat)
    requires AllHere(log, w) && k <= |w|
  {
    && j < k && Verifies(Whole(log, w[j]))
    && forall m :: j < m < k ==> !Verifies(Whole(log, w[m]))
  }

  lemma HereFits(log: seq<byte>, w: seq<nat>)
    requires AllHere(log, w)
    ensures AllFit(log, w)
  {
    hide EntryHere, EntryFits;
    forall k | 0 <= k < |w|
      ensures EntryFits(log, w[k])
    {
      EntryIsWhole(log, w[k]);
    }
  }

  lemma LastStep(log: seq<byte>, w: seq<nat>)
    requires AllHere(log, w) && AllFit(log, w) && |w| > 0
    ensures var e := Whole(log, w[|w| - 1]);
            LogCheck.LastSequence(log, w)
            == if Verifies(e) then Some(LeU64(e, 16)) else LogCheck.LastSequence(log, w[..|w| - 1])
  {
    hide EntryHere, EntryFits, EntryAt, Whole, Verifies, ChecksumOk, LeU64;
    EntryIsWhole(log, w[|w| - 1]);
    AcceptedExactly(Whole(log, w[|w| - 1]), []);
  }

  /** The remembered sequence number is that of the last verified entry. */
  lemma {:induction false} LastVerified(log: seq<byte>, w: seq<nat>, j: nat)
    requires AllHere(log, w) && Precedes(log, w, j, |w|)
    ensures AllFit(log, w) && LogCheck.LastSequence(log, w) == Some(LeU64(Whole(log, w[j]), 16))
  {
    hide EntryHere, Whole, Verifies, LeU64, LogCheck.LastSequence;
    HereFits(log, w);
    LastStep(log, w);
    if j < |w| - 1 {
      LastVerified(log, w[..|w| - 1], j);
    }
  }

  lemma {:induction false} NoneVerified(log: seq<byte>, w: seq<nat>)
    requires AllHere(log, w) && forall m :: 0 <= m < |w| ==> !Verifies(Whole(log, w[m]))
    ensures AllFit(log, w) && LogCheck.LastSequence(log, w) == None
  {
    hide EntryHere, Whole, Verifies, LeU64;
    HereFits(log, w);
    if |w| > 0 {
      LastStep(log, w);
      NoneVerified(log, w[..|w| - 1]);
    }
  }

  /** A finding on the entries is a finding on one of them, given the number before it. */
  lemma {:induction false} OnOneEntry(log: seq<byte>, base: nat, w: seq<nat>, guid: seq<byte>, f: LogCheck.LogFinding)
    requires AllHere(log, w)
    ensures AllFit(log, w)
    ensures f in LogCheck.EntryFindings(log, base, w, guid) <==>
              exists k: nat :: k < |w| && AllFit(log, w[..k])
                && f in LogCheck.EntryIssues(Whole(log, w[k]), base + w[k], LogCheck.LastSequence(log, w[..k]), guid)
  {
    hide EntryHere, Whole, LogCheck.EntryIssues, LogCheck.LastSequence, AllFit;
    HereFits(log, w);
    if |w| > 0 {
      var init, m := w[..|w| - 1], |w| - 1;
      OnOneEntry(log, base, init, guid, f);
      EntryIsWhole(log, w[m]);
      assert forall k: nat :: k < m ==> init[..k] == w[..k];
    }
  }

  lemma {:induction false} Increasing(log: seq<byte>, from: nat, w: seq<nat>, j: nat, k: nat)
    requires EndToEnd(log, from, w) && j < k < |w|
    ensures w[j] < w[k]
    decreases k
  {
    hide LeU32;
    assert EntryHere(log, w[k - 1]) && w[k] == Next(log, w[k - 1]);
    if j < k - 1 {
      Increasing(log, from, w, j, k - 1);
    }
  }

  predicate AboutEntry(f: LogCheck.LogFinding) {
    f.LogEntryCrcMismatch? || f.LogEntryGuidMismatch? || f.LogSequenceNumberGap?
  }

  lemma AboutOne(f: LogCheck.LogFinding)
    ensures f.LogEntryCrcMismatch? || f.LogEntryGuidMismatch? || f.LogSequenceNumberGap? <==> AboutEntry(f)
  {}

  lemma PrefixHere(log: seq<byte>, w: seq<nat>, k: nat)
    requires AllHere(log, w) && k <= |w|
    ensures AllHere(log, w[..k]) && forall m :: 0 <= m < k ==> w[..k][m] == w[m]
  {
    hide EntryHere;
  }

  lemma OwnPosition(e: seq<byte>, at: nat, prev: Option<u64>, guid: seq<byte>, f: LogCheck.LogFinding)
    requires |e| >= 64 && f in LogCheck.EntryIssues(e, at, prev, guid)
    ensures AboutEntry(f) && f.at == at
  {
    hide LeU64, Verifies;
    EntrySays(e, at, prev, guid, f);
  }

  /** A finding at the position of entry `k` is one on that entry. */
  lemma AtEntry(log: seq<byte>, base: nat, w: seq<nat>, guid: seq<byte>, k: nat, f: LogCheck.LogFinding)
    requires EndToEnd(log, 0, w) && AllHere(log, w) && k < |w| && AboutEntry(f) && f.at == base + w[k]
    ensures AllFit(log, w) && AllFit(log, w[..k])
    ensures f in LogCheck.EntryFindings(log, base, w, guid) <==>
              f in LogCheck.EntryIssues(Whole(log, w[k]), base + w[k], LogCheck.LastSequence(log, w[..k]), guid)
  {
    hide EntryHere, Whole, LogCheck.EntryIssues, LogCheck.LastSequence, LogCheck.EntryFindings, AllFit, EndToEnd;
    HereFits(log, w);
    HereFits(log, w[..k]);
    OnOneEntry(log, base, w, guid, f);
    if f in LogCheck.EntryFindings(log, base, w, guid) {
      var m: nat :| m < |w| && AllFit(log, w[..m])
        && f in LogCheck.EntryIssues(Whole(log, w[m]), base + w[m], LogCheck.LastSequence(log, w[..m]), guid);
      OwnPosition(Whole(log, w[m]), base + w[m], LogCheck.LastSequence(log, w[..m]), guid, f);
      if m < k {
        Increasing(log, 0, w, m, k);
      } else if k < m {
        Increasing(log, 0, w, k, m);
      }
    }
  }

  lemma {:induction false} StopsAt(log: seq<byte>, pos: nat, w: seq<nat>)
    requires EndToEnd(log, pos, w)
    ensures LogCheck.WalkEnd(log, pos) == if |w| == 0 then pos else Next(log, w[|w| - 1])
    decreases |w|
  {
    hide LeU32, EntryHere, EntryFits, EntryLength;
    EntryIsWhole(log, pos);
    if |w| > 0 {
      NextIs(log, pos);
      RestFits(log, pos, w);
      StopsAt(log, Next(log, pos), w[1..]);
    }
  }

  lemma NextIs(log: seq<byte>, pos: nat)
    ensures Next(log, pos) == pos + EntryLength(log, pos)
  {}

  /** The findings on a log that is not all zeros: those on its entries, and a missing signature where they end. */
  lemma LogParts(log: seq<byte>, base: nat, w: seq<nat>, guid: seq<byte>, z: nat, f: LogCheck.LogFinding)
    requires EndToEnd(log, 0, w) && AllHere(log, w) && z < |log| && log[z] != 0
    ensures AllFit(log, w)
    ensures var end := if |w| == 0 then 0 else Next(log, w[|w| - 1]);
            f in LogCheck.LogFindings(log, base, guid) <==>
              || f in LogCheck.EntryFindings(log, base, w, guid)
              || (f == LogCheck.LogEntrySignatureMissing(base + end)
                  && end + 64 <= |log| && log[end..end + 4] != [0x6C, 0x6F, 0x67, 0x65])
  {
    hide EntryHere, EndToEnd, LogCheck.EntryFindings, LogCheck.WalkEnd, Walk, AllFit;
    HereFits(log, w);
    WalkExactly(log, 0, w);
    StopsAt(log, 0, w);
  }

  /** A log of zeros has one finding. */
  lemma ZeroedReported(log: seq<byte>, base: nat, guid: seq<byte>)
    requires forall i :: 0 <= i < |log| ==> log[i] == 0
    ensures LogCheck.LogFindings(log, base, guid) == [LogCheck.LogZeroedButDirty]
  {
    hide Walk, LogCheck.WalkEnd, LogCheck.EntryFindings;
  }

  lemma NotZero(log: seq<byte>, w: seq<nat>, k: nat)
    requires AllHere(log, w) && k < |w|
    ensures w[k] < |log| && log[w[k]] != 0 && EntryHere(log, w[k])
  {
    assert log[w[k]] == log[w[k]..w[k] + 4][0];
  }

  lemma PrecedesPrefix(log: seq<byte>, w: seq<nat>, j: nat, k: nat)
    requires AllHere(log, w) && k <= |w| && Precedes(log, w, j, k)
    ensures AllHere(log, w[..k]) && Precedes(log, w[..k], j, |w[..k]|) && w[..k][j] == w[j]
  {
    hide EntryHere, Verifies, Whole;
  }

  /** A finding on entry `k` of a log, given the sequence number remembered there. */
  lemma EntryReported(log: seq<byte>, base: nat, w: seq<nat>, guid: seq<byte>, k: nat, f: LogCheck.LogFinding)
    requires EndToEnd(log, 0, w) && AllHere(log, w) && k < |w| && AboutEntry(f) && f.at == base + w[k]
    ensures AllFit(log, w[..k]) && EntryHere(log, w[k])
    ensures f in LogCheck.LogFindings(log, base, guid) <==>
              f in LogCheck.EntryIssues(Whole(log, w[k]), base + w[k], LogCheck.LastSequence(log, w[..k]), guid)
  {
    hide *;
    AboutOne(f);
    NotZero(log, w, k);
    AtEntry(log, base, w, guid, k, f);
    LogParts(log, base, w, guid, w[k], f);
  }

  /** An entry is reported for its checksum, or else for its identifier. */
  lemma RejectionReported(log: seq<byte>, base: nat, w: seq<nat>, guid: seq<byte>, k: nat)
    requires EndToEnd(log, 0, w) && AllHere(log, w) && k < |w|
    ensures var fs, e := LogCheck.LogFindings(log, base, guid), Whole(log, w[k]);
            && (LogCheck.LogEntryCrcMismatch(base + w[k]) in fs <==> !Verifies(e))
            && (LogCheck.LogEntryGuidMismatch(base + w[k]) in fs <==> Verifies(e) && e[32..48] != guid)
  {
    hide *;
    var crc, id := LogCheck.LogEntryCrcMismatch(base + w[k]), LogCheck.LogEntryGuidMismatch(base + w[k]);
    AboutOne(crc);
    AboutOne(id);
    EntryReported(log, base, w, guid, k, crc);
    EntryReported(log, base, w, guid, k, id);
    var prev := LogCheck.LastSequence(log, w[..k]);
    EntrySays(Whole(log, w[k]), base + w[k], prev, guid, crc);
    EntrySays(Whole(log, w[k]), base + w[k], prev, guid, id);
  }

  /** A gap is reported exactly for a verified entry that does not follow the verified one before it. */
  lemma GapReported(log: seq<byte>, base: nat, w: seq<nat>, guid: seq<byte>, j: nat, k: nat, expected: u64, found: u64)
    requires EndToEnd(log, 0, w) && AllHere(log, w) && k < |w| && Precedes(log, w, j, k)
    ensures LogCheck.LogSequenceNumberGap(base + w[k], expected, found) in LogCheck.LogFindings(log, base, guid) <==>
              && Verifies(Whole(log, w[k]))
              && expected == (LeU64(Whole(log, w[j]), 16) + 1) % 0x1_0000_0000_0000_0000
              && found == LeU64(Whole(log, w[k]), 16) && found != expected
  {
    hide *;
    var f := LogCheck.LogSequenceNumberGap(base + w[k], expected, found);
    AboutOne(f);
    PrecedesPrefix(log, w, j, k);
    LastVerified(log, w[..k], j);
    EntryReported(log, base, w, guid, k, f);
    EntrySays(Whole(log, w[k]), base + w[k], LogCheck.LastSequence(log, w[..k]), guid, f);
  }

  /** No gap is reported before a second entry verifies. */
  lemma NoGapBefore(log: seq<byte>, base: nat, w: seq<nat>, guid: seq<byte>, k: nat, expected: u64, found: u64)
    requires EndToEnd(log, 0, w) && AllHere(log, w) && k < |w|
    requires forall m :: 0 <= m < k ==> !Verifies(Whole(log, w[m]))
    ensures LogCheck.LogSequenceNumberGap(base + w[k], expected, found) !in LogCheck.LogFindings(log, base, guid)
  {
    hide *;
    var f := LogCheck.LogSequenceNumberGap(base + w[k], expected, found);
    AboutOne(f);
    PrefixHere(log, w, k);
    NoneVerified(log, w[..k]);
    EntryReported(log, base, w, guid, k, f);
    EntrySays(Whole(log, w[k]), base + w[k], LogCheck.LastSequence(log, w[..k]), guid, f);
  }
}
