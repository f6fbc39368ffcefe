/** The analyser's walk of a dirty log, against the reader's. */
module LogCheck {
  import opened Bytes
  import opened Header
  import opened Log

  datatype LogFinding =
    | LogZeroedButDirty
    | LogEntrySignatureMissing(at: nat)
    | LogEntryCrcMismatch(at: nat)
    | LogEntryGuidMismatch(at: nat)
    | LogSequenceNumberGap(at: nat, expected: u64, found: u64)

  function WrappingNext(n: u64): u64 { (n + 1) % TWO64 }

  /** Sequence number of the last entry with a valid checksum; its identifier does not matter. */
  function LastSequence(log: seq<byte>, at: seq<nat>): Option<u64>
    requires AllFit(log, at)
  {
    if |at| == 0 then None
    else
      var e := EntryAt(log, at[|at| - 1]);
      if ChecksumOk(e) then Some(Sequence(e)) else LastSequence(log, at[..|at| - 1])
  }

  /** What the analyser says of one entry. */
  function EntryIssues(e: seq<byte>, at: nat, prev: Option<u64>, guid: seq<byte>): seq<LogFinding>
    requires |e| >= 64
  {
    if !ChecksumOk(e) then [LogEntryCrcMismatch(at)]
    else
      (if Guid(e, 32) != guid then [LogEntryGuidMismatch(at)] else [])
      + (if prev.Some? && Sequence(e) != WrappingNext(prev.value)
         then [LogSequenceNumberGap(at, WrappingNext(prev.value), Sequence(e))] else [])
  }

  function OneEntry(log: seq<byte>, base: nat, prev: Option<u64>, pos: nat, guid: seq<byte>): seq<LogFinding>
    requires EntryFits(log, pos)
  {
    EntryIssues(EntryAt(log, pos), base + pos, prev, guid)
  }

  function EntryFindings(log: seq<byte>, base: nat, at: seq<nat>, guid: seq<byte>): seq<LogFinding>
    requires AllFit(log, at)
  {
    if |at| == 0 then []
    else
      var before := at[..|at| - 1];
      EntryFindings(log, base, before, guid) + OneEntry(log, base, LastSequence(log, before), at[|at| - 1], guid)
  }

  /** Where a walk from `pos` stops. */
  function WalkEnd(log: seq<byte>, pos: nat): (end: nat)
    ensures !EntryFits(log, end)
    decreases |log| - pos
  {
    if EntryFits(log, pos) then WalkEnd(log, pos + EntryLength(log, pos)) else pos
  }

  predicate AllZero(log: seq<byte>) {
    forall i :: 0 <= i < |log| ==> log[i] == 0
  }

  /** All findings on one log region: one walk, the reader's. */
  function LogFindings(log: seq<byte>, base: nat, guid: seq<byte>): seq<LogFinding> {
    if AllZero(log) then [LogZeroedButDirty]
    else
      var end := WalkEnd(log, 0);
      EntryFindings(log, base, Walk(log, 0), guid)
      + if end + 64 <= |log| && !SignatureAt(log, end, LOGE) then [LogEntrySignatureMissing(base + end)] else []
  }

  lemma EntryFindingsOneMore(log: seq<byte>, base: nat, at: seq<nat>, pos: nat, guid: seq<byte>)
    requires AllFit(log, at) && EntryFits(log, pos)
    ensures AllFit(log, at + [pos])
    ensures EntryFindings(log, base, at + [pos], guid)
         == EntryFindings(log, base, at, guid) + OneEntry(log, base, LastSequence(log, at), pos, guid)
    ensures LastSequence(log, at + [pos])
         == if ChecksumOk(EntryAt(log, pos)) then Some(Sequence(EntryAt(log, pos))) else LastSequence(log, at)
  {
    hide ChecksumOk, LeU32, LeU64, OneEntry;
    assert (at + [pos])[..|at|] == at;
  }

  method ScanLog(log: seq<byte>, base: nat, guid: seq<byte>) returns (issues: seq<LogFinding>)
    ensures issues == LogFindings(log, base, guid)
  {
    hide ChecksumOk, LeU32, LeU64, EntryFindings, LastSequence, OneEntry, EntryIssues, AllZero, Walk, WalkEnd, AllFit;
    if AllZero(log) {
      return [LogZeroedButDirty];
    }
    issues := [];
    var pos := 0;
    var prev: Option<u64> := None;
    ghost var done: seq<nat> := [];
    NoEntries(log, base, guid);
    assert AllFit(log, done) by {
      NoneFit(log);
    }
    while pos + 64 <= |log|
      invariant AllFit(log, done) && Walk(log, 0) == done + Walk(log, pos)
      invariant WalkEnd(log, 0) == WalkEnd(log, pos)
      invariant issues == EntryFindings(log, base, done, guid)
      invariant prev == LastSequence(log, done)
      decreases |log| - pos
    {
      WalkStep(log, pos);
      if log[pos..pos + 4] != LOGE {
        assert done + [] == done;
        issues := issues + [LogEntrySignatureMissing(base + pos)];
        return;
      }
      var len := LeU32(log, pos + 8);
      if len < 64 || pos + len > |log| {
        break;
      }
      EntryFindingsOneMore(log, base, done, pos, guid);
      assert done + Walk(log, pos) == done + [pos] + Walk(log, pos + len);
      done := done + [pos];
      var found, next := ScanEntry(log[pos..pos + len], base + pos, prev, guid);
      assert found == OneEntry(log, base, prev, pos, guid) by {
        OneEntryIs(log, base, prev, pos, guid);
      }
      issues, prev := issues + found, next;
      pos := pos + len;
    }
    WalkStep(log, pos);
    assert done + [] == done;
  }

  lemma WalkStep(log: seq<byte>, pos: nat)
    ensures if EntryFits(log, pos)
            then Walk(log, pos) == [pos] + Walk(log, pos + EntryLength(log, pos))
              && WalkEnd(log, pos) == WalkEnd(log, pos + EntryLength(log, pos))
            else Walk(log, pos) == [] && WalkEnd(log, pos) == pos
  {
    hide LeU32;
  }

  lemma OneEntryIs(log: seq<byte>, base: nat, prev: Option<u64>, pos: nat, guid: seq<byte>)
    requires EntryFits(log, pos)
    ensures OneEntry(log, base, prev, pos, guid)
         == EntryIssues(log[pos..pos + EntryLength(log, pos)], base + pos, prev, guid)
  {
    hide LeU32, EntryIssues;
  }

  method ScanEntry(entry: seq<byte>, at: nat, prev: Option<u64>, guid: seq<byte>)
    returns (found: seq<LogFinding>, next: Option<u64>)
    requires |entry| >= 64
    ensures found == EntryIssues(entry, at, prev, guid)
    ensures next == if ChecksumOk(entry) then Some(Sequence(entry)) else prev
  {
    hide ChecksumOk, LeU32, LeU64;
    var ok := VerifyCrc32c(entry);
    if !ok {
      return [LogEntryCrcMismatch(at)], prev;
    }
    found := [];
    if Guid(entry, 32) != guid {
      found := [LogEntryGuidMismatch(at)];
    }
    var seqNo := Sequence(entry);
    if prev.Some? && seqNo != WrappingNext(prev.value) {
      found := found + [LogSequenceNumberGap(at, WrappingNext(prev.value), seqNo)];
    }
    return found, Some(seqNo);
  }

  lemma NoneFit(log: seq<byte>)
    ensures AllFit(log, [])
  {}

  lemma NoEntries(log: seq<byte>, base: nat, guid: seq<byte>)
    ensures EntryFindings(log, base, [], guid) == [] && LastSequence(log, []) == None
  {}

  /** The analyser's header selection, branch by branch; it is the reader's. */
  method ActiveHeaderBlock(data: seq<byte>) returns (at: Option<nat>)
    ensures at == ActiveOffset(data)
  {
    var h1 := ParseOneHeader(data, HEADER1);
    var h2 := ParseOneHeader(data, HEADER2);
    match (h1, h2) {
      case (Ok(a), Ok(b)) => return Some(if a.sequence >= b.sequence then HEADER1 else HEADER2);
      case (Ok(_), Err(_)) => return Some(HEADER1);
      case (Err(_), Ok(_)) => return Some(HEADER2);
      case (Err(_), Err(_)) => return None;
    }
  }

  /** The log a header names, when the analyser scans it at all. */
  function ScannedLog(data: seq<byte>): Option<(seq<byte>, LogHeader)>
    requires |data| < TWO63
  {
    match ActiveOffset(data)
    case None => None
    case Some(at) =>
      var h := HeaderAt(data, at);
      if h.logLength == 0 || h.logGuid == Zeros(16) then None
      else if |data| < Min(h.logOffset + h.logLength, TWO64 - 1) then None
      else Some((data[h.logOffset..h.logOffset + h.logLength], h))
  }

  method CheckLog(data: seq<byte>) returns (issues: seq<LogFinding>)
    requires |data| < TWO63
    ensures issues == match ScannedLog(data)
                      case None => []
                      case Some((log, h)) => LogFindings(log, h.logOffset, h.logGuid)
  {
    hide ActiveOffset, LeU32, LeU64, LogFindings;
    var at := ActiveHeaderBlock(data);
    if at.None? {
      return [];
    }
    var h := HeaderAt(data, at.value);
    if h.logLength == 0 || h.logGuid == Zeros(16) {
      return [];
    }
    var logEnd := Min(h.logOffset + h.logLength, TWO64 - 1);
    if |data| < logEnd {
      return [];
    }
    issues := ScanLog(data[h.logOffset..logEnd], h.logOffset, h.logGuid);
  }

  // ── Agreement with replay ─────────────────────────────────────────────────

  datatype Rejection = ByChecksum | ByIdentifier

  predicate Rejects(f: LogFinding, why: Rejection) {
    match why
    case ByChecksum => f.LogEntryCrcMismatch?
    case ByIdentifier => f.LogEntryGuidMismatch?
  }

  function Count(fs: seq<LogFinding>, why: Rejection): nat {
    if |fs| == 0 then 0 else Count(fs[..|fs| - 1], why) + if Rejects(fs[|fs| - 1], why) then 1 else 0
  }

  lemma {:induction false} CountConcat(a: seq<LogFinding>, b: seq<LogFinding>, why: Rejection)
    ensures Count(a + b, why) == Count(a, why) + Count(b, why)
  {
    if |b| == 0 {
      assert a + b == a;
    } else {
      assert (a + b)[..|a + b| - 1] == a + b[..|b| - 1];
      CountConcat(a, b[..|b| - 1], why);
    }
  }

  /** Every entry walked is replayed, or reported for its checksum, or for its identifier. */
  lemma {:induction false} EntriesAccountedFor(log: seq<byte>, base: nat, at: seq<nat>, guid: seq<byte>)
    requires AllFit(log, at)
    ensures var fs := EntryFindings(log, base, at, guid);
            |Kept(log, at, guid)| + Count(fs, ByChecksum) + Count(fs, ByIdentifier) == |at|
  {
    hide ChecksumOk, LeU32, LeU64, OneEntry, EntryFindings, LastSequence, Kept;
    if |at| == 0 {
      NoEntries(log, base, guid);
      KeptNone(log, guid);
      assert at == [];
    } else {
      var before, pos := at[..|at| - 1], at[|at| - 1];
      assert at == before + [pos];
      EntriesAccountedFor(log, base, before, guid);
      EntryFindingsOneMore(log, base, before, pos, guid);
      KeptOneMore(log, before, pos, guid);
      var fs, one := EntryFindings(log, base, before, guid), OneEntry(log, base, LastSequence(log, before), pos, guid);
      CountConcat(fs, one, ByChecksum);
      CountConcat(fs, one, ByIdentifier);
      OneEntryCounts(log, base, LastSequence(log, before), pos, guid);
    }
  }

  /** The same for a whole log region, zeroed or not, against the entries replay takes from it. */
  lemma LogAccounting(log: seq<byte>, base: nat, guid: seq<byte>)
    ensures var fs := LogFindings(log, base, guid);
            |Committed(log, guid)| + Count(fs, ByChecksum) + Count(fs, ByIdentifier) == |Walk(log, 0)|
  {
    hide ChecksumOk, LeU32, LeU64, EntryFindings, Kept, SortBySequence;
    if AllZero(log) {
      assert log != [] ==> log[0] == 0;
      KeptNone(log, guid);
      CountOther(LogZeroedButDirty);
      assert |log| >= 4 ==> log[0..4][0] == 0;
    } else {
      var at, end := Walk(log, 0), WalkEnd(log, 0);
      var missing := if end + 64 <= |log| && !SignatureAt(log, end, LOGE)
        then [LogEntrySignatureMissing(base + end)] else [];
      EntriesAccountedFor(log, base, at, guid);
      CountConcat(EntryFindings(log, base, at, guid), missing, ByChecksum);
      CountConcat(EntryFindings(log, base, at, guid), missing, ByIdentifier);
      CountOther(LogEntrySignatureMissing(base + end));
    }
  }

  lemma CountOther(f: LogFinding)
    requires !f.LogEntryCrcMismatch? && !f.LogEntryGuidMismatch?
    ensures forall why :: Count([f], why) == 0 && Count([], why) == 0
  {
    assert [f][..0] == [];
  }

  lemma OneEntryCounts(log: seq<byte>, base: nat, prev: Option<u64>, pos: nat, guid: seq<byte>)
    requires EntryFits(log, pos)
    ensures var fs := OneEntry(log, base, prev, pos, guid);
            (if Replayable(EntryAt(log, pos), guid) then 1 else 0)
            + Count(fs, ByChecksum) + Count(fs, ByIdentifier) == 1
  {
    hide ChecksumOk, LeU32, LeU64, Count;
    var e := EntryAt(log, pos);
    if ChecksumOk(e) {
      IssueCounts(e, base + pos, prev, guid);
    } else {
      CountOne(LogEntryCrcMismatch(base + pos));
    }
  }

  /** An entry that verifies is counted once by its identifier, whatever its sequence number. */
  lemma IssueCounts(e: seq<byte>, at: nat, prev: Option<u64>, guid: seq<byte>)
    requires |e| >= 64 && ChecksumOk(e)
    ensures var fs := EntryIssues(e, at, prev, guid);
            && Count(fs, ByChecksum) == 0
            && Count(fs, ByIdentifier) == if Guid(e, 32) == guid then 0 else 1
  {
    hide ChecksumOk, Count, Sequence, Guid;
    var gap := if prev.Some? && Sequence(e) != WrappingNext(prev.value)
      then [LogSequenceNumberGap(at, WrappingNext(prev.value), Sequence(e))] else [];
    var bad := if Guid(e, 32) != guid then [LogEntryGuidMismatch(at)] else [];
    CountConcat(bad, gap, ByChecksum);
    CountConcat(bad, gap, ByIdentifier);
    CountOne(LogEntryGuidMismatch(at));
    CountOne(if gap == [] then LogZeroedButDirty else gap[0]);
  }

  lemma CountOne(f: LogFinding)
    ensures Count([f], ByChecksum) == (if f.LogEntryCrcMismatch? then 1 else 0)
    ensures Count([f], ByIdentifier) == (if f.LogEntryGuidMismatch? then 1 else 0)
    ensures Count([], ByChecksum) == 0 && Count([], ByIdentifier) == 0
  {
    assert [f][..0] == [];
  }

  /** All entries walked, in log order. */
  function AllEntries(log: seq<byte>, at: seq<nat>): (es: seq<seq<byte>>)
    requires AllFit(log, at)
    ensures |es| == |at| && forall k :: 0 <= k < |at| ==> es[k] == EntryAt(log, at[k])
  {
    seq(|at|, k requires 0 <= k < |at| => EntryAt(log, at[k]))
  }

  /** No checksum, identifier or sequence finding on the entries. */
  predicate Clean(fs: seq<LogFinding>) {
    forall f :: f in fs ==> !f.LogEntryCrcMismatch? && !f.LogEntryGuidMismatch? && !f.LogSequenceNumberGap?
  }

  lemma {:induction false} CleanEntries(log: seq<byte>, base: nat, at: seq<nat>, guid: seq<byte>)
    requires AllFit(log, at) && Clean(EntryFindings(log, base, at, guid))
    ensures Kept(log, at, guid) == AllEntries(log, at)
    ensures |at| > 0 ==> LastSequence(log, at) == Some(Sequence(EntryAt(log, at[|at| - 1])))
    ensures forall k :: 0 < k < |at| ==>
              Sequence(EntryAt(log, at[k])) == WrappingNext(Sequence(EntryAt(log, at[k - 1])))
  {
    hide ChecksumOk, LeU32, LeU64, Guid, EntryFindings, Kept, LastSequence, OneEntry, WrappingNext, Clean, EntryFits;
    if |at| == 0 {
      KeptNone(log, guid);
      assert at == [];
    } else {
      var before, pos := at[..|at| - 1], at[|at| - 1];
      assert at == before + [pos];
      assert EntryFits(log, pos);
      assert AllFit(log, before);
      var prev := LastSequence(log, before);
      EntryFindingsOneMore(log, base, before, pos, guid);
      CleanParts(EntryFindings(log, base, before, guid), OneEntry(log, base, prev, pos, guid));
      CleanEntries(log, base, before, guid);
      CleanEntry(log, base, prev, pos, guid);
      KeptOneMore(log, before, pos, guid);
      assert AllEntries(log, at) == AllEntries(log, before) + [EntryAt(log, pos)];
    }
  }

  lemma CleanParts(a: seq<LogFinding>, b: seq<LogFinding>)
    requires Clean(a + b)
    ensures Clean(a) && Clean(b)
  {
    assert forall f :: f in a ==> f in a + b;
    assert forall f :: f in b ==> f in a + b;
  }

  lemma CleanEntry(log: seq<byte>, base: nat, prev: Option<u64>, pos: nat, guid: seq<byte>)
    requires EntryFits(log, pos) && Clean(OneEntry(log, base, prev, pos, guid))
    ensures Replayable(EntryAt(log, pos), guid)
    ensures prev.Some? ==> Sequence(EntryAt(log, pos)) == WrappingNext(prev.value)
  {
    hide ChecksumOk, LeU32, LeU64, Guid;
    var fs := OneEntry(log, base, prev, pos, guid);
    assert |fs| > 0 ==> fs[0] in fs;
  }

  /** Numbers that each follow the one before wrap at most once. */
  lemma {:induction false} ConsecutiveFrom(ns: seq<u64>)
    requires 0 < |ns| < TWO64
    requires forall k :: 0 < k < |ns| ==> ns[k] == WrappingNext(ns[k - 1])
    ensures forall k :: 0 <= k < |ns| ==>
              ns[k] == if ns[0] + k < TWO64 then ns[0] + k else ns[0] + k - TWO64
  {
    if |ns| > 1 {
      ConsecutiveFrom(ns[..|ns| - 1]);
      assert ns[|ns| - 1] == WrappingNext(ns[|ns| - 2]);
      assert ns[..|ns| - 1][|ns| - 2] == ns[|ns| - 2];
    }
  }

  /** Consecutive numbers are ascending exactly when they do not wrap. */
  lemma ConsecutiveAscending(es: seq<seq<byte>>)
    requires 0 < |es| < TWO64
    requires forall k :: 0 < k < |es| ==> Sequence(es[k]) == WrappingNext(Sequence(es[k - 1]))
    ensures Ascending(es) <==> Sequence(es[0]) + |es| <= TWO64
  {
    hide LeU64;
    var ns: seq<u64> := seq(|es|, k requires 0 <= k < |es| => Sequence(es[k]));
    assert forall k :: 0 < k < |ns| ==> ns[k] == WrappingNext(ns[k - 1]);
    ConsecutiveFrom(ns);
    assert forall k :: 0 <= k < |es| ==> Sequence(es[k]) == ns[k];
    if ns[0] + |ns| > TWO64 {
      var w := TWO64 - ns[0];
      assert ns[w] == 0 && ns[w - 1] == TWO64 - 1;
      assert Sequence(es[w - 1]) > Sequence(es[w]);
    }
  }

  /**
   On a log without checksum, identifier and gap findings every entry is replayed, and replay
   order is log order exactly when the sequence numbers do not wrap past 2^64.
   */
  lemma CleanLogOrder(log: seq<byte>, base: nat, guid: seq<byte>)
    requires |log| < TWO63 && Clean(EntryFindings(log, base, Walk(log, 0), guid))
    ensures var all := AllEntries(log, Walk(log, 0));
            && Kept(log, Walk(log, 0), guid) == all
            && (Committed(log, guid) == all <==> |all| == 0 || Sequence(all[0]) + |all| <= TWO64)
  {
    hide ChecksumOk, LeU32, LeU64, Guid, EntryFindings, Kept, EntryAt;
    var at := Walk(log, 0);
    var all := AllEntries(log, at);
    CleanEntries(log, base, at, guid);
    WalkShort(log, 0);
    if |all| > 0 {
      assert forall k :: 0 < k < |all| ==> Sequence(all[k]) == WrappingNext(Sequence(all[k - 1]));
      ConsecutiveAscending(all);
      if Ascending(all) {
        SortedIsIdentity(all);
      }
      SortIsStable(all, 0);
    }
  }

  lemma {:induction false} WalkShort(log: seq<byte>, pos: nat)
    requires pos <= |log|
    ensures |Walk(log, pos)| * 64 <= |log| - pos
    decreases |log| - pos
  {
    hide LeU32;
    if EntryFits(log, pos) {
      WalkShort(log, pos + EntryLength(log, pos));
    }
  }
}
