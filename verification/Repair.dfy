/** The repair tool: a byte array rewritten in place, finding by finding. */
module Repair {
  import opened Bytes
  import opened Arith
  import opened Crc
  import opened Header
  import opened Integrity
  import Sweeps

  // ── One repair ────────────────────────────────────────────────────────────

  datatype Kind = HeaderBlock | TableBlock

  function Size(k: Kind): nat {
    match k case HeaderBlock => HEADER_SIZE case TableBlock => TABLE_SIZE
  }

  function Place(k: Kind, c: Copy): nat {
    match k
    case HeaderBlock => if c == First then HEADER1 else HEADER2
    case TableBlock => if c == First then TABLE1 else TABLE2
  }

  function OtherCopy(c: Copy): Copy { if c == First then Second else First }

  /** The finding that asks for copy `c` to be replaced. */
  function Mismatch(k: Kind, c: Copy): Finding {
    match k case HeaderBlock => HeaderChecksumMismatch(c) case TableBlock => RegionTableChecksumMismatch(c)
  }

  function Slot(img: seq<byte>, k: Kind, c: Copy): (r: seq<byte>)
    requires MIN_SIZE <= |img|
    ensures |r| == Size(k)
  {
    img[Place(k, c)..Place(k, c) + Size(k)]
  }

  /** The entry without its bits 3 to 19. */
  function Cleaned(raw: u64): u64 {
    raw / MIB * MIB + raw % MIB % 8
  }

  lemma Parts(q: nat, m: nat)
    requires m < MIB
    ensures (q * MIB + m) / MIB == q && (q * MIB + m) % MIB == m && (q * MIB + m) % 8 == m % 8
  {
    DivUnique(q * MIB + m, MIB, q, m);
    DivIsQuotient(q * MIB + m, MIB);
    DivUnique(q * MIB + m, 8, 0x2_0000 * q + m / 8, m % 8);
    DivIsQuotient(q * MIB + m, 8);
  }

  /** Clearing keeps state and offset, leaves no reserved bit, and is idempotent. */
  lemma CleanedKeeps(raw: u64)
    ensures var r := Cleaned(raw);
            && r % 8 == raw % 8
            && r / MIB == raw / MIB && OffsetOf(r) == OffsetOf(raw)
            && !ReservedBitsSet(r)
            && Cleaned(r) == r
    ensures Cleaned(0) == 0
  {
    Parts(raw / MIB, raw % MIB);
    Parts(raw / MIB, raw % MIB % 8);
  }

  /** The repair of `f` stays inside an image of `n` bytes. */
  predicate CanFix(n: nat, bat: Option<nat>, f: Finding) {
    && (Repairable(f) && !NamesEntry(f) ==> MIN_SIZE <= n)
    && (NamesEntry(f) && bat.Some? ==> bat.value + f.index * 8 + 8 <= n)
  }

  /** The finding is repaired, not merely listed. */
  predicate Fixes(bat: Option<nat>, f: Finding) {
    Repairable(f) && (NamesEntry(f) ==> bat.Some?)
  }

  /** The image after the repair of one finding. */
  function Fix(img: seq<byte>, bat: Option<nat>, f: Finding): (r: seq<byte>)
    requires CanFix(|img|, bat, f)
    ensures |r| == |img|
  {
    if f.HeaderChecksumMismatch? then
      Splice(img, Place(HeaderBlock, f.copy), Signed(Slot(img, HeaderBlock, OtherCopy(f.copy))))
    else if f.RegionTableChecksumMismatch? then
      Splice(img, Place(TableBlock, f.copy), Signed(Slot(img, TableBlock, OtherCopy(f.copy))))
    else if !NamesEntry(f) || bat.None? then img
    else
      var at := bat.value + f.index * 8;
      Splice(img, at, if f.BatEntryUnaligned? then ToLe64(Cleaned(LeU64(img, at))) else Zeros(8))
  }

  predicate CanFixAll(n: nat, bat: Option<nat>, fs: seq<Finding>) {
    forall k :: 0 <= k < |fs| ==> CanFix(n, bat, fs[k])
  }

  /** The image after the repair of a list of findings, in order. */
  function FixAll(img: seq<byte>, bat: Option<nat>, fs: seq<Finding>): (r: seq<byte>)
    requires CanFixAll(|img|, bat, fs)
    ensures |r| == |img|
  {
    if |fs| == 0 then img else Fix(FixAll(img, bat, fs[..|fs| - 1]), bat, fs[|fs| - 1])
  }

  datatype Action = Action(offset: nat, count: nat)

  datatype Report = Report(repaired: seq<Action>, cannotRepair: seq<Finding>)

  function ActionFor(bat: Option<nat>, f: Finding): Action
    requires Fixes(bat, f)
  {
    if f.HeaderChecksumMismatch? then Action(Place(HeaderBlock, f.copy), HEADER_SIZE)
    else if f.RegionTableChecksumMismatch? then Action(Place(TableBlock, f.copy), TABLE_SIZE)
    else Action(bat.value + f.index * 8, 8)
  }

  function Actions(bat: Option<nat>, fs: seq<Finding>): seq<Action> {
    if |fs| == 0 then []
    else
      var f := fs[|fs| - 1];
      Actions(bat, fs[..|fs| - 1]) + if Fixes(bat, f) then [ActionFor(bat, f)] else []
  }

  /** The findings that are repaired, in report order. */
  function Fixed(bat: Option<nat>, fs: seq<Finding>): (r: seq<Finding>)
    ensures forall k :: 0 <= k < |r| ==> Fixes(bat, r[k])
  {
    if |fs| == 0 then []
    else
      var f := fs[|fs| - 1];
      Fixed(bat, fs[..|fs| - 1]) + if Fixes(bat, f) then [f] else []
  }

  function Unresolved(bat: Option<nat>, fs: seq<Finding>): seq<Finding> {
    if |fs| == 0 then []
    else
      var f := fs[|fs| - 1];
      Unresolved(bat, fs[..|fs| - 1]) + if Fixes(bat, f) then [] else [f]
  }

  // ── What the analysis hands over ──────────────────────────────────────────

  function BatOffset(img: seq<byte>): Option<nat> {
    if ParsedLayout(img).Some? then Some(ParsedLayout(img).value.bat.offset) else None
  }

  /**
   `issues` are findings on `img`, whose analysis does not panic: of the repairable ones,
   exactly those that hold.
   */
  ghost predicate ReportsOn(img: seq<byte>, issues: seq<Finding>) {
    && !Panics(img)
    && forall f :: Repairable(f) ==> (f in issues <==> Found(img, f))
  }

  lemma AnalysisReports(img: seq<byte>, items: seq<Sweeps.Keyed>, blocks: seq<Sweeps.Keyed>, others: seq<Finding>)
    requires |img| < TWO63 && !Panics(img) && forall f :: f in others ==> !Repairable(f)
    ensures ReportsOn(img, Analysis(img, items, blocks) + others)
  {
    hide Analysis, Found, Panics;
    var found := Analysis(img, items, blocks);
    forall f | Repairable(f)
      ensures f in found + others <==> Found(img, f)
    {
      AnalysisFinds(img, items, blocks, f);
    }
  }

  /** Every reported repair stays inside the image. */
  lemma ReportedCanFix(img: seq<byte>, issues: seq<Finding>)
    requires ReportsOn(img, issues)
    ensures CanFixAll(|img|, BatOffset(img), issues)
  {
    hide Found, Panics, CanFix, BatOffset;
    forall k | 0 <= k < |issues|
      ensures CanFix(|img|, BatOffset(img), issues[k])
    {
      if Repairable(issues[k]) {
        assert issues[k] in issues;
        FoundCanFix(img, issues[k]);
      } else {
        OthersCanFix(|img|, BatOffset(img), issues[k]);
      }
    }
  }

  lemma OthersCanFix(n: nat, bat: Option<nat>, f: Finding)
    requires !Repairable(f)
    ensures CanFix(n, bat, f)
  {}

  lemma FoundCanFix(img: seq<byte>, f: Finding)
    requires Repairable(f) && Found(img, f)
    ensures CanFix(|img|, BatOffset(img), f)
  {
    hide BadBesideGood, ParsedLayout, LogZone, Holds;
  }

  lemma SpliceNested(b: seq<byte>, at: nat, block: seq<byte>, o: nat, x: seq<byte>)
    requires at + |block| <= |b| && o + |x| <= |block|
    ensures Splice(Splice(b, at, block), at + o, x) == Splice(b, at, Splice(block, o, x))
  {
    hide Splice;
    var r, t := Splice(Splice(b, at, block), at + o, x), Splice(b, at, Splice(block, o, x));
    forall p | 0 <= p < |b|
      ensures r[p] == t[p]
    {
      if at <= p < at + |block| {
        assert t[p] == t[at..at + |block|][p - at] == Splice(block, o, x)[p - at];
        assert Splice(b, at, block)[p] == Splice(b, at, block)[at..at + |block|][p - at] == block[p - at];
        if at + o <= p < at + o + |x| {
          assert r[p] == r[at + o..at + o + |x|][p - at - o];
          assert Splice(block, o, x)[p - at] == Splice(block, o, x)[o..o + |x|][p - at - o];
        }
      }
    }
  }

  /** Storing a block, then clearing and setting its checksum field in place, stores the signed block. */
  lemma Resigned(b: seq<byte>, at: nat, block: seq<byte>)
    requires 8 <= |block| && at + |block| <= |b|
    ensures Splice(Splice(b, at, block), at + 4, Zeros(4)) == Splice(b, at, Unsigned(block))
    ensures Splice(Splice(b, at, Unsigned(block)), at + 4, ToLe32(Crc32c(Unsigned(block))))
         == Splice(b, at, Signed(block))
  {
    hide Crc32c, Splice, ToLe32;
    SpliceNested(b, at, block, 4, Zeros(4));
    SpliceNested(b, at, Unsigned(block), 4, ToLe32(Crc32c(Unsigned(block))));
    SpliceTwice(block, 4, Zeros(4), ToLe32(Crc32c(Unsigned(block))));
  }

  lemma SpliceTwice(block: seq<byte>, o: nat, x: seq<byte>, y: seq<byte>)
    requires o + |x| <= |block| && |x| == |y|
    ensures Splice(Splice(block, o, x), o, y) == Splice(block, o, y)
  {}

  class VhdxRepair {
    const data: array<byte>

    constructor (data: array<byte>)
      ensures this.data == data
    {
      this.data := data;
    }

    method Store(at: nat, bytes: seq<byte>)
      requires at + |bytes| <= data.Length
      modifies data
      ensures data[..] == Splice(old(data[..]), at, bytes)
    {
      CopyInto(data, at, bytes);
      assert data[..] == Splice(old(data[..]), at, bytes);
    }

    method CopyBlockWithCrc(src: nat, dst: nat, size: nat)
      requires 8 <= size && src + size <= data.Length && dst + size <= data.Length
      modifies data
      ensures data[..] == Splice(old(data[..]), dst, Signed(old(data[..])[src..src + size]))
    {
      hide *;
      ghost var before := data[..];
      var block := data[src..src + size];
      assert block == before[src..src + size];
      Resigned(before, dst, block);
      Store(dst, block);
      Store(dst + 4, Zeros(4));
      assert data[dst..dst + size] == data[..][dst..dst + size] == Unsigned(block);
      var crc := ComputeCrc32c(data[dst..dst + size]);
      Store(dst + 4, ToLe32(crc));
    }

    method ReplaceBlock(k: Kind, c: Copy) returns (done: Action)
      requires MIN_SIZE <= data.Length
      modifies data
      ensures data[..] == Fix(old(data[..]), None, Mismatch(k, c))
      ensures done == ActionFor(None, Mismatch(k, c))
    {
      hide Signed;
      CopyBlockWithCrc(Place(k, OtherCopy(c)), Place(k, c), Size(k));
      return Action(Place(k, c), Size(k));
    }

    method ClearBatReservedBits(bat: nat, index: nat) returns (done: Action)
      requires bat + index * 8 + 8 <= data.Length
      modifies data
      ensures data[..] == Fix(old(data[..]), Some(bat), BatEntryUnaligned(index))
      ensures done == ActionFor(Some(bat), BatEntryUnaligned(index))
    {
      hide LeU64, ToLe64, Cleaned;
      var at := bat + index * 8;
      var raw := LeU64(data[..], at);
      Store(at, ToLe64(Cleaned(raw)));
      return Action(at, 8);
    }

    method ZeroBatEntry(bat: nat, index: nat) returns (done: Action)
      requires bat + index * 8 + 8 <= data.Length
      modifies data
      ensures data[..] == Splice(old(data[..]), bat + index * 8, Zeros(8))
      ensures done == Action(bat + index * 8, 8)
    {
      Store(bat + index * 8, Zeros(8));
      return Action(bat + index * 8, 8);
    }

    method RepairEntry(bat: nat, f: Finding) returns (done: Action)
      requires NamesEntry(f) && CanFix(data.Length, Some(bat), f)
      modifies data
      ensures data[..] == Fix(old(data[..]), Some(bat), f) && done == ActionFor(Some(bat), f)
    {
      hide Signed, Cleaned, LeU64, ToLe64, Slot;
      if f.BatEntryUnaligned? {
        done := ClearBatReservedBits(bat, f.index);
      } else {
        done := ZeroBatEntry(bat, f.index);
      }
    }

    /** Repair one finding, if it can be repaired. */
    method RepairOne(bat: Option<nat>, f: Finding) returns (done: Option<Action>)
      requires CanFix(data.Length, bat, f)
      modifies data
      ensures data[..] == Fix(old(data[..]), bat, f)
      ensures done == if Fixes(bat, f) then Some(ActionFor(bat, f)) else None
    {
      hide Signed, Cleaned, LeU64, ToLe64, Slot;
      var a: Action;
      if f.HeaderChecksumMismatch? {
        a := ReplaceBlock(HeaderBlock, f.copy);
      } else if f.RegionTableChecksumMismatch? {
        a := ReplaceBlock(TableBlock, f.copy);
      } else if NamesEntry(f) && bat.Some? {
        a := RepairEntry(bat.value, f);
      } else {
        return None;
      }
      return Some(a);
    }

    /** Repair a list of findings in order. */
    method RepairEach(bat: Option<nat>, issues: seq<Finding>) returns (repaired: seq<Action>, cannot: seq<Finding>)
      requires CanFixAll(data.Length, bat, issues)
      modifies data
      ensures data[..] == FixAll(old(data[..]), bat, issues)
      ensures repaired == Actions(bat, issues) && cannot == Unresolved(bat, issues)
    {
      hide Fix, Fixes, ActionFor;
      repaired, cannot := [], [];
      for k := 0 to |issues|
        invariant data[..] == FixAll(old(data[..]), bat, issues[..k])
        invariant repaired == Actions(bat, issues[..k]) && cannot == Unresolved(bat, issues[..k])
      {
        assert issues[..k + 1][..k] == issues[..k];
        var done := RepairOne(bat, issues[k]);
        if done.Some? {
          repaired := repaired + [done.value];
        } else {
          cannot := cannot + [issues[k]];
        }
      }
      assert issues[..|issues|] == issues;
    }

    /**
     Analyse, then repair what can be repaired. `others` are the findings of the checks that
     are not modelled; none of those can be repaired. Where the analysis panics, so does the
     attempt, before it has written anything.
     */
    method AttemptRepair(others: seq<Finding>) returns (r: Result<Report>, ghost issues: seq<Finding>)
      requires data.Length < TWO63 && forall f :: f in others ==> !Repairable(f)
      modifies data
      ensures Panics(old(data[..])) ==> r == Err(Panic) && data[..] == old(data[..])
      ensures !Panics(old(data[..])) ==>
                var img := old(data[..]);
                && ReportsOn(img, issues) && CanFixAll(|img|, BatOffset(img), issues)
                && data[..] == FixAll(img, BatOffset(img), issues)
                && r == Ok(Report(Actions(BatOffset(img), issues), Unresolved(BatOffset(img), issues)))
    {
      hide Analysis, ParsedLayout, Found, Sweeps.SortOf, FixAll, TableFindings, CanFix, Readable, Repairable;
      hide NamesEntry;
      hide Panics;
      var found, items, blocks := Analyse(data[..]);
      if found.Err? {
        return Err(found.error), [];
      }
      AnalysisReports(data[..], items, blocks, others);
      issues := found.value + others;
      var layout := ParseRegions(data[..]);
      var bat := if layout.Some? then Some(layout.value.bat.offset as nat) else None;
      ReportedCanFix(data[..], issues);
      var repaired, cannot := RepairEach(bat, found.value + others);
      return Ok(Report(repaired, cannot)), issues;
    }
  }

  // ── Frame ─────────────────────────────────────────────────────────────────

  /** `p` is one of the bytes that the repair of `f` may write. */
  predicate Touches(bat: Option<nat>, f: Finding, p: nat) {
    if f.HeaderChecksumMismatch? then Place(HeaderBlock, f.copy) <= p < Place(HeaderBlock, f.copy) + HEADER_SIZE
    else if f.RegionTableChecksumMismatch? then Place(TableBlock, f.copy) <= p < Place(TableBlock, f.copy) + TABLE_SIZE
    else NamesEntry(f) && bat.Some? && bat.value + f.index * 8 <= p < bat.value + f.index * 8 + 8
  }

  lemma FixFrame(img: seq<byte>, bat: Option<nat>, f: Finding, p: nat)
    requires CanFix(|img|, bat, f) && p < |img| && !Touches(bat, f, p)
    ensures Fix(img, bat, f)[p] == img[p]
  {
    hide Signed, Cleaned, LeU64, ToLe64, Slot;
  }

  /** A byte that no listed repair names never changes. */
  lemma {:induction false} Frame(img: seq<byte>, bat: Option<nat>, fs: seq<Finding>, p: nat)
    requires CanFixAll(|img|, bat, fs) && p < |img| && forall f :: f in fs ==> !Touches(bat, f, p)
    ensures FixAll(img, bat, fs)[p] == img[p]
  {
    hide Fix, Touches, CanFix;
    if |fs| > 0 {
      Frame(img, bat, fs[..|fs| - 1], p);
      FixFrame(FixAll(img, bat, fs[..|fs| - 1]), bat, fs[|fs| - 1], p);
    }
  }

  /** Findings that cannot be repaired leave the image alone. */
  lemma UnrepairedChangeNothing(img: seq<byte>, bat: Option<nat>, fs: seq<Finding>)
    requires CanFixAll(|img|, bat, fs) && forall f :: f in fs ==> !Fixes(bat, f)
    ensures FixAll(img, bat, fs) == img
  {
    hide FixAll, CanFix;
    forall p | 0 <= p < |img|
      ensures FixAll(img, bat, fs)[p] == img[p]
    {
      Frame(img, bat, fs, p);
    }
  }

  // ── Accounting ────────────────────────────────────────────────────────────

  /** Each occurrence of a finding lands in exactly one of the two lists. */
  lemma {:induction false} Partition(bat: Option<nat>, fs: seq<Finding>)
    ensures multiset(fs) == multiset(Fixed(bat, fs)) + multiset(Unresolved(bat, fs))
  {
    if |fs| > 0 {
      var init, last := fs[..|fs| - 1], fs[|fs| - 1];
      OneMoreFixed(bat, fs);
      Partition(bat, init);
      Split(fs);
      hide *;
      if Fixes(bat, last) {
        Moved(multiset(Fixed(bat, init)), multiset(Unresolved(bat, init)), multiset{last});
      } else {
        Moved(multiset(Unresolved(bat, init)), multiset(Fixed(bat, init)), multiset{last});
      }
    }
  }

  lemma Split(fs: seq<Finding>)
    requires |fs| > 0
    ensures multiset(fs) == multiset(fs[..|fs| - 1]) + multiset{fs[|fs| - 1]}
  {
    assert fs == fs[..|fs| - 1] + [fs[|fs| - 1]];
  }

  lemma Moved(a: multiset<Finding>, b: multiset<Finding>, x: multiset<Finding>)
    ensures (a + x) + b == (a + b) + x && b + (a + x) == (b + a) + x
    ensures a + multiset{} == a && b + multiset{} == b && a + b == b + a
  {}

  lemma OneMoreFixed(bat: Option<nat>, fs: seq<Finding>)
    requires |fs| > 0
    ensures var init, last := fs[..|fs| - 1], fs[|fs| - 1];
            && multiset(Fixed(bat, fs))
               == multiset(Fixed(bat, init)) + (if Fixes(bat, last) then multiset{last} else multiset{})
            && multiset(Unresolved(bat, fs))
               == multiset(Unresolved(bat, init)) + (if Fixes(bat, last) then multiset{} else multiset{last})
  {
    hide Fixes;
  }

  lemma {:induction false} UnresolvedNotFixed(bat: Option<nat>, fs: seq<Finding>)
    ensures forall k :: 0 <= k < |Unresolved(bat, fs)| ==> !Fixes(bat, Unresolved(bat, fs)[k])
  {
    hide Fixes;
    if |fs| > 0 {
      UnresolvedNotFixed(bat, fs[..|fs| - 1]);
    }
  }

  lemma {:induction false} ActionsOfFixed(bat: Option<nat>, fs: seq<Finding>)
    ensures |Actions(bat, fs)| == |Fixed(bat, fs)|
    ensures forall k :: 0 <= k < |Actions(bat, fs)| ==> Actions(bat, fs)[k] == ActionFor(bat, Fixed(bat, fs)[k])
  {
    hide Fixes, ActionFor;
    if |fs| > 0 {
      ActionsOfFixed(bat, fs[..|fs| - 1]);
    }
  }

  /**
   The report accounts for every finding once: by whether it can be repaired it is either
   listed, or stands behind one action, one for one and in order.
   */
  lemma Accounting(bat: Option<nat>, fs: seq<Finding>)
    ensures multiset(fs) == multiset(Fixed(bat, fs)) + multiset(Unresolved(bat, fs))
    ensures forall k :: 0 <= k < |Unresolved(bat, fs)| ==> !Fixes(bat, Unresolved(bat, fs)[k])
    ensures |Actions(bat, fs)| == |Fixed(bat, fs)|
    ensures forall k :: 0 <= k < |Actions(bat, fs)| ==> Actions(bat, fs)[k] == ActionFor(bat, Fixed(bat, fs)[k])
  {
    hide Fixes, ActionFor, Fixed, Unresolved, Actions;
    Partition(bat, fs);
    UnresolvedNotFixed(bat, fs);
    ActionsOfFixed(bat, fs);
  }

  // ── One BAT entry ─────────────────────────────────────────────────────────

  predicate Zeroed(fs: seq<Finding>, i: nat) {
    UndefinedBlockState(i) in fs || BatEntryInStructuralRegion(i) in fs || BatEntryBeyondContainer(i) in fs
  }

  /** Entry `i` after the repair of `fs`. */
  function EntryAfter(raw: u64, fs: seq<Finding>, i: nat): u64 {
    if Zeroed(fs, i) then 0 else if BatEntryUnaligned(i) in fs then Cleaned(raw) else raw
  }

  /** An entry at `at` shares no byte with a header or region table copy. */
  predicate EntryClear(at: nat) {
    forall k: Kind, c: Copy :: at + 8 <= Place(k, c) || Place(k, c) + Size(k) <= at
  }

  lemma FixEntry(img: seq<byte>, bat: nat, f: Finding, i: nat)
    requires EntryClear(bat + i * 8) && bat + i * 8 + 8 <= |img| && CanFix(|img|, Some(bat), f)
    ensures var raw := LeU64(img, bat + i * 8);
            LeU64(Fix(img, Some(bat), f), bat + i * 8)
            == if !NamesEntry(f) || f.index != i then raw else if f.BatEntryUnaligned? then Cleaned(raw) else 0
  {
    hide Signed, Cleaned, ToLe64, Slot, LeU32;
    var at, r := bat + i * 8, Fix(img, Some(bat), f);
    if NamesEntry(f) && f.index == i {
      LeU64Slice(r, at, at + 8, 0);
      ZeroEntryReads();
    } else {
      forall p | at <= p < at + 8
        ensures r[p] == img[p]
      {
        EntryUntouched(bat, f, i, p);
        FixFrame(img, Some(bat), f, p);
      }
      SameBytesRead(r, img, at);
    }
  }

  lemma EntryUntouched(bat: nat, f: Finding, i: nat, p: nat)
    requires EntryClear(bat + i * 8) && bat + i * 8 <= p < bat + i * 8 + 8
    requires !NamesEntry(f) || f.index != i
    ensures !Touches(Some(bat), f, p)
  {
    var at := bat + i * 8;
    assert at + 8 <= Place(HeaderBlock, First) || Place(HeaderBlock, First) + Size(HeaderBlock) <= at;
    assert at + 8 <= Place(HeaderBlock, Second) || Place(HeaderBlock, Second) + Size(HeaderBlock) <= at;
    assert at + 8 <= Place(TableBlock, First) || Place(TableBlock, First) + Size(TableBlock) <= at;
    assert at + 8 <= Place(TableBlock, Second) || Place(TableBlock, Second) + Size(TableBlock) <= at;
  }

  lemma ZeroEntryReads()
    ensures LeU64(Zeros(8), 0) == 0
  {}

  lemma SameBytesRead(x: seq<byte>, y: seq<byte>, at: nat)
    requires at + 8 <= |x| == |y| && forall p :: at <= p < at + 8 ==> x[p] == y[p]
    ensures LeU64(x, at) == LeU64(y, at)
  {}

  /**
   Whatever findings hit an entry, and in whatever order, it ends up zero if one of them zeroes
   it, and otherwise keeps its state and offset.
   */
  lemma {:induction false} EntryRepaired(img: seq<byte>, bat: nat, fs: seq<Finding>, i: nat)
    requires EntryClear(bat + i * 8) && bat + i * 8 + 8 <= |img| && CanFixAll(|img|, Some(bat), fs)
    ensures LeU64(FixAll(img, Some(bat), fs), bat + i * 8) == EntryAfter(LeU64(img, bat + i * 8), fs, i)
  {
    hide Fix, CanFix, Cleaned, LeU64;
    if |fs| > 0 {
      var init, last := fs[..|fs| - 1], fs[|fs| - 1];
      assert fs == init + [last];
      EntryRepaired(img, bat, init, i);
      FixEntry(FixAll(img, Some(bat), init), bat, last, i);
      CleanedKeeps(LeU64(img, bat + i * 8));
    }
  }

  // ── One block copy ────────────────────────────────────────────────────────

  /** The repair of `f`, if it rewrites an entry, stays clear of the block copies. */
  predicate Clear(bat: Option<nat>, f: Finding) {
    NamesEntry(f) && bat.Some? ==> EntryClear(bat.value + f.index * 8)
  }

  /** The four block copies and a table beyond them are apart. */
  lemma SlotUntouched(bat: Option<nat>, f: Finding, k: Kind, c: Copy, p: nat)
    requires Clear(bat, f) && f != Mismatch(k, c) && Place(k, c) <= p < Place(k, c) + Size(k)
    ensures !Touches(bat, f, p)
  {
    if NamesEntry(f) && bat.Some? {
      var at := bat.value + f.index * 8;
      assert at + 8 <= Place(k, c) || Place(k, c) + Size(k) <= at;
    }
  }

  lemma SameSlice(x: seq<byte>, y: seq<byte>, lo: nat, hi: nat)
    requires lo <= hi <= |x| && hi <= |y| && forall p :: lo <= p < hi ==> x[p] == y[p]
    ensures x[lo..hi] == y[lo..hi]
  {}

  lemma FixSlot(img: seq<byte>, bat: Option<nat>, f: Finding, k: Kind, c: Copy)
    requires MIN_SIZE <= |img| && Clear(bat, f) && CanFix(|img|, bat, f)
    ensures Slot(Fix(img, bat, f), k, c)
         == if f == Mismatch(k, c) then Signed(Slot(img, k, OtherCopy(c))) else Slot(img, k, c)
  {
    hide Signed, Cleaned, ToLe64, LeU64;
    if f != Mismatch(k, c) {
      hide Touches, Fix, Mismatch, Clear;
      var r := Fix(img, bat, f);
      forall p | Place(k, c) <= p < Place(k, c) + Size(k)
        ensures r[p] == img[p]
      {
        SlotUntouched(bat, f, k, c, p);
        FixFrame(img, bat, f, p);
      }
      SameSlice(r, img, Place(k, c), Place(k, c) + Size(k));
    }
  }

  /** A copy that is reported becomes the other copy, signed; the other stays as it was. */
  lemma {:induction false} SlotRepaired(img: seq<byte>, bat: Option<nat>, fs: seq<Finding>, k: Kind, c: Copy)
    requires MIN_SIZE <= |img| && CanFixAll(|img|, bat, fs) && forall f :: f in fs ==> Clear(bat, f)
    requires Mismatch(k, OtherCopy(c)) !in fs
    ensures var r := FixAll(img, bat, fs);
            && Slot(r, k, OtherCopy(c)) == Slot(img, k, OtherCopy(c))
            && Slot(r, k, c) == if Mismatch(k, c) in fs then Signed(Slot(img, k, OtherCopy(c))) else Slot(img, k, c)
  {
    hide Fix, CanFix, Signed, Slot, Clear;
    if |fs| > 0 {
      var init, last := fs[..|fs| - 1], fs[|fs| - 1];
      assert fs == init + [last];
      assert last in fs;
      SlotRepaired(img, bat, init, k, c);
      FixSlot(FixAll(img, bat, init), bat, last, k, c);
      FixSlot(FixAll(img, bat, init), bat, last, k, OtherCopy(c));
    }
  }
}
