/**
 Log runs and the two ways of replaying them.

 A run is what one log descriptor contributes: bytes destined for a container offset. The
 in-place path skips a data sector that is not wholly inside the container; the overlay
 path records every run and later writes whatever part of it meets the bytes being read.
 */
module Replay {
  import opened Bytes

  const SECTOR: nat := 4096

  /**
   What can stop a replay: the in-place path computes the end of a sector in 64 bits, and the
   overlay path allocates a zero run, which no allocation of 2^63 bytes or more survives.
   */
  datatype Trap = SectorEnd | ZeroLength

  /** `sector` tells a data descriptor's run from a zero descriptor's. */
  datatype Run = Run(offset: nat, bytes: seq<byte>, sector: bool) {
    predicate Covers(p: int) {
      offset <= p < offset + |bytes|
    }

    /** The in-place guard: a zero run is clipped, a sector must fit. */
    predicate Applies(n: nat) {
      sector ==> offset + |bytes| <= n
    }

    predicate Trips(t: Trap) {
      match t
      case SectorEnd => sector && offset + |bytes| >= TWO64
      case ZeroLength => !sector && |bytes| >= TWO63
    }
  }

  /** `buf`, standing for the container bytes from `base` on, with one run written over it. */
  function Overwrite(buf: seq<byte>, base: nat, run: Run): (r: seq<byte>)
    ensures |r| == |buf|
    ensures forall i :: 0 <= i < |buf| ==>
              r[i] == if run.Covers(base + i) then run.bytes[base + i - run.offset] else buf[i]
  {
    seq(|buf|, i requires 0 <= i < |buf| =>
      if run.Covers(base + i) then run.bytes[base + i - run.offset] else buf[i])
  }

  /** What a read through the overlay shows: every run, in order, clipped to the buffer. */
  function Overlaid(buf: seq<byte>, base: nat, runs: seq<Run>): (r: seq<byte>)
    ensures |r| == |buf|
  {
    if |runs| == 0 then buf
    else Overwrite(Overlaid(buf, base, runs[..|runs| - 1]), base, runs[|runs| - 1])
  }

  /** What in-place replay leaves: the same runs, without the sectors that do not fit. */
  function InPlace(img: seq<byte>, runs: seq<Run>): (r: seq<byte>)
    ensures |r| == |img|
  {
    if |runs| == 0 then img
    else
      var before := InPlace(img, runs[..|runs| - 1]);
      var run := runs[|runs| - 1];
      if run.Applies(|img|) then Overwrite(before, 0, run) else before
  }

  // ── Normal forms ──────────────────────────────────────────────────────────

  /** Index of the last run covering `p`, or -1. */
  function Top(runs: seq<Run>, p: nat): (k: int)
    ensures -1 <= k < |runs|
    ensures k >= 0 ==> runs[k].Covers(p)
    ensures forall j :: k < j < |runs| ==> !runs[j].Covers(p)
  {
    if |runs| == 0 then -1
    else if runs[|runs| - 1].Covers(p) then |runs| - 1
    else Top(runs[..|runs| - 1], p)
  }

  /** Index of the last run that covers `p` and is applied in place, or -1. */
  function TopApplied(runs: seq<Run>, p: nat, n: nat): (k: int)
    ensures -1 <= k < |runs|
    ensures k >= 0 ==> runs[k].Covers(p) && runs[k].Applies(n)
    ensures forall j :: k < j < |runs| ==> !(runs[j].Covers(p) && runs[j].Applies(n))
  {
    if |runs| == 0 then -1
    else if runs[|runs| - 1].Covers(p) && runs[|runs| - 1].Applies(n) then |runs| - 1
    else TopApplied(runs[..|runs| - 1], p, n)
  }

  /** Each overlaid byte is the last run covering it, else the original. */
  lemma {:induction false} OverlaidNormalForm(buf: seq<byte>, base: nat, runs: seq<Run>, i: nat)
    requires i < |buf|
    ensures var k := Top(runs, base + i);
            Overlaid(buf, base, runs)[i]
            == if k >= 0 then runs[k].bytes[base + i - runs[k].offset] else buf[i]
  {
    if |runs| > 0 {
      OverlaidNormalForm(buf, base, runs[..|runs| - 1], i);
    }
  }

  /** Each replayed byte is the last applicable run covering it, else the original. */
  lemma {:induction false} InPlaceNormalForm(img: seq<byte>, runs: seq<Run>, p: nat)
    requires p < |img|
    ensures var k := TopApplied(runs, p, |img|);
            InPlace(img, runs)[p] == if k >= 0 then runs[k].bytes[p - runs[k].offset] else img[p]
  {
    if |runs| > 0 {
      InPlaceNormalForm(img, runs[..|runs| - 1], p);
    }
  }

  /** Replaying the same runs again changes nothing. */
  lemma InPlaceIdempotent(img: seq<byte>, runs: seq<Run>)
    ensures InPlace(InPlace(img, runs), runs) == InPlace(img, runs)
  {
    var once := InPlace(img, runs);
    forall p | 0 <= p < |img|
      ensures InPlace(once, runs)[p] == once[p]
    {
      InPlaceNormalForm(img, runs, p);
      InPlaceNormalForm(once, runs, p);
    }
  }

  /** A byte no run covers keeps its value, on either path. */
  lemma Untouched(img: seq<byte>, runs: seq<Run>, p: nat)
    requires p < |img| && forall k :: 0 <= k < |runs| ==> !runs[k].Covers(p)
    ensures InPlace(img, runs)[p] == img[p] && Overlaid(img, 0, runs)[p] == img[p]
  {
    InPlaceNormalForm(img, runs, p);
    OverlaidNormalForm(img, 0, runs, p);
  }

  /** Patching any window is the same as taking that window of the larger patched buffer. */
  lemma PatchLocality(buf: seq<byte>, base: nat, runs: seq<Run>, i: nat, j: nat)
    requires i <= j <= |buf|
    ensures Overlaid(buf[i..j], base + i, runs) == Overlaid(buf, base, runs)[i..j]
  {
    var window, whole := Overlaid(buf[i..j], base + i, runs), Overlaid(buf, base, runs);
    forall k | 0 <= k < j - i
      ensures window[k] == whole[i..j][k]
    {
      assert base + i + k == base + (i + k);
      OverlaidNormalForm(buf[i..j], base + i, runs, k);
      OverlaidNormalForm(buf, base, runs, i + k);
    }
    assert |window| == |whole[i..j]|;
  }

  // ── When the two paths agree ──────────────────────────────────────────────

  /**
   No sector that the in-place path skips is the last run to cover a container byte. It is
   decided by the descriptors and the container length alone.
   */
  ghost predicate Settled(runs: seq<Run>, n: nat) {
    forall p :: 0 <= p < n && Top(runs, p) >= 0 ==> runs[Top(runs, p)].Applies(n)
  }

  /** Stronger, and checkable run by run: each sector fits or starts at or after the end. */
  predicate NoneStraddles(runs: seq<Run>, n: nat) {
    forall k :: 0 <= k < |runs| ==> runs[k].Applies(n) || runs[k].offset >= n
  }

  lemma NoneStraddlesSettled(runs: seq<Run>, n: nat)
    requires NoneStraddles(runs, n)
    ensures Settled(runs, n)
  {}

  lemma SettledAgrees(img: seq<byte>, runs: seq<Run>)
    requires Settled(runs, |img|)
    ensures Overlaid(img, 0, runs) == InPlace(img, runs)
  {
    forall p | 0 <= p < |img|
      ensures Overlaid(img, 0, runs)[p] == InPlace(img, runs)[p]
    {
      SettledAgreesAt(img, runs, p);
    }
  }

  lemma SettledAgreesAt(img: seq<byte>, runs: seq<Run>, p: nat)
    requires p < |img| && (Top(runs, p) >= 0 ==> runs[Top(runs, p)].Applies(|img|))
    ensures Overlaid(img, 0, runs)[p] == InPlace(img, runs)[p]
  {
    OverlaidNormalForm(img, 0, runs, p);
    InPlaceNormalForm(img, runs, p);
    assert 0 + p == p;
    assert TopApplied(runs, p, |img|) == Top(runs, p);
  }

  /** The same descriptors, possibly with other sector contents. */
  predicate SameShape(a: seq<Run>, b: seq<Run>) {
    && |a| == |b|
    && forall k :: 0 <= k < |a| ==>
         a[k].offset == b[k].offset && |a[k].bytes| == |b[k].bytes| && a[k].sector == b[k].sector
  }

  /** Zero descriptors write zeros. */
  predicate ZeroRunsZero(runs: seq<Run>) {
    forall k :: 0 <= k < |runs| && !runs[k].sector ==> forall i :: 0 <= i < |runs[k].bytes| ==> runs[k].bytes[i] == 0
  }

  ghost predicate PathsAgree(img: seq<byte>, runs: seq<Run>) {
    Overlaid(img, 0, runs) == InPlace(img, runs)
  }

  /** `runs` with sector `k` filled with ones and every other run with zeros. */
  function Witness(runs: seq<Run>, k: nat): (w: seq<Run>)
    ensures SameShape(w, runs)
  {
    seq(|runs|, j requires 0 <= j < |runs| =>
      Run(runs[j].offset, Fill(|runs[j].bytes|, if j == k then 1 else 0), runs[j].sector))
  }

  /**
   Exactly which descriptor lists the two paths replay alike: for a given list, every image
   of length `n` and all sector contents agree if and only if the list is settled.
   */
  lemma PathsAgreeExactly(runs: seq<Run>, n: nat)
    ensures Settled(runs, n)
       <==> forall img: seq<byte>, r: seq<Run> ::
              |img| == n && SameShape(r, runs) && ZeroRunsZero(r) ==> PathsAgree(img, r)
  {
    if Settled(runs, n) {
      forall img: seq<byte>, r: seq<Run> | |img| == n && SameShape(r, runs) && ZeroRunsZero(r)
        ensures PathsAgree(img, r)
      {
        SettledShape(r, runs, n);
        SettledAgrees(img, r);
      }
    } else {
      var p :| 0 <= p < n && Top(runs, p) >= 0 && !runs[Top(runs, p)].Applies(n);
      WitnessDiffers(runs, n, p);
    }
  }

  /** If a skipped sector is the last to cover `p`, its contents show through the overlay only. */
  lemma WitnessDiffers(runs: seq<Run>, n: nat, p: nat)
    requires p < n && Top(runs, p) >= 0 && !runs[Top(runs, p)].Applies(n)
    ensures var w := Witness(runs, Top(runs, p));
            SameShape(w, runs) && ZeroRunsZero(w) && !PathsAgree(Zeros(n), w)
  {
    var k := Top(runs, p);
    var w, img := Witness(runs, k), Zeros(n);
    SameTop(w, runs, p);
    WitnessOverlaid(runs, img, p);
    WitnessInPlace(runs, img, p);
  }

  lemma TopShows(img: seq<byte>, runs: seq<Run>, p: nat, k: nat)
    requires p < |img| && Top(runs, p) == k
    ensures Overlaid(img, 0, runs)[p] == runs[k].bytes[p - runs[k].offset]
  {
    OverlaidNormalForm(img, 0, runs, p);
    assert 0 + p == p;
  }

  lemma WitnessOverlaid(runs: seq<Run>, img: seq<byte>, p: nat)
    requires p < |img| && Top(runs, p) >= 0
    ensures Overlaid(img, 0, Witness(runs, Top(runs, p)))[p] == 1
  {
    var k := Top(runs, p);
    var w := Witness(runs, k);
    SameTop(w, runs, p);
    TopShows(img, w, p, k);
    assert w[k].bytes == Fill(|runs[k].bytes|, 1);
  }

  lemma WitnessInPlace(runs: seq<Run>, img: seq<byte>, p: nat)
    requires p < |img| && img[p] == 0
    requires Top(runs, p) >= 0 && !runs[Top(runs, p)].Applies(|img|)
    ensures InPlace(img, Witness(runs, Top(runs, p)))[p] == 0
  {
    InPlaceNormalForm(img, Witness(runs, Top(runs, p)), p);
  }

  lemma SameTop(a: seq<Run>, b: seq<Run>, p: nat)
    requires SameShape(a, b)
    ensures Top(a, p) == Top(b, p)
  {}

  lemma SettledShape(a: seq<Run>, b: seq<Run>, n: nat)
    requires SameShape(a, b) && Settled(b, n)
    ensures Settled(a, n)
  {
    forall p | 0 <= p < n && Top(a, p) >= 0
      ensures a[Top(a, p)].Applies(n)
    {
      SameTop(a, b, p);
    }
  }

  lemma {:induction false} InPlaceConcat(img: seq<byte>, a: seq<Run>, b: seq<Run>)
    ensures InPlace(img, a + b) == InPlace(InPlace(img, a), b)
  {
    if |b| == 0 {
      assert a + b == a;
    } else {
      assert (a + b)[..|a + b| - 1] == a + b[..|b| - 1];
      InPlaceConcat(img, a, b[..|b| - 1]);
    }
  }

  // ── The patch loop ────────────────────────────────────────────────────────

  /**
   Patch `buf[lo..hi]`, which was filled from container offset `readOff`, with every run
   that meets it, in replay order. Ends are computed with 64-bit saturation.
   */
  method Patch(runs: seq<Run>, buf: array<byte>, lo: nat, hi: nat, readOff: nat)
    requires lo <= hi <= buf.Length
    requires readOff + (hi - lo) < TWO64
    requires forall k :: 0 <= k < |runs| ==> runs[k].offset < TWO64
    modifies buf
    ensures buf[lo..hi] == Overlaid(old(buf[lo..hi]), readOff, runs)
    ensures forall p :: 0 <= p < buf.Length && !(lo <= p < hi) ==> buf[p] == old(buf[p])
  {
    if |runs| == 0 || lo == hi {
      return;
    }
    var readEnd := Min(readOff + (hi - lo), TWO64 - 1);
    for k := 0 to |runs|
      invariant buf[lo..hi] == Overlaid(old(buf[lo..hi]), readOff, runs[..k])
      invariant forall p :: 0 <= p < buf.Length && !(lo <= p < hi) ==> buf[p] == old(buf[p])
    {
      assert runs[..k + 1][..k] == runs[..k];
      PatchRun(runs[k], buf, lo, hi, readOff, readEnd);
    }
    assert runs[..|runs|] == runs;
  }

  method PatchRun(run: Run, buf: array<byte>, lo: nat, hi: nat, readOff: nat, readEnd: nat)
    requires lo <= hi <= buf.Length
    requires readEnd == readOff + (hi - lo) < TWO64 && run.offset < TWO64
    modifies buf
    ensures buf[lo..hi] == Overwrite(old(buf[lo..hi]), readOff, run)
    ensures forall p :: 0 <= p < buf.Length && !(lo <= p < hi) ==> buf[p] == old(buf[p])
  {
    var runEnd := Min(run.offset + |run.bytes|, TWO64 - 1);
    var ovStart, ovEnd := Max(run.offset, readOff), Min(runEnd, readEnd);
    if ovStart < ovEnd {
      var dst, src, n := lo + (ovStart - readOff), ovStart - run.offset, ovEnd - ovStart;
      CopyInto(buf, dst, run.bytes[src..src + n]);
    }
    ghost var after := Overwrite(old(buf[lo..hi]), readOff, run);
    forall i | 0 <= i < hi - lo
      ensures buf[lo + i] == after[i]
    {
      assert old(buf[lo..hi])[i] == old(buf[lo + i]);
      if run.Covers(readOff + i) {
        assert ovStart <= readOff + i < ovEnd;
      }
    }
    assert buf[lo..hi] == after;
  }
}
