/**
 The item sweep over every order that the unstable sort may leave: when some order reports an
 overlap, when some order reports none, and so when the sweep can be trusted.
 */
module Orders {
  import opened Bytes
  import opened Sweeps

  /** No range ends before it starts. */
  predicate Forward(rs: seq<Keyed>) {
    forall r :: r in rs ==> r.key <= r.value
  }

  /** No two neighbours meet. */
  predicate Silent(rs: seq<Keyed>) {
    forall k :: 0 < k < |rs| ==> !Meets(rs[k - 1], rs[k])
  }

  lemma SilentExactly(rs: seq<Keyed>)
    ensures NeighbourOverlaps(rs) == [] <==> Silent(rs)
  {
    SomeNeighbourMeets(rs);
  }

  ghost predicate SomeOrderReports(rs: seq<Keyed>) {
    exists s :: SortOf(s, rs) && NeighbourOverlaps(s) != []
  }

  ghost predicate SomeOrderSilent(rs: seq<Keyed>) {
    exists s :: SortOf(s, rs) && NeighbourOverlaps(s) == []
  }

  // ── Orders ────────────────────────────────────────────────────────────────

  lemma Inserted(sorted: seq<Keyed>, p: Keyed) returns (r: seq<Keyed>)
    requires Ascending(sorted)
    ensures Ascending(r) && multiset(r) == multiset(sorted) + multiset{p}
  {
    hide Ascending;
    var at := |sorted|;
    while at > 0 && sorted[at - 1].key > p.key
      invariant 0 <= at <= |sorted| && forall k :: at <= k < |sorted| ==> sorted[k].key > p.key
    {
      at := at - 1;
    }
    InsertedAscending(sorted, at, p);
    assert sorted == sorted[..at] + sorted[at..];
    r := sorted[..at] + [p] + sorted[at..];
  }

  /** There is an order. */
  lemma {:induction false} SomeOrder(rs: seq<Keyed>) returns (s: seq<Keyed>)
    ensures SortOf(s, rs)
  {
    s := [];
    if |rs| > 0 {
      var init, last := rs[..|rs| - 1], rs[|rs| - 1];
      assert rs == init + [last];
      s := SomeOrder(init);
      hide Ascending;
      s := Inserted(s, last);
    }
  }

  /** Exchanging two members of one key gives another order. */
  lemma Swap(s: seq<Keyed>, rs: seq<Keyed>, i: nat, j: nat) returns (t: seq<Keyed>)
    requires SortOf(s, rs) && i < |s| && j < |s| && s[i].key == s[j].key
    ensures SortOf(t, rs) && t == s[i := s[j]][j := s[i]]
  {
    t := s[i := s[j]][j := s[i]];
    assert forall k :: 0 <= k < |s| ==> t[k].key == s[k].key;
  }

  // ── When some order reports ───────────────────────────────────────────────

  /** An empty range starts strictly inside another. */
  predicate StartsInside(e: Keyed, a: Keyed) { e.value <= e.key && a.key < e.key < a.value }

  predicate SomeStartsInside(rs: seq<Keyed>) {
    exists i, j :: 0 <= i < |rs| && 0 <= j < |rs| && StartsInside(rs[i], rs[j])
  }

  /** Two members meet, were they neighbours. */
  predicate WouldMeet(a: Keyed, b: Keyed) { a.key <= b.key && Meets(a, b) }

  ghost predicate SomeWouldMeet(rs: seq<Keyed>) {
    exists i, j :: 0 <= i < |rs| && 0 <= j < |rs| && i != j && WouldMeet(rs[i], rs[j])
  }

  /** They share a byte, or the later one is empty and starts strictly inside the earlier. */
  lemma WouldMeetExactly(a: Keyed, b: Keyed)
    requires a.key <= a.value && b.key <= b.value && a.key <= b.key
    ensures Meets(a, b) <==> Share(a, b) || StartsInside(b, a)
  {
    ShareExactly(a, b);
  }

  lemma SomeWouldMeetExactly(rs: seq<Keyed>)
    requires Forward(rs)
    ensures SomeWouldMeet(rs) <==> SomeShare(rs) || SomeStartsInside(rs)
  {
    hide Meets, Share, StartsInside;
    if SomeWouldMeet(rs) {
      var i, j :| 0 <= i < |rs| && 0 <= j < |rs| && i != j && WouldMeet(rs[i], rs[j]);
      WouldMeetExactly(rs[i], rs[j]);
    }
    if SomeShare(rs) {
      var i, j :| 0 <= i < |rs| && 0 <= j < |rs| && i != j && Share(rs[i], rs[j]);
      ShareSymmetric(rs[i], rs[j]);
      var k, l := if rs[i].key <= rs[j].key then i else j, if rs[i].key <= rs[j].key then j else i;
      WouldMeetExactly(rs[k], rs[l]);
      assert WouldMeet(rs[k], rs[l]);
    }
    if SomeStartsInside(rs) {
      var i, j :| 0 <= i < |rs| && 0 <= j < |rs| && StartsInside(rs[i], rs[j]);
      InsideLater(rs[i], rs[j]);
      WouldMeetExactly(rs[j], rs[i]);
      assert WouldMeet(rs[j], rs[i]);
    }
  }

  lemma InsideLater(e: Keyed, a: Keyed)
    requires StartsInside(e, a)
    ensures a.key < e.key
  {}

  /** Last member with the key of member `i`. */
  lemma GroupEnd(s: seq<Keyed>, i: nat) returns (m: nat)
    requires Ascending(s) && i < |s|
    ensures i <= m < |s| && s[m].key == s[i].key
    ensures m + 1 < |s| ==> s[m + 1].key > s[i].key
  {
    m := i;
    while m + 1 < |s| && s[m + 1].key == s[i].key
      invariant i <= m < |s| && s[m].key == s[i].key
    {
      m := m + 1;
    }
  }

  /** Two members that would meet can be brought side by side, or one beside a third it meets. */
  lemma BringTogether(s: seq<Keyed>, rs: seq<Keyed>, i: nat, j: nat) returns (t: seq<Keyed>)
    requires SortOf(s, rs) && Forward(s) && i < |s| && j < |s| && i != j && WouldMeet(s[i], s[j])
    ensures SortOf(t, rs) && !Silent(t)
  {
    if s[i].key == s[j].key {
      var lo, hi := Min(i, j), Max(i, j);
      assert s[lo].key <= s[lo + 1].key && s[lo + 1].key <= s[hi].key;
      t := Swap(s, rs, lo + 1, hi);
      assert Meets(t[lo + 1 - 1], t[lo + 1]);
    } else {
      assert i < j;
      var m := GroupEnd(s, i);
      assert m + 1 <= j;
      t := Swap(s, rs, i, m);
      assert s[m + 1] in s && s[m + 1].key <= s[j].key;
      assert Meets(t[m + 1 - 1], t[m + 1]);
    }
  }

  /** Some order reports an overlap exactly when two share a byte or an empty range starts strictly inside another. */
  lemma ReportsExactly(rs: seq<Keyed>)
    requires Forward(rs)
    ensures SomeOrderReports(rs) <==> SomeShare(rs) || SomeStartsInside(rs)
  {
    hide NeighbourOverlaps, SomeShare, SomeStartsInside, Meets, Ascending;
    SomeWouldMeetExactly(rs);
    if SomeOrderReports(rs) {
      var s :| SortOf(s, rs) && NeighbourOverlaps(s) != [];
      SilentExactly(s);
      var k :| 0 < k < |s| && Meets(s[k - 1], s[k]);
      AscendingPair(s, k);
      var i, j := PairMoves(s, rs, k - 1, k);
      assert WouldMeet(rs[i], rs[j]);
    }
    if SomeWouldMeet(rs) {
      var i, j :| 0 <= i < |rs| && 0 <= j < |rs| && i != j && WouldMeet(rs[i], rs[j]);
      var s := SomeOrder(rs);
      var k, l := PairMoves(rs, s, i, j);
      ForwardMoves(rs, s);
      var t := BringTogether(s, rs, k, l);
      SilentExactly(t);
    }
  }

  lemma AscendingPair(s: seq<Keyed>, k: nat)
    requires Ascending(s) && 0 < k < |s|
    ensures s[k - 1].key <= s[k].key
  {}

  lemma ForwardMoves(rs: seq<Keyed>, s: seq<Keyed>)
    requires multiset(s) == multiset(rs) && Forward(rs)
    ensures Forward(s)
  {
    forall r | r in s
      ensures r.key <= r.value
    {
      assert r in multiset(s);
    }
  }

  // ── When some order is silent ─────────────────────────────────────────────

  /** The members of key `k`, the non-empty or the empty ones. */
  function Pick(rs: seq<Keyed>, k: nat, full: bool): (r: seq<Keyed>)
    ensures forall p :: p in r ==> p in rs && p.key == k && (p.key < p.value) == full
  {
    if |rs| == 0 then []
    else
      var last := rs[|rs| - 1];
      Pick(rs[..|rs| - 1], k, full) + if last.key == k && (last.key < last.value) == full then [last] else []
  }

  /** A non-empty range of key `k` that ends at or before every later key. */
  predicate EndsBy(rs: seq<Keyed>, r: Keyed, k: nat) {
    r.key == k && r.key < r.value && forall p :: p in rs && p.key > k ==> r.value <= p.key
  }

  predicate SomeEndsBy(rs: seq<Keyed>, k: nat) {
    exists r :: r in rs && EndsBy(rs, r, k)
  }

  /**
   The ranges of key `k` can be put side by side without a meeting: empty ones suffice to stand
   between the non-empty ones, and after the last of them unless that one may end the group.
   */
  predicate Passes(rs: seq<Keyed>, k: nat) {
    var n, e := |Pick(rs, k, true)|, |Pick(rs, k, false)|;
    n <= e || (n == e + 1 && SomeEndsBy(rs, k))
  }

  predicate AllPass(rs: seq<Keyed>) {
    forall i :: 0 <= i < |rs| ==> Passes(rs, rs[i].key)
  }

  lemma {:induction false} PickCount(rs: seq<Keyed>, k: nat, full: bool, x: Keyed)
    ensures multiset(Pick(rs, k, full))[x]
         == if x.key == k && (x.key < x.value) == full then multiset(rs)[x] else 0
  {
    if |rs| > 0 {
      var init, last := rs[..|rs| - 1], rs[|rs| - 1];
      PickCount(init, k, full, x);
      PickLast(rs, k, full);
      hide *;
      OneMore(rs, init, last, x);
      if last.key == k && (last.key < last.value) == full {
        OneMore(Pick(rs, k, full), Pick(init, k, full), last, x);
      }
    }
  }

  lemma PickLast(rs: seq<Keyed>, k: nat, full: bool)
    requires |rs| > 0
    ensures var init, last := rs[..|rs| - 1], rs[|rs| - 1];
            && rs == init + [last]
            && Pick(rs, k, full)
               == if last.key == k && (last.key < last.value) == full then Pick(init, k, full) + [last]
                  else Pick(init, k, full)
  {}

  lemma OneMore(qs: seq<Keyed>, ps: seq<Keyed>, p: Keyed, x: Keyed)
    requires qs == ps + [p]
    ensures multiset(qs)[x] == multiset(ps)[x] + if x == p then 1 else 0
  {}

  lemma PickMoves(a: seq<Keyed>, b: seq<Keyed>, k: nat, full: bool)
    requires multiset(a) == multiset(b)
    ensures |Pick(a, k, full)| == |Pick(b, k, full)|
  {
    hide Pick;
    forall x
      ensures multiset(Pick(a, k, full))[x] == multiset(Pick(b, k, full))[x]
    {
      PickCount(a, k, full, x);
      PickCount(b, k, full, x);
    }
    SameSize(Pick(a, k, full), Pick(b, k, full));
  }

  lemma SameSize(a: seq<Keyed>, b: seq<Keyed>)
    requires forall x :: multiset(a)[x] == multiset(b)[x]
    ensures |a| == |b|
  {
    assert multiset(a) == multiset(b);
    assert |a| == |multiset(a)| == |multiset(b)| == |b|;
  }

  lemma PassesMoves(a: seq<Keyed>, b: seq<Keyed>, k: nat)
    requires multiset(a) == multiset(b) && Passes(a, k)
    ensures Passes(b, k)
  {
    hide Pick;
    PickMoves(a, b, k, true);
    PickMoves(a, b, k, false);
    if SomeEndsBy(a, k) {
      var r :| r in a && EndsBy(a, r, k);
      assert r in multiset(b);
      forall p | p in b && p.key > k
        ensures r.value <= p.key
      {
        assert p in multiset(a);
      }
      assert EndsBy(b, r, k);
    }
  }

  // ── A silent order makes every group pass ─────────────────────────────────

  /** What a silent prefix says of the ranges of key `k`. */
  predicate Standing(s: seq<Keyed>, k: nat) {
    var n, e := |Pick(s, k, true)|, |Pick(s, k, false)|;
    if |s| == 0 || s[|s| - 1].key < k then n == 0 && e == 0
    else if s[|s| - 1].key == k then n <= e + if s[|s| - 1].key < s[|s| - 1].value then 1 else 0
    else n <= e || (n == e + 1 && SomeEndsBy(s, k))
  }

  lemma PickStep(s: seq<Keyed>, k: nat)
    requires |s| > 0
    ensures var init, last := s[..|s| - 1], s[|s| - 1];
            && |Pick(s, k, true)| == |Pick(init, k, true)| + (if last.key == k && last.key < last.value then 1 else 0)
            && |Pick(s, k, false)|
               == |Pick(init, k, false)| + (if last.key == k && last.key >= last.value then 1 else 0)
  {}

  lemma {:induction false} SilentStanding(s: seq<Keyed>, k: nat)
    requires Ascending(s) && Silent(s) && Forward(s)
    ensures Standing(s, k)
  {
    if |s| > 0 {
      var init, last := s[..|s| - 1], s[|s| - 1];
      Prefix(s);
      SilentStanding(init, k);
      PickStep(s, k);
      hide Pick, Silent, Forward, Ascending;
      if |s| > 1 && last.key > k {
        EndsByKept(s, k);
      }
    }
  }

  lemma Prefix(s: seq<Keyed>)
    requires |s| > 0 && Ascending(s) && Silent(s) && Forward(s)
    ensures Ascending(s[..|s| - 1]) && Silent(s[..|s| - 1]) && Forward(s[..|s| - 1])
    ensures |s| > 1 ==> s[|s| - 2].key <= s[|s| - 1].key
  {}

  /** The group of key `k` is over: if its last range is not empty it ends by the later keys. */
  lemma EndsByKept(s: seq<Keyed>, k: nat)
    requires |s| > 1 && Ascending(s) && Silent(s) && Forward(s) && s[|s| - 1].key > k
    ensures SomeEndsBy(s[..|s| - 1], k) && s[|s| - 2].key > k ==> SomeEndsBy(s, k)
    ensures s[|s| - 2].key == k && s[|s| - 2].key < s[|s| - 2].value ==> SomeEndsBy(s, k)
  {
    var init, last, a := s[..|s| - 1], s[|s| - 1], s[|s| - 2];
    assert a in init && a in s && last in s && !Meets(s[|s| - 1 - 1], s[|s| - 1]);
    if SomeEndsBy(init, k) && a.key > k {
      var r :| r in init && EndsBy(init, r, k);
      forall p | p in s && p.key > k
        ensures r.value <= p.key
      {
        assert p in init || p == last;
      }
      assert EndsBy(s, r, k);
    }
    if a.key == k && a.key < a.value {
      forall p | p in s && p.key > k
        ensures a.value <= p.key
      {
        var i :| 0 <= i < |s| && s[i] == p;
        assert i == |s| - 1;
      }
      assert EndsBy(s, a, k);
    }
  }

  lemma SilentPasses(s: seq<Keyed>, k: nat)
    requires Ascending(s) && Silent(s) && Forward(s)
    ensures Passes(s, k)
  {
    hide Pick, Silent;
    SilentStanding(s, k);
    if |s| > 0 && s[|s| - 1].key == k && s[|s| - 1].key < s[|s| - 1].value {
      assert s[|s| - 1] in s && EndsBy(s, s[|s| - 1], k);
    }
  }

  // ── Groups that pass have a silent order ──────────────────────────────────

  /** The ranges in turn: one of the first list, one of the second. */
  function Weave(ns: seq<Keyed>, es: seq<Keyed>): (g: seq<Keyed>)
    requires |ns| == |es|
    ensures |g| == 2 * |ns|
  {
    if |ns| == 0 then []
    else
      var n := |ns| - 1;
      Weave(ns[..n], es[..n]) + [ns[n], es[n]]
  }

  lemma LastApart(ps: seq<Keyed>, n: nat)
    requires |ps| == n + 1
    ensures ps == ps[..n] + [ps[n]]
  {}

  lemma {:induction false} WeaveCount(ns: seq<Keyed>, es: seq<Keyed>, x: Keyed)
    requires |ns| == |es|
    ensures multiset(Weave(ns, es))[x] == multiset(ns)[x] + multiset(es)[x]
  {
    if |ns| > 0 {
      var n := |ns| - 1;
      WeaveCount(ns[..n], es[..n], x);
      WeaveStep(ns, es);
      hide *;
      var w := Weave(ns[..n], es[..n]);
      LastApart(ns, n);
      LastApart(es, n);
      OneMore(ns, ns[..n], ns[n], x);
      OneMore(es, es[..n], es[n], x);
      TwoMore(Weave(ns, es), w, ns[n], es[n], x);
    }
  }

  lemma TwoMore(qs: seq<Keyed>, w: seq<Keyed>, a: Keyed, e: Keyed, x: Keyed)
    requires qs == w + [a, e]
    ensures multiset(qs)[x] == multiset(w)[x] + (if x == a then 1 else 0) + if x == e then 1 else 0
  {
    assert qs == w + [a] + [e];
  }

  lemma WeaveMultiset(ns: seq<Keyed>, es: seq<Keyed>)
    requires |ns| == |es|
    ensures multiset(Weave(ns, es)) == multiset(ns) + multiset(es)
  {
    hide Weave;
    forall x
      ensures multiset(Weave(ns, es))[x] == (multiset(ns) + multiset(es))[x]
    {
      WeaveCount(ns, es, x);
    }
  }

  /** All of key `k`, and all non-empty or all empty. */
  predicate Alike(ps: seq<Keyed>, k: nat, full: bool) {
    forall p :: p in ps ==> p.key == k && p.key <= p.value && (p.key < p.value) == full
  }

  lemma SilentConcat(a: seq<Keyed>, b: seq<Keyed>)
    requires Silent(a) && Silent(b) && (|a| > 0 && |b| > 0 ==> !Meets(a[|a| - 1], b[0]))
    ensures Silent(a + b)
  {
    hide Meets;
    var s := a + b;
    forall k | 0 < k < |s|
      ensures !Meets(s[k - 1], s[k])
    {
      if k < |a| {
        assert !Meets(a[k - 1], a[k]);
      } else if k > |a| {
        assert !Meets(b[k - |a| - 1], b[k - |a|]);
      }
    }
  }

  lemma WeaveStep(ns: seq<Keyed>, es: seq<Keyed>)
    requires |ns| == |es| > 0
    ensures var n := |ns| - 1;
            var w := Weave(ns[..n], es[..n]);
            && Weave(ns, es) == w + [ns[n], es[n]] && Weave(ns, es)[2 * n + 1] == es[n]
            && (n > 0 ==> w[|w| - 1] == es[n - 1])
  {}

  lemma PairSilent(a: Keyed, e: Keyed, k: nat)
    requires a.key == e.key == k && e.value <= e.key
    ensures Silent([a, e])
  {}

  lemma AlikeAt(ps: seq<Keyed>, k: nat, full: bool, i: nat)
    requires Alike(ps, k, full) && i < |ps|
    ensures ps[i].key == k && ps[i].key <= ps[i].value && (ps[i].key < ps[i].value) == full
    ensures Alike(ps[..i], k, full)
  {
    assert ps[i] in ps;
  }

  lemma {:induction false} WeaveSilent(ns: seq<Keyed>, es: seq<Keyed>, k: nat)
    requires |ns| == |es| && Alike(ns, k, true) && Alike(es, k, false)
    ensures Silent(Weave(ns, es))
  {
    if |ns| > 0 {
      hide Weave, Alike, Silent, Meets;
      var n := |ns| - 1;
      AlikeAt(ns, k, true, n);
      AlikeAt(es, k, false, n);
      WeaveStep(ns, es);
      WeaveSilent(ns[..n], es[..n], k);
      PairSilent(ns[n], es[n], k);
      if n > 0 {
        AlikeAt(es, k, false, n - 1);
        NoMeeting(es[n - 1], ns[n], k);
      }
      SilentConcat(Weave(ns[..n], es[..n]), [ns[n], es[n]]);
    }
  }

  lemma Cut(es: seq<Keyed>, k: nat, n: nat)
    requires Alike(es, k, false) && n <= |es|
    ensures Alike(es[..n], k, false) && Alike(es[n..], k, false) && es == es[..n] + es[n..]
    ensures |es[n..]| > 0 ==> es[n..][|es[n..]| - 1] == es[|es| - 1]
  {}

  /** All of one list in turn with as many of the other, and the rest of the other after them. */
  function Stretch(ns: seq<Keyed>, es: seq<Keyed>): seq<Keyed>
    requires |ns| <= |es|
  {
    Weave(ns, es[..|ns|]) + es[|ns|..]
  }

  lemma StretchMultiset(ns: seq<Keyed>, es: seq<Keyed>)
    requires |ns| <= |es|
    ensures multiset(Stretch(ns, es)) == multiset(ns) + multiset(es)
  {
    var n := |ns|;
    WeaveMultiset(ns, es[..n]);
    hide Weave;
    assert es == es[..n] + es[n..];
  }

  lemma EnoughEmpty(ns: seq<Keyed>, es: seq<Keyed>, k: nat)
    requires Alike(ns, k, true) && Alike(es, k, false) && |ns| <= |es|
    ensures var g := Stretch(ns, es);
            Silent(g) && (|g| > 0 ==> |es| > 0 && g[|g| - 1] == es[|es| - 1])
  {
    hide Weave, Alike, Silent, Meets;
    var n := |ns|;
    Cut(es, k, n);
    WeaveSilent(ns, es[..n], k);
    EmptiesSilent(es[n..], k);
    if n > 0 {
      WeaveStep(ns, es[..n]);
      AlikeAt(es, k, false, n - 1);
      if n < |es| {
        AlikeAt(es, k, false, n);
        NoMeeting(es[n - 1], es[n], k);
      }
    }
    SilentConcat(Weave(ns, es[..n]), es[n..]);
  }

  lemma EmptiesSilent(es: seq<Keyed>, k: nat)
    requires Alike(es, k, false)
    ensures Silent(es)
  {
    forall i | 0 < i < |es|
      ensures !Meets(es[i - 1], es[i])
    {
      assert es[i - 1] in es && es[i] in es;
    }
  }

  /** An empty range and another of its key do not meet. */
  lemma NoMeeting(e: Keyed, a: Keyed, k: nat)
    requires e.key == a.key == k && e.value <= e.key
    ensures !Meets(e, a)
  {}

  /** One member of a list apart from the others. */
  lemma TakeOut(ns: seq<Keyed>, k: nat, x: Keyed) returns (others: seq<Keyed>)
    requires Alike(ns, k, true) && x in ns
    ensures Alike(others, k, true) && |others| + 1 == |ns| && multiset(ns) == multiset(others) + multiset{x}
    ensures x.key == k && x.key < x.value
  {
    var i :| 0 <= i < |ns| && ns[i] == x;
    others := Without(ns, i);
    assert forall p :: p in others ==> p in ns;
  }

  lemma OneShort(ns: seq<Keyed>, es: seq<Keyed>, k: nat, x: Keyed) returns (g: seq<Keyed>)
    requires Alike(ns, k, true) && Alike(es, k, false) && |ns| == |es| + 1 && x in ns
    ensures multiset(g) == multiset(ns) + multiset(es) && Silent(g)
    ensures |g| > 0 && g[|g| - 1] == x
  {
    hide *;
    var others := TakeOut(ns, k, x);
    var w := Weave(others, es);
    WeaveSilent(others, es, k);
    WeaveMultiset(others, es);
    if |es| > 0 {
      WeaveStep(others, es);
      AlikeAt(es, k, false, |es| - 1);
      NoMeeting(es[|es| - 1], x, k);
    }
    OneSilent(x);
    SilentConcat(w, [x]);
    PutBack(w, x, multiset(others), multiset(es));
    g := w + [x];
  }

  lemma PutBack(w: seq<Keyed>, x: Keyed, others: multiset<Keyed>, es: multiset<Keyed>)
    requires multiset(w) == others + es
    ensures multiset(w + [x]) == (others + multiset{x}) + es
  {}

  lemma OneSilent(x: Keyed)
    ensures Silent([x])
  {}

  function Above(rs: seq<Keyed>, k: nat): (r: seq<Keyed>)
    ensures forall p :: p in r <==> p in rs && p.key > k
  {
    if |rs| == 0 then []
    else
      var last := rs[|rs| - 1];
      assert rs == rs[..|rs| - 1] + [last];
      Above(rs[..|rs| - 1], k) + if last.key > k then [last] else []
  }

  lemma {:induction false} GroupsSplit(rs: seq<Keyed>, k: nat)
    requires forall p :: p in rs ==> p.key >= k
    ensures multiset(rs) == multiset(Pick(rs, k, true)) + multiset(Pick(rs, k, false)) + multiset(Above(rs, k))
  {
    if |rs| > 0 {
      var init, last := rs[..|rs| - 1], rs[|rs| - 1];
      assert rs == init + [last];
      GroupsSplit(init, k);
    }
  }

  lemma PickAppend(ps: seq<Keyed>, p: Keyed, k: nat, full: bool)
    ensures Pick(ps + [p], k, full)
         == Pick(ps, k, full) + if p.key == k && (p.key < p.value) == full then [p] else []
  {
    assert (ps + [p])[..|ps|] == ps;
  }

  lemma {:induction false} PickAbove(rs: seq<Keyed>, k: nat, l: nat, full: bool)
    requires l > k
    ensures Pick(Above(rs, k), l, full) == Pick(rs, l, full)
  {
    if |rs| > 0 {
      var init, last := rs[..|rs| - 1], rs[|rs| - 1];
      PickAbove(init, k, l, full);
      assert rs == init + [last];
      AboveStep(rs, k);
      PickLast(rs, l, full);
      hide *;
      if last.key > k {
        PickAppend(Above(init, k), last, l, full);
      }
    }
  }

  lemma AboveStep(rs: seq<Keyed>, k: nat)
    requires |rs| > 0
    ensures var init, last := rs[..|rs| - 1], rs[|rs| - 1];
            Above(rs, k) == if last.key > k then Above(init, k) + [last] else Above(init, k)
  {}

  lemma PassesAbove(rs: seq<Keyed>, k: nat)
    requires AllPass(rs)
    ensures AllPass(Above(rs, k))
  {
    var up := Above(rs, k);
    hide Pick, Above;
    forall i | 0 <= i < |up|
      ensures Passes(up, up[i].key)
    {
      var l := up[i].key;
      assert up[i] in up && up[i] in rs;
      PickAbove(rs, k, l, true);
      PickAbove(rs, k, l, false);
      if SomeEndsBy(rs, l) {
        var r :| r in rs && EndsBy(rs, r, l);
        assert EndsBy(up, r, l);
      }
    }
  }

  lemma {:induction false} LeastKey(rs: seq<Keyed>) returns (k: nat)
    requires |rs| > 0
    ensures forall p :: p in rs ==> p.key >= k
    ensures exists i :: 0 <= i < |rs| && rs[i].key == k
  {
    k := rs[0].key;
    for i := 1 to |rs|
      invariant forall j :: 0 <= j < i ==> rs[j].key >= k
      invariant exists j :: 0 <= j < i && rs[j].key == k
    {
      k := Min(k, rs[i].key);
    }
  }

  lemma PickAlike(rs: seq<Keyed>, k: nat, full: bool)
    requires Forward(rs)
    ensures Alike(Pick(rs, k, full), k, full)
  {
    hide Pick;
  }

  lemma {:induction false} PickHas(rs: seq<Keyed>, p: Keyed)
    requires p in rs
    ensures p in Pick(rs, p.key, p.key < p.value)
  {
    PickCount(rs, p.key, p.key < p.value, p);
    hide Pick;
    assert multiset(rs)[p] > 0;
  }

  /** The least group in a silent order, ending so that no later range breaks it. */
  lemma LeastGroup(rs: seq<Keyed>, k: nat) returns (g: seq<Keyed>)
    requires Forward(rs) && Passes(rs, k)
    ensures multiset(g) == multiset(Pick(rs, k, true)) + multiset(Pick(rs, k, false)) && Silent(g)
    ensures forall p :: p in rs && p.key > k && |g| > 0 ==> !Meets(g[|g| - 1], p)
  {
    hide Pick;
    var ns, es := Pick(rs, k, true), Pick(rs, k, false);
    PickAlike(rs, k, true);
    PickAlike(rs, k, false);
    if |ns| <= |es| {
      EnoughEmpty(ns, es, k);
      StretchMultiset(ns, es);
      hide Stretch;
      g := Stretch(ns, es);
      assert |es| > 0 ==> es[|es| - 1] in es;
    } else {
      var x :| x in rs && EndsBy(rs, x, k);
      PickHas(rs, x);
      g := OneShort(ns, es, k, x);
    }
  }

  /** Groups that pass follow one another without a meeting. */
  lemma {:induction false} Quiet(rs: seq<Keyed>) returns (s: seq<Keyed>)
    requires Forward(rs) && AllPass(rs)
    ensures SortOf(s, rs) && Silent(s)
    decreases |rs|
  {
    s := [];
    if |rs| > 0 {
      var k := LeastKey(rs);
      var up := Above(rs, k);
      var g := LeastGroup(rs, k);
      GroupsSplit(rs, k);
      Shorter(rs, k);
      PassesAbove(rs, k);
      hide Pick, Above, AllPass, Passes, Meets;
      var t := Quiet(up);
      if |t| > 0 {
        assert t[0] in multiset(t) && t[0] in up;
      }
      SilentConcat(g, t);
      InOrder(rs, k, g, t);
      s := g + t;
    }
  }

  lemma Shorter(rs: seq<Keyed>, k: nat)
    requires (forall p :: p in rs ==> p.key >= k) && exists i :: 0 <= i < |rs| && rs[i].key == k
    ensures |Above(rs, k)| < |rs|
    ensures Forward(rs) ==> Forward(Above(rs, k))
  {
    var i :| 0 <= i < |rs| && rs[i].key == k;
    GroupsSplit(rs, k);
    PickHas(rs, rs[i]);
    hide Pick, Above;
    Sizes(rs, Pick(rs, k, true), Pick(rs, k, false), Above(rs, k));
  }

  lemma Sizes(rs: seq<Keyed>, a: seq<Keyed>, b: seq<Keyed>, c: seq<Keyed>)
    requires multiset(rs) == multiset(a) + multiset(b) + multiset(c)
    ensures |rs| == |a| + |b| + |c|
  {
    assert |multiset(rs)| == |multiset(a)| + |multiset(b)| + |multiset(c)|;
  }

  lemma InOrder(rs: seq<Keyed>, k: nat, g: seq<Keyed>, t: seq<Keyed>)
    requires multiset(g) == multiset(Pick(rs, k, true)) + multiset(Pick(rs, k, false))
    requires SortOf(t, Above(rs, k))
    ensures Ascending(g + t)
  {
    hide Pick, Above;
    forall p | p in g
      ensures p.key == k
    {
      assert p in multiset(g);
    }
    forall p | p in t
      ensures p.key > k
    {
      assert p in multiset(t);
    }
  }

  /** Some order is silent exactly when the ranges of every key pass. */
  lemma SilentOrderExactly(rs: seq<Keyed>)
    requires Forward(rs)
    ensures SomeOrderSilent(rs) <==> AllPass(rs)
  {
    hide NeighbourOverlaps, Passes, Silent, Ascending;
    if SomeOrderSilent(rs) {
      var s :| SortOf(s, rs) && NeighbourOverlaps(s) == [];
      SilentExactly(s);
      ForwardMoves(rs, s);
      forall i | 0 <= i < |rs|
        ensures Passes(rs, rs[i].key)
      {
        SilentPasses(s, rs[i].key);
        PassesMoves(s, rs, rs[i].key);
      }
    }
    if AllPass(rs) {
      var s := Quiet(rs);
      SilentExactly(s);
    }
  }

  // ── When the sweep can be trusted ─────────────────────────────────────────

  /** Whatever order the sort leaves, an overlap is reported exactly when two ranges share a byte. */
  ghost predicate Judged(rs: seq<Keyed>) {
    forall s :: SortOf(s, rs) ==> (NeighbourOverlaps(s) != [] <==> SomeShare(rs))
  }

  /**
   The condition, decided by the ranges alone: where two share a byte some group does not pass;
   where none do no empty range starts strictly inside another.
   */
  ghost predicate Trusted(rs: seq<Keyed>) {
    if SomeShare(rs) then !AllPass(rs) else !SomeStartsInside(rs)
  }

  lemma JudgedExactly(rs: seq<Keyed>)
    requires Forward(rs)
    ensures Judged(rs) <==> Trusted(rs)
  {
    hide NeighbourOverlaps, SomeShare, SomeStartsInside, AllPass, SortOf;
    ReportsExactly(rs);
    SilentOrderExactly(rs);
    if Judged(rs) && SomeOrderReports(rs) {
      var s :| SortOf(s, rs) && NeighbourOverlaps(s) != [];
    }
    if Judged(rs) && SomeOrderSilent(rs) {
      var s :| SortOf(s, rs) && NeighbourOverlaps(s) == [];
    }
  }
}
