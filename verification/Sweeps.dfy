/** The analyser's sorted-neighbour sweeps: overlapping metadata items, and shared block offsets. */
module Sweeps {
  import opened Bytes

  /** A sort key and what travels with it: an item's offset and end, or an offset and a BAT index. */
  datatype Keyed = Keyed(key: nat, value: nat)

  predicate Ascending(ps: seq<Keyed>) {
    forall i, j :: 0 <= i < j < |ps| ==> ps[i].key <= ps[j].key
  }

  /** `sorted` is one of the orders an unstable sort by key may leave `ps` in. */
  predicate SortOf(sorted: seq<Keyed>, ps: seq<Keyed>) {
    multiset(sorted) == multiset(ps) && Ascending(sorted)
  }

  method SortByKey(ps: seq<Keyed>) returns (sorted: seq<Keyed>)
    ensures SortOf(sorted, ps)
  {
    sorted := [];
    for i := 0 to |ps|
      invariant SortOf(sorted, ps[..i])
    {
      assert ps[..i + 1] == ps[..i] + [ps[i]];
      sorted := InsertByKey(sorted, ps[i]);
    }
    assert ps[..|ps|] == ps;
  }

  method InsertByKey(sorted: seq<Keyed>, p: Keyed) returns (r: seq<Keyed>)
    requires Ascending(sorted)
    ensures Ascending(r) && multiset(r) == multiset(sorted) + multiset{p}
  {
    hide Ascending;
    var at := |sorted|;
    while at > 0 && sorted[at - 1].key > p.key
      invariant 0 <= at <= |sorted|
      invariant forall k :: at <= k < |sorted| ==> sorted[k].key > p.key
    {
      at := at - 1;
    }
    InsertedAscending(sorted, at, p);
    assert sorted == sorted[..at] + sorted[at..];
    r := sorted[..at] + [p] + sorted[at..];
  }

  lemma InsertedAscending(sorted: seq<Keyed>, at: nat, p: Keyed)
    requires Ascending(sorted) && at <= |sorted|
    requires at > 0 ==> sorted[at - 1].key <= p.key
    requires forall k :: at <= k < |sorted| ==> sorted[k].key > p.key
    ensures Ascending(sorted[..at] + [p] + sorted[at..])
  {
    var r := sorted[..at] + [p] + sorted[at..];
    forall i, j | 0 <= i < j < |r|
      ensures r[i].key <= r[j].key
    {
      var a, b := if i < at then i else i - 1, if j < at then j else j - 1;
      assert r[i] == if i == at then p else sorted[a];
      assert r[j] == if j == at then p else sorted[b];
      if at > 0 && i < at {
        assert sorted[i].key <= sorted[at - 1].key;
      }
    }
  }

  function Without(ps: seq<Keyed>, i: nat): (r: seq<Keyed>)
    requires i < |ps|
    ensures multiset(r) == multiset(ps) - multiset{ps[i]}
  {
    assert ps == ps[..i] + [ps[i]] + ps[i + 1..];
    ps[..i] + ps[i + 1..]
  }

  lemma WithoutHas(ps: seq<Keyed>, i: nat, j: nat)
    requires i < |ps| && j < |ps| && i != j
    ensures ps[j] in multiset(Without(ps, i))
  {
    assert Without(ps, i)[if j < i then j else j - 1] == ps[j];
  }

  lemma WithoutAt(ps: seq<Keyed>, i: nat, m: nat) returns (l: nat)
    requires i < |ps| && m < |Without(ps, i)|
    ensures l < |ps| && l != i && ps[l] == Without(ps, i)[m]
  {
    l := if m < i then m else m + 1;
  }

  /** Two members of a list, in either order of the list, are two members of any reordering. */
  lemma PairMoves(ps: seq<Keyed>, qs: seq<Keyed>, i: nat, j: nat) returns (k: nat, l: nat)
    requires multiset(ps) == multiset(qs) && i < |ps| && j < |ps| && i != j
    ensures k < |qs| && l < |qs| && k != l && qs[k] == ps[i] && qs[l] == ps[j]
  {
    hide Without;
    var x, y := ps[i], ps[j];
    assert x in multiset(ps) && x in multiset(qs);
    k :| 0 <= k < |qs| && qs[k] == x;
    var rest := Without(qs, k);
    WithoutHas(ps, i, j);
    assert y in multiset(rest);
    var m :| 0 <= m < |rest| && rest[m] == y;
    l := WithoutAt(qs, k, m);
  }

  // ── Metadata items ────────────────────────────────────────────────────────

  const ITEM_COUNT_MAX: nat := 2048

  /** Table entries the sweep visits. */
  function Items(region: seq<byte>): nat {
    Min(Min(LeU16(region, 10), ITEM_COUNT_MAX), if |region| >= 32 then (|region| - 32) / 32 else 0)
  }

  /** Offset and end of one item, in saturating 32-bit arithmetic. */
  function ItemRange(region: seq<byte>, i: nat): Keyed {
    var off, len := LeU32(region, 32 + i * 32 + 16), LeU32(region, 32 + i * 32 + 20);
    Keyed(off, Min(off + len, TWO32 - 1))
  }

  function ItemRanges(region: seq<byte>): (rs: seq<Keyed>)
    ensures |rs| == Items(region) && forall i :: 0 <= i < |rs| ==> rs[i] == ItemRange(region, i)
  {
    seq(Items(region), i requires 0 <= i => ItemRange(region, i))
  }

  datatype ItemsOverlap = ItemsOverlap(a: nat, b: nat, at: nat)

  /** The sweep's test. */
  predicate Meets(a: Keyed, b: Keyed) { b.key < a.value && b.value > a.key }

  /** What the sweep over an ordered list reports. */
  function NeighbourOverlaps(rs: seq<Keyed>): seq<ItemsOverlap> {
    if |rs| < 2 then []
    else
      var a, b := rs[|rs| - 2], rs[|rs| - 1];
      NeighbourOverlaps(rs[..|rs| - 1])
      + if Meets(a, b) then [ItemsOverlap(a.key, b.key, Max(a.key, b.key))] else []
  }

  method SweepItems(region: seq<byte>) returns (issues: seq<ItemsOverlap>, sorted: seq<Keyed>)
    ensures SortOf(sorted, ItemRanges(region)) && issues == NeighbourOverlaps(sorted)
  {
    hide LeU16, LeU32, SortOf;
    var ranges: seq<Keyed> := [];
    var count := Min(LeU16(region, 10), ITEM_COUNT_MAX);
    var i := 0;
    while i < count
      invariant i <= count && i <= Items(region) && ranges == ItemRanges(region)[..i]
    {
      var base := 32 + i * 32;
      if base + 32 > |region| {
        break;
      }
      var off, len := LeU32(region, base + 16), LeU32(region, base + 20);
      var range := Keyed(off, Min(off as nat + len, TWO32 - 1));
      assert range == ItemRange(region, i);
      ranges := ranges + [range];
      i := i + 1;
    }
    assert i == Items(region) && ranges == ItemRanges(region);
    var order := SortByKey(ranges);
    sorted := order;
    issues := SweepNeighbours(order);
  }

  method SweepNeighbours(rs: seq<Keyed>) returns (issues: seq<ItemsOverlap>)
    ensures issues == NeighbourOverlaps(rs)
  {
    issues := [];
    var i := 1;
    while i < |rs|
      invariant 1 <= i && (i <= |rs| || rs == [])
      invariant issues == NeighbourOverlaps(rs[..Min(i, |rs|)])
    {
      assert rs[..i + 1][..i] == rs[..i];
      var a, b := rs[i - 1], rs[i];
      if Meets(a, b) {
        issues := issues + [ItemsOverlap(a.key, b.key, Max(a.key, b.key))];
      }
      i := i + 1;
    }
    assert rs[..|rs|] == rs;
  }

  lemma {:induction false} SomeNeighbourMeets(rs: seq<Keyed>)
    ensures NeighbourOverlaps(rs) != [] <==> exists k :: 0 < k < |rs| && Meets(rs[k - 1], rs[k])
  {
    if |rs| >= 2 {
      var init := rs[..|rs| - 1];
      SomeNeighbourMeets(init);
      if NeighbourOverlaps(init) != [] {
        var k :| 0 < k < |init| && Meets(init[k - 1], init[k]);
        assert Meets(rs[k - 1], rs[k]);
      }
      if k :| 0 < k < |rs| && Meets(rs[k - 1], rs[k]) && k < |rs| - 1 {
        assert Meets(init[k - 1], init[k]);
      }
    }
  }

  predicate Holds(a: Keyed, p: nat) { a.key <= p < a.value }

  /** The two ranges share a byte. */
  ghost predicate Share(a: Keyed, b: Keyed) {
    exists p: nat :: Holds(a, p) && Holds(b, p)
  }

  lemma ShareExactly(a: Keyed, b: Keyed)
    ensures Share(a, b) <==> Max(a.key, b.key) < Min(a.value, b.value)
  {
    if Max(a.key, b.key) < Min(a.value, b.value) {
      assert Holds(a, Max(a.key, b.key)) && Holds(b, Max(a.key, b.key));
    }
  }

  ghost predicate SomeShare(rs: seq<Keyed>) {
    exists i, j :: 0 <= i < |rs| && 0 <= j < |rs| && i != j && Share(rs[i], rs[j])
  }

  predicate EmptyInside(e: Keyed, a: Keyed) { e.value <= e.key && a.key <= e.key < a.value }

  /**
   No empty range starts inside a non-empty one. Unused table entries are all zeros, so in a
   well-formed region every empty range lies below all items.
   */
  predicate NoneInside(rs: seq<Keyed>) {
    forall i, j :: 0 <= i < |rs| && 0 <= j < |rs| ==> !EmptyInside(rs[i], rs[j])
  }

  lemma MeetingNeighboursShare(rs: seq<Keyed>, k: nat)
    requires Ascending(rs) && NoneInside(rs) && 0 < k < |rs| && Meets(rs[k - 1], rs[k])
    requires rs[k - 1].key <= rs[k - 1].value && rs[k].key <= rs[k].value
    ensures Share(rs[k - 1], rs[k])
  {
    assert !EmptyInside(rs[k], rs[k - 1]);
    ShareExactly(rs[k - 1], rs[k]);
  }

  lemma SharingReachesNeighbour(rs: seq<Keyed>, i: nat, j: nat)
    requires Ascending(rs) && NoneInside(rs) && i < j < |rs| && Share(rs[i], rs[j])
    ensures Meets(rs[i], rs[i + 1])
  {
    ShareExactly(rs[i], rs[j]);
    assert rs[i].key <= rs[i + 1].key;
    assert rs[i + 1].key <= rs[j].key;
    assert !EmptyInside(rs[i + 1], rs[i]);
  }

  /** On an ordered list, neighbours meet if and only if any two ranges share a byte. */
  lemma SweepComplete(rs: seq<Keyed>)
    requires Ascending(rs) && NoneInside(rs) && forall r :: r in rs ==> r.key <= r.value
    ensures NeighbourOverlaps(rs) != [] <==> SomeShare(rs)
  {
    hide NeighbourOverlaps, Share, Meets, Ascending, NoneInside;
    SomeNeighbourMeets(rs);
    if NeighbourOverlaps(rs) != [] {
      var k :| 0 < k < |rs| && Meets(rs[k - 1], rs[k]);
      assert rs[k - 1] in rs && rs[k] in rs;
      MeetingNeighboursShare(rs, k);
    }
    if SomeShare(rs) {
      var i, j :| 0 <= i < |rs| && 0 <= j < |rs| && i != j && Share(rs[i], rs[j]);
      ShareSymmetric(rs[i], rs[j]);
      var lo := Min(i, j);
      SharingReachesNeighbour(rs, lo, Max(i, j));
      assert Meets(rs[lo + 1 - 1], rs[lo + 1]);
    }
  }

  lemma ShareSymmetric(a: Keyed, b: Keyed)
    requires Share(a, b)
    ensures Share(b, a)
  {
    ShareExactly(a, b);
    ShareExactly(b, a);
  }

  lemma ReorderedNoneInside(ps: seq<Keyed>, qs: seq<Keyed>)
    requires multiset(ps) == multiset(qs) && NoneInside(qs)
    ensures NoneInside(ps)
  {
    forall i, j | 0 <= i < |ps| && 0 <= j < |ps|
      ensures !EmptyInside(ps[i], ps[j])
    {
      assert ps[i] in multiset(qs) && ps[j] in multiset(qs);
    }
  }

  /** If no empty range starts inside another, no order can mislead the sweep. */
  lemma NoneInsideSuffices(rs: seq<Keyed>, sorted: seq<Keyed>)
    requires SortOf(sorted, rs) && NoneInside(rs) && forall r :: r in rs ==> r.key <= r.value
    ensures NeighbourOverlaps(sorted) != [] <==> SomeShare(rs)
  {
    hide NeighbourOverlaps, Share, Ascending, NoneInside;
    ReorderedNoneInside(sorted, rs);
    forall r | r in sorted
      ensures r.key <= r.value
    {
      assert r in multiset(sorted) && r in rs;
    }
    SweepComplete(sorted);
    if SomeShare(sorted) {
      var i, j :| 0 <= i < |sorted| && 0 <= j < |sorted| && i != j && Share(sorted[i], sorted[j]);
      var k, l := PairMoves(sorted, rs, i, j);
    }
    if SomeShare(rs) {
      var i, j :| 0 <= i < |rs| && 0 <= j < |rs| && i != j && Share(rs[i], rs[j]);
      var k, l := PairMoves(rs, sorted, i, j);
    }
  }

  // ── Block offsets ─────────────────────────────────────────────────────────

  /** Adjacent equal keys of an ordered list, one report each. */
  function SharedKeys(ps: seq<Keyed>): seq<(Keyed, Keyed)> {
    if |ps| < 2 then []
    else
      var a, b := ps[|ps| - 2], ps[|ps| - 1];
      SharedKeys(ps[..|ps| - 1]) + if a.key == b.key then [(a, b)] else []
  }

  method SweepKeys(ps: seq<Keyed>) returns (issues: seq<(Keyed, Keyed)>)
    ensures issues == SharedKeys(ps)
  {
    issues := [];
    var i := 1;
    while i < |ps|
      invariant 1 <= i && (i <= |ps| || ps == [])
      invariant issues == SharedKeys(ps[..Min(i, |ps|)])
    {
      assert ps[..i + 1][..i] == ps[..i];
      if ps[i - 1].key == ps[i].key {
        issues := issues + [(ps[i - 1], ps[i])];
      }
      i := i + 1;
    }
    assert ps[..|ps|] == ps;
  }

  function Keys(ps: seq<Keyed>): set<nat> {
    set p | p in ps :: p.key
  }

  lemma KeysOneMore(init: seq<Keyed>, last: Keyed)
    requires |init| > 0 && Ascending(init + [last])
    ensures Ascending(init) && Keys(init + [last]) == Keys(init) + {last.key}
    ensures last.key in Keys(init) <==> init[|init| - 1].key == last.key
  {
    var ps := init + [last];
    forall i, j | 0 <= i < j < |init|
      ensures init[i].key <= init[j].key
    {
      assert ps[i].key <= ps[j].key;
    }
    assert init[|init| - 1] in init;
    if p :| p in init && p.key == last.key {
      var k :| 0 <= k < |init| && init[k] == p;
      assert ps[|init| - 1].key <= ps[|init|].key;
    }
  }

  lemma FewKeys(ps: seq<Keyed>)
    requires |ps| < 2
    ensures |Keys(ps)| == |ps|
  {
    assert Keys(ps) == if |ps| == 0 then {} else {ps[0].key};
  }

  lemma {:induction false} DistinctKeys(ps: seq<Keyed>)
    requires Ascending(ps)
    ensures |SharedKeys(ps)| + |Keys(ps)| == |ps|
  {
    if |ps| < 2 {
      FewKeys(ps);
    } else {
      OneMoreShared(ps);
      hide Keys, Ascending, SharedKeys;
      var init, last := ps[..|ps| - 1], ps[|ps| - 1];
      assert ps == init + [last];
      KeysOneMore(init, last);
      DistinctKeys(init);
      OneMoreKey(Keys(init), last.key);
    }
  }

  lemma OneMoreShared(ps: seq<Keyed>)
    requires |ps| >= 2
    ensures |SharedKeys(ps)|
         == |SharedKeys(ps[..|ps| - 1])| + if ps[|ps| - 2].key == ps[|ps| - 1].key then 1 else 0
  {}

  lemma OneMoreKey(s: set<nat>, k: nat)
    ensures |s + {k}| == |s| + if k in s then 0 else 1
  {
    assert k in s ==> s + {k} == s;
  }

  /** Overlap reports number the entries less the distinct offsets, in any sort order. */
  lemma SharedCount(sorted: seq<Keyed>, ps: seq<Keyed>)
    requires SortOf(sorted, ps)
    ensures |SharedKeys(sorted)| == |ps| - |Keys(ps)|
  {
    DistinctKeys(sorted);
    assert |sorted| == |multiset(sorted)| == |ps|;
    assert forall p :: p in ps <==> p in multiset(ps);
    assert forall p :: p in sorted <==> p in multiset(sorted);
    assert Keys(sorted) == Keys(ps);
  }
}
