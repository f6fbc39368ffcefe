/** Differencing chains: which image of a chain decides a byte, and what cannot influence it. */
module Chain {
  import opened Bytes
  import opened Arith
  import opened Metadata
  import opened Bat
  import opened Disk
  import Crc
  import Format

  /** The container bytes consulted for `v` in this image: bitmap byte, then owned payload byte. */
  predicate Consults(d: Disk, v: nat, address: nat)
    requires WellFormed(d)
  {
    match TargetOf(d, v)
    case Ok(File(at)) => address == at
    case Ok(Partial(at, bitmap, bit)) =>
      address == bitmap || (bitmap < |d.view| && BitSet(d.view[bitmap], bit) && address == at)
    case _ => false
  }

  /** This image leaves `v` to its parent. */
  predicate DefersAt(d: Disk, v: nat)
    requires WellFormed(d)
  {
    match TargetOf(d, v)
    case Ok(Parent) => true
    case Ok(Partial(_, bitmap, bit)) => bitmap < |d.view| && !BitSet(d.view[bitmap], bit)
    case _ => false
  }

  /** What an image that does not defer says about `v`. */
  function OwnByte(d: Disk, v: nat): Result<byte>
    requires WellFormed(d) && !DefersAt(d, v)
  {
    match TargetOf(d, v)
    case Err(e) => Err(e)
    case Ok(File(at)) => FileByte(d, at)
    case Ok(Zero) => Ok(0)
    case Ok(Partial(at, bitmap, _)) => if bitmap >= |d.view| then Err(UnexpectedEof) else FileByte(d, at)
    case Ok(Parent) => assert false; Err(Panic)
  }

  /** The first image of the chain, from `d` up, that does not defer `v`; none if all do. */
  function Decider(d: Disk, v: nat): (o: Option<Disk>)
    requires WellFormed(d)
    ensures o.Some? ==> WellFormed(o.value) && !DefersAt(o.value, v)
  {
    if !DefersAt(d, v) then Some(d)
    else if d.parent.None? then None
    else Decider(d.parent.value, v)
  }

  /** A byte is what its decider says, and zero when every image defers. */
  lemma {:induction false} DeciderDecides(d: Disk, v: nat)
    requires WellFormed(d)
    ensures ByteAt(d, v) == match Decider(d, v)
                            case Some(o) => OwnByte(o, v)
                            case None => Ok(0)
  {
    hide TargetOf, BitSet, Validate;
    if DefersAt(d, v) && d.parent.Some? {
      DeciderDecides(d.parent.value, v);
    }
  }

  /** Two images agree on all that is consulted for `v`. */
  ghost predicate SameHere(d: Disk, e: Disk, v: nat)
    requires WellFormed(d) && WellFormed(e)
  {
    && TargetOf(d, v) == TargetOf(e, v)
    && forall a: nat :: Consults(d, v, a) ==>
         (a < |d.view| <==> a < |e.view|) && (a < |d.view| ==> d.view[a] == e.view[a])
  }

  /** Two chains agree on all that is consulted for `v`, image by image up to the decider. */
  ghost predicate SameFor(d: Disk, e: Disk, v: nat)
    requires WellFormed(d) && WellFormed(e)
  {
    hide Validate, DefersAt, SameHere;
    && SameHere(d, e, v)
    && (DefersAt(d, v) ==>
          match (d.parent, e.parent)
          case (None, None) => true
          case (Some(p), Some(q)) => SameFor(p, q, v)
          case _ => false)
  }

  lemma SameHereSays(d: Disk, e: Disk, v: nat)
    requires WellFormed(d) && WellFormed(e) && SameHere(d, e, v)
    ensures DefersAt(d, v) == DefersAt(e, v)
    ensures !DefersAt(d, v) ==> OwnByte(d, v) == OwnByte(e, v)
  {
    hide TargetOf, BitSet, Validate;
    match TargetOf(d, v)
    case Ok(Partial(at, bitmap, bit)) =>
      assert Consults(d, v, bitmap);
      if bitmap < |d.view| && BitSet(d.view[bitmap], bit) {
        assert Consults(d, v, at);
      }
    case Ok(File(at)) =>
      assert Consults(d, v, at);
    case _ =>
  }

  /** Nothing else in either chain can influence the byte. */
  lemma {:induction false} NonInterference(d: Disk, e: Disk, v: nat)
    requires WellFormed(d) && WellFormed(e) && SameFor(d, e, v)
    ensures ByteAt(d, v) == ByteAt(e, v)
  {
    hide TargetOf, BitSet, Validate, ByteAt, SameHere, DefersAt, OwnByte;
    SameHereSays(d, e, v);
    OneImage(d, v);
    OneImage(e, v);
    if DefersAt(d, v) && d.parent.Some? {
      NonInterference(d.parent.value, e.parent.value, v);
    }
  }

  /** One step up the chain. */
  lemma OneImage(d: Disk, v: nat)
    requires WellFormed(d)
    ensures ByteAt(d, v) == if DefersAt(d, v) then ParentByte(d.parent, v) else OwnByte(d, v)
  {
    hide TargetOf, BitSet, Validate;
  }

  /** Two images with one parent that agree on all that is consulted for `v` show the same byte. */
  lemma SameImageByte(d: Disk, e: Disk, v: nat)
    requires WellFormed(d) && WellFormed(e) && d.parent == e.parent
    requires TargetOf(d, v) == TargetOf(e, v) && |d.view| == |e.view|
    requires forall a: nat :: Consults(d, v, a) && a < |d.view| ==> d.view[a] == e.view[a]
    ensures ByteAt(d, v) == ByteAt(e, v)
  {
    hide TargetOf, BitSet, WellFormed, ByteAt, Consults, DefersAt, OwnByte;
    SameHereSays(d, e, v);
    OneImage(d, v);
    OneImage(e, v);
  }

  /** The parent of an image that owns `v` is irrelevant; of one that defers it, decisive. */
  lemma ParentMatters(d: Disk, parent: Option<Disk>, v: nat)
    requires WellFormed(d) && (parent.Some? ==> WellFormed(parent.value))
    ensures var e := d.(parent := parent);
            && WellFormed(e)
            && (DefersAt(e, v) <==> DefersAt(d, v))
            && ByteAt(e, v) == if DefersAt(d, v) then ParentByte(parent, v) else ByteAt(d, v)
  {
    hide BitSet, Validate, ReadTarget;
  }

  /** Deferral by block state: never in states 1, 2, 3 and 6, always in 0, by the bitmap bit in 7. */
  lemma DeferralByState(d: Disk, v: nat)
    requires WellFormed(d) && v < d.meta.diskSize
    requires PayloadIndex(Div(v, d.meta.blockSize), d.meta.ChunkRatio()) < |d.entries|
    ensures var state := d.entries[PayloadIndex(Div(v, d.meta.blockSize), d.meta.ChunkRatio())] % 8;
            && (state == 0 ==> DefersAt(d, v))
            && (state == 1 || state == 2 || state == 3 || state == 6 ==> !DefersAt(d, v))
            && (state == 7 && TargetOf(d, v).Ok? ==>
                  TargetOf(d, v).value.Partial?
                  && (DefersAt(d, v) <==> var t := TargetOf(d, v).value;
                        && t.bitmap < |d.view|
                        && d.view[t.bitmap] / Crc.Pow2(SectorOf(d.meta, v) % 8) % 2 == 0))
  {
    hide BitSet, Validate, Div, Mod, Meta.ChunkRatio, PartialTarget;
    var t := TargetOf(d, v);
    if t.Ok? && t.value.Partial? {
      PartialTargetAlong(d, v, v);
      if t.value.bitmap < |d.view| {
        Format.BitByPower(d.view[t.value.bitmap], t.value.bit);
      }
    }
  }
}
