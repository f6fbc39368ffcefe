/** The reader: a cursor over the virtual disk, serving whole runs of bytes at a time. */
module Reader {
  import opened Bytes
  import opened Arith
  import opened Replay
  import opened Backing
  import opened Metadata
  import opened Bat
  import opened Disk

  type cursor = p: int | 0 <= p < TWO63

  type i64 = n: int | 0 - TWO63 as int <= n < TWO63

  datatype SeekFrom = Start(offset: u64) | Current(delta: i64) | End(delta: i64)

  /** A 64-bit cast or sum read as a signed number. */
  function AsI64(n: int): i64 {
    (n + TWO63) % TWO64 - TWO63 as int
  }

  /** Where a seek points, before any wrapping. */
  function Destination(from: SeekFrom, pos: nat, size: nat): int {
    match from
    case Start(n) => n
    case Current(d) => pos + d
    case End(d) => size + d
  }

  lemma MinIs(a: int, b: int)
    ensures Min(a, b) == if a <= b then a else b
  {}

  lemma WrapOnce(n: int)
    requires -(TWO63 as int) <= n < TWO64
    ensures AsI64(n) == if n < TWO63 then n else n - TWO64
  {}

  ghost predicate ParentResolves(parent: Option<Disk>, v: nat, n: nat)
    requires parent.Some? ==> WellFormed(parent.value)
  {
    forall w :: v <= w < v + n ==> ParentByte(parent, w).Ok?
  }

  /** `buf[lo..hi]` holds the parent's bytes from `v` on. */
  ghost predicate HoldsParent(buf: array<byte>, lo: nat, hi: nat, parent: Option<Disk>, v: nat)
    requires lo <= hi <= buf.Length && (parent.Some? ==> WellFormed(parent.value))
    reads buf
  {
    forall p :: lo <= p < hi ==> ParentByte(parent, v + (p - lo)) == Ok(buf[p])
  }

  class VhdxReader {
    const backing: Backing
    const overlay: seq<Run>
    const bat: seq<u64>
    const meta: Meta
    const parent: VhdxReader?
    var pos: cursor

    /** What this reader decodes, and the objects a read may move. */
    ghost const disk: Disk
    ghost const Repr: set<VhdxReader>
    ghost const Sources: set<SeekReader>

    ghost predicate Valid()
      decreases disk
    {
      && this in Repr
      && backing.Sound()
      && backing.Sources() <= Sources
      && (forall k :: 0 <= k < |overlay| ==> overlay[k].offset < TWO64)
      && WellFormed(disk)
      && disk.view == Overlaid(backing.Window(), 0, overlay)
      && disk.entries == bat
      && disk.meta == meta
      && disk.parent == (if parent == null then None else Some(parent.disk))
      && (parent != null ==>
            && parent.Repr <= Repr
            && this !in parent.Repr
            && parent.Sources <= Sources
            && parent.Valid())
    }

    constructor (backing: Backing, overlay: seq<Run>, bat: seq<u64>, meta: Meta, parent: VhdxReader?)
      requires backing.Sound() && Metadata.Valid(meta)
      requires forall k :: 0 <= k < |overlay| ==> overlay[k].offset < TWO64
      requires parent != null ==> parent.Valid()
      ensures Valid() && pos == 0 && this.parent == parent
      ensures fresh(Repr - if parent == null then {} else parent.Repr)
      ensures Sources == backing.Sources() + if parent == null then {} else parent.Sources
      ensures disk == Disk(Overlaid(backing.Window(), 0, overlay), bat, meta,
                                if parent == null then None else Some(parent.disk))
    {
      hide Validate;
      this.backing, this.overlay, this.bat, this.meta, this.parent := backing, overlay, bat, meta, parent;
      pos := 0;
      disk := Disk(Overlaid(backing.Window(), 0, overlay), bat, meta,
                        if parent == null then None else Some(parent.disk));
      Repr := {this} + if parent == null then {} else parent.Repr;
      Sources := backing.Sources() + if parent == null then {} else parent.Sources;
      ValidUsable(meta);
    }

    /** What a read needs to know of its own reader. */
    lemma Facts()
      requires Valid()
      ensures this in Repr && WellFormed(disk) && disk.entries == bat && disk.meta == meta
    {}

    lemma ParentFacts()
      requires Valid()
      ensures disk.parent == if parent == null then None else Some(parent.disk)
      ensures parent != null ==>
                parent.Valid() && parent.Repr <= Repr && this !in parent.Repr && parent.Sources <= Sources
    {}

    lemma TargetHere(v: nat)
      requires Valid()
      ensures WellFormed(disk) && Usable(meta) && TargetOf(disk, v) == ReadTarget(bat, meta, v)
    {
      hide ReadTarget, Validate, Meta.ChunkRatio;
    }

    lemma WantedHere(n: nat)
      requires Valid()
      ensures pos >= meta.diskSize ==> Wanted(disk, pos, n) == 0
      ensures pos < meta.diskSize ==>
                && Wanted(disk, pos, n) == Min(n, meta.diskSize - pos) <= n
                && pos + Wanted(disk, pos, n) <= meta.diskSize < TWO63
      ensures pos + n <= meta.diskSize ==> Wanted(disk, pos, n) == n
    {
      hide WellFormed, Valid;
      Facts();
      DiskFits(disk);
    }

    /**
     Move the cursor. The source computes in wrapping 64-bit arithmetic; it accepts exactly
     the destinations that are representable, and a refused seek moves nothing.
     */
    method Seek(from: SeekFrom) returns (r: Result<u64>)
      requires Valid()
      modifies this
      ensures var to := Destination(from, old(pos), meta.diskSize);
              if 0 <= to < TWO63 then r == Ok(to) && pos == to
              else r == Err(SeekBeforeStart) && pos == old(pos)
      ensures r.Ok? ==> match from
                        case Start(n) => pos == n
                        case Current(d) => pos == old(pos) + d
                        case End(d) => pos == meta.diskSize + d
    {
      hide WellFormed, AsI64;
      DiskFits(disk);
      WrapOnce(Destination(from, pos, meta.diskSize));
      WrapOnce(meta.diskSize);
      var newPos: i64 := match from
        case Start(n) => AsI64(n)
        case Current(d) => AsI64(pos + d)
        case End(d) => AsI64(AsI64(meta.diskSize) + d);
      if newPos < 0 {
        return Err(SeekBeforeStart);
      }
      pos := newPos;
      return Ok(pos);
    }

    /** Container bytes, patched by the overlay; fails exactly when the container ends first. */
    method ReadFileChunk(buf: array<byte>, lo: nat, hi: nat, offset: nat) returns (r: Result<()>)
      requires Valid() && lo < hi <= buf.Length
      modifies Sources, buf
      ensures r.Ok? <==> offset + (hi - lo) <= |disk.view|
      ensures r.Ok? ==> buf[lo..hi] == disk.view[offset..offset + (hi - lo)]
      ensures forall p :: 0 <= p < buf.Length && !(lo <= p < hi) ==> buf[p] == old(buf[p])
    {
      hide WellFormed, Overlaid;
      var n := backing.ReadAt(buf, lo, hi, offset);
      if n < hi - lo {
        return Err(UnexpectedEof);
      }
      assert buf[lo..hi] == backing.Window()[offset..offset + n];
      PatchLocality(backing.Window(), 0, overlay, offset, offset + n);
      Patch(overlay, buf, lo, hi, offset);
      return Ok(());
    }

    /** Bytes this image does not describe: the parent's, or zeros when there is no parent. */
    method ReadParentChunk(buf: array<byte>, lo: nat, hi: nat, v: nat) returns (r: Result<()>)
      requires Valid() && lo <= hi <= buf.Length && v < TWO63
      modifies Repr, Sources, buf
      ensures pos == old(pos)
      ensures r.Ok? <==> ParentResolves(disk.parent, v, hi - lo)
      ensures r.Ok? ==> HoldsParent(buf, lo, hi, disk.parent, v)
      ensures forall p :: 0 <= p < buf.Length && !(lo <= p < hi) ==> buf[p] == old(buf[p])
      decreases disk, 1
    {
      hide WellFormed, ByteAt, Valid, Span, Resolves;
      Facts();
      ParentFacts();
      if parent == null {
        ZeroFill(buf, lo, hi);
        return Ok(());
      }
      var sought := parent.Seek(Start(v));
      r := parent.ReadExact(buf, lo, hi);
      if r.Ok? {
        SpanHolds(buf, lo, hi, parent.disk, v);
      }
      ParentIs(parent.disk, v, hi - lo);
    }

    /** Reads repeated until the buffer is full; running into the end is an error. */
    method ReadExact(buf: array<byte>, lo: nat, hi: nat) returns (r: Result<()>)
      requires Valid() && lo <= hi <= buf.Length
      modifies Repr, Sources, buf
      ensures r.Ok? <==> Resolves(disk, old(pos), hi - lo)
      ensures r.Ok? ==> buf[lo..hi] == Span(disk, old(pos), hi - lo) && pos == old(pos) + (hi - lo)
      ensures forall p :: 0 <= p < buf.Length && !(lo <= p < hi) ==> buf[p] == old(buf[p])
      decreases disk, 7
    {
      hide WellFormed, ByteAt, Valid, Span, Resolves;
      Facts();
      SpanEmpty(disk, pos);
      var done := lo;
      while done < hi
        invariant lo <= done <= hi && pos == old(pos) + (done - lo)
        invariant Resolves(disk, old(pos), done - lo)
        invariant buf[lo..done] == Span(disk, old(pos), done - lo)
        invariant forall p :: 0 <= p < buf.Length && !(lo <= p < hi) ==> buf[p] == old(buf[p])
        decreases hi - done
      {
        ghost var before, from := buf[..], pos;
        var n := Read(buf, done, hi);
        SpanConcat(disk, old(pos), done - lo, hi - done);
        SpanConcat(disk, from, Wanted(disk, from, hi - done), hi - done - Wanted(disk, from, hi - done));
        if n.Err? {
          return Err(n.error);
        }
        if n.value == 0 {
          PastEnd(disk, pos, hi - done);
          return Err(UnexpectedEof);
        }
        SpanConcat(disk, old(pos), done - lo, n.value);
        assert forall p :: lo <= p < done ==> buf[p] == before[p];
        assert buf[lo..done] == before[lo..done];
        Joined(buf, lo, done, done + n.value);
        done := done + n.value;
      }
      return Ok(());
    }

    /**
     Fill `buf[lo..hi]` from the cursor: as many bytes as the disk still has, each the byte that
     reading it alone would give. It fails exactly when one of them does not resolve, and a
     failed read leaves the cursor where it was.
     */
    method Read(buf: array<byte>, lo: nat, hi: nat) returns (r: Result<nat>)
      requires Valid() && lo <= hi <= buf.Length
      modifies Repr, Sources, buf
      ensures var want := Wanted(disk, old(pos), hi - lo);
              && (r.Ok? <==> Resolves(disk, old(pos), want))
              && (r.Ok? ==> (r.value == want && pos == old(pos) + want
                             && buf[lo..lo + want] == Span(disk, old(pos), want)))
              && (r.Err? ==> pos == old(pos))
              && (forall p :: 0 <= p < buf.Length && !(lo <= p < lo + want) ==> buf[p] == old(buf[p]))
      ensures r.Ok? ==> r.value == if old(pos) >= meta.diskSize then 0
                                   else if hi - lo <= meta.diskSize - old(pos) then hi - lo
                                   else meta.diskSize - old(pos)
      decreases disk, 6
    {
      hide *;
      Facts();
      SpanEmpty(disk, pos);
      WantedHere(hi - lo);
      if pos >= meta.diskSize {
        return Ok(0);
      }
      MinIs(hi - lo, meta.diskSize - pos);
      var toRead := Min(hi - lo, meta.diskSize - pos);
      var done := ReadRuns(buf, lo, lo + toRead);
      if done.Err? {
        return Err(done.error);
      }
      pos := pos + toRead;
      return Ok(toRead);
    }

    /** The loop of a read: run after run, without moving the cursor. */
    method ReadRuns(buf: array<byte>, lo: nat, hi: nat) returns (r: Result<()>)
      requires Valid() && lo <= hi <= buf.Length && pos + (hi - lo) <= meta.diskSize
      modifies Repr, Sources, buf
      ensures pos == old(pos)
      ensures r.Ok? <==> Resolves(disk, pos, hi - lo)
      ensures r.Ok? ==> buf[lo..hi] == Span(disk, pos, hi - lo)
      ensures forall p :: 0 <= p < buf.Length && !(lo <= p < hi) ==> buf[p] == old(buf[p])
      decreases disk, 5
    {
      hide *;
      Facts();
      SpanEmpty(disk, pos);
      var written := lo;
      while written < hi
        invariant lo <= written <= hi && pos == old(pos)
        invariant Resolves(disk, pos, written - lo)
        invariant buf[lo..written] == Span(disk, pos, written - lo)
        invariant forall p :: 0 <= p < buf.Length && !(lo <= p < hi) ==> buf[p] == old(buf[p])
        decreases hi - written
      {
        ghost var before := buf[..];
        var n := ReadChunk(buf, written, hi, pos + (written - lo));
        SpanConcat(disk, pos, written - lo, hi - written);
        if n.Err? {
          return Err(n.error);
        }
        SpanConcat(disk, pos, written - lo, n.value);
        assert forall p :: lo <= p < written ==> buf[p] == before[p];
        assert buf[lo..written] == before[lo..written];
        Joined(buf, lo, written, written + n.value);
        written := written + n.value;
      }
      return Ok(());
    }

    /** The next run: up to the end of the block, or of the sectors that share an owner. */
    method ReadChunk(buf: array<byte>, lo: nat, hi: nat, v: nat) returns (r: Result<nat>)
      requires Valid() && lo < hi <= buf.Length && v + (hi - lo) <= meta.diskSize
      modifies Repr, Sources, buf
      ensures pos == old(pos)
      ensures r.Ok? ==> && 1 <= r.value <= hi - lo
                        && Resolves(disk, v, r.value)
                        && buf[lo..lo + r.value] == Span(disk, v, r.value)
      ensures r.Err? ==> !Resolves(disk, v, hi - lo)
      ensures forall p :: 0 <= p < buf.Length && !(lo <= p < hi) ==> buf[p] == old(buf[p])
      ensures r.Ok? ==> forall p :: lo + r.value <= p < hi ==> buf[p] == old(buf[p])
      decreases disk, 4
    {
      hide WellFormed, ByteAt, ReadTarget, Div, Validate, Meta.ChunkRatio, Valid, Resolves, Span, Defers, TargetOf;
      Facts();
      TargetHere(v);
      DiskFits(disk);
      var blockEnd := (Div(v, meta.blockSize) + 1) * meta.blockSize;
      BlockEndBeyond(meta, v);
      var chunk := Min(hi - lo, blockEnd - v);
      InBlock(meta, v, v + chunk - 1);
      SpanConcat(disk, v, chunk, hi - lo - chunk);
      var target := ReadTarget(bat, meta, v);
      if target.Err? {
        Unresolved(disk, v, hi - lo);
        return Err(target.error);
      }
      match target.value {
        case File(offset) =>
          FileRun(disk, v, chunk);
          var done := ReadFileChunk(buf, lo, lo + chunk, offset);
          return if done.Ok? then Ok(chunk) else Err(done.error);
        case Zero =>
          ZeroRun(disk, v, chunk);
          ZeroFill(buf, lo, lo + chunk);
          assert buf[lo..lo + chunk] == Zeros(chunk);
          return Ok(chunk);
        case Parent =>
          ParentRun(disk, v, chunk);
          r := ReadDeferred(buf, lo, lo + chunk, v);
        case Partial(offset, bitmapOffset, bit) =>
          r := ReadPartial(buf, lo, lo + chunk, v, offset, bitmapOffset, bit);
      }
    }

    method ReadDeferred(buf: array<byte>, lo: nat, hi: nat, v: nat) returns (r: Result<nat>)
      requires Valid() && lo < hi <= buf.Length && v < TWO63 && Defers(disk, v, hi - lo)
      modifies Repr, Sources, buf
      ensures pos == old(pos)
      ensures r.Ok? <==> Resolves(disk, v, hi - lo)
      ensures r.Ok? ==> r.value == hi - lo && buf[lo..hi] == Span(disk, v, hi - lo)
      ensures forall p :: 0 <= p < buf.Length && !(lo <= p < hi) ==> buf[p] == old(buf[p])
      decreases disk, 2
    {
      hide ByteAt, WellFormed, Valid;
      Facts();
      var done := ReadParentChunk(buf, lo, hi, v);
      DeferredResolves(disk, v, hi - lo);
      if done.Err? {
        return Err(done.error);
      }
      ghost var span := Span(disk, v, hi - lo);
      forall i | 0 <= i < hi - lo
        ensures buf[lo..hi][i] == span[i]
      {
        assert ParentByte(disk.parent, v + (lo + i - lo)) == Ok(buf[lo + i]);
        assert ByteAt(disk, v + i) == ParentByte(disk.parent, v + i);
      }
      return Ok(hi - lo);
    }

    /** One bitmap read serves the whole run of sectors with this sector's owner. */
    method ReadPartial(buf: array<byte>, lo: nat, hi: nat, v: nat, offset: nat, bitmapOffset: nat, bit: nat)
      returns (r: Result<nat>)
      requires Valid() && lo < hi <= buf.Length && v + (hi - lo) <= meta.diskSize
      requires SameBlock(meta, v, v + (hi - lo) - 1)
      requires TargetOf(disk, v) == Ok(Partial(offset, bitmapOffset, bit))
      modifies Repr, Sources, buf
      ensures pos == old(pos)
      ensures r.Ok? ==> && 1 <= r.value <= hi - lo
                        && Resolves(disk, v, r.value)
                        && buf[lo..lo + r.value] == Span(disk, v, r.value)
      ensures r.Err? ==> !Resolves(disk, v, hi - lo)
      ensures forall p :: 0 <= p < buf.Length && !(lo <= p < hi) ==> buf[p] == old(buf[p])
      ensures r.Ok? ==> forall p :: lo + r.value <= p < hi ==> buf[p] == old(buf[p])
      decreases disk, 3
    {
      hide WellFormed, ByteAt, ReadTarget, Div, Validate, Meta.ChunkRatio, BitSet, Valid;
      Facts();
      DiskFits(disk);
      var bitmap := new byte[1];
      var got := ReadFileChunk(bitmap, 0, 1, bitmapOffset);
      if got.Err? {
        BitmapMissing(disk, v);
        return Err(got.error);
      }
      assert bitmap[0] == bitmap[0..1][0] == disk.view[bitmapOffset];
      PartialTargetAlong(disk, v, v);
      var sectors := OwnerRun(bitmap[0], bit);
      var runEnd := (Div(v, meta.sectorSize) + sectors) * meta.sectorSize;
      RunEndBeyond(meta, v, sectors);
      var chunk := Min(hi - lo, runEnd - v);
      InsideBlock(meta, v, v + chunk - 1, v + (hi - lo) - 1);
      PartialRun(disk, v, chunk, sectors);
      SpanConcat(disk, v, chunk, hi - lo - chunk);
      if BitSet(bitmap[0], bit) {
        var done := ReadFileChunk(buf, lo, lo + chunk, offset);
        return if done.Ok? then Ok(chunk) else Err(done.error);
      } else {
        r := ReadDeferred(buf, lo, lo + chunk, v);
      }
    }
  }

  lemma Joined(buf: array<byte>, a: nat, b: nat, c: nat)
    requires a <= b <= c <= buf.Length
    ensures buf[a..c] == buf[a..b] + buf[b..c]
  {}

  lemma ParentIs(p: Disk, v: nat, n: nat)
    requires WellFormed(p)
    ensures ParentResolves(Some(p), v, n) <==> Resolves(p, v, n)
  {
    hide WellFormed, ByteAt;
    forall w | v <= w < v + n
      ensures ParentByte(Some(p), w) == ByteAt(p, w)
    {}
  }

  lemma SpanHolds(buf: array<byte>, lo: nat, hi: nat, p: Disk, v: nat)
    requires lo <= hi <= buf.Length && WellFormed(p) && Resolves(p, v, hi - lo)
    requires buf[lo..hi] == Span(p, v, hi - lo)
    ensures HoldsParent(buf, lo, hi, Some(p), v)
  {
    hide WellFormed, ByteAt;
    var span := Span(p, v, hi - lo);
    forall q | lo <= q < hi
      ensures ParentByte(Some(p), v + (q - lo)) == Ok(buf[q])
    {
      assert buf[q] == buf[lo..hi][q - lo] == span[q - lo];
    }
  }

  /** How many sectors from `bit` on have the same owner within one bitmap byte. */
  method OwnerRun(bitmap: byte, bit: nat) returns (sectors: nat)
    requires bit < 8
    ensures sectors >= 1 && SameOwner(bitmap, bit, sectors)
    ensures bit + sectors < 8 ==> BitSet(bitmap, bit + sectors) != BitSet(bitmap, bit)
  {
    hide BitSet;
    sectors := 1;
    while bit + sectors < 8 && BitSet(bitmap, bit + sectors) == BitSet(bitmap, bit)
      invariant sectors >= 1 && SameOwner(bitmap, bit, sectors)
    {
      sectors := sectors + 1;
    }
  }

  method ZeroFill(buf: array<byte>, lo: nat, hi: nat)
    requires lo <= hi <= buf.Length
    modifies buf
    ensures forall p :: 0 <= p < buf.Length ==> buf[p] == if lo <= p < hi then 0 else old(buf[p])
  {
    for i := lo to hi
      invariant forall p :: 0 <= p < buf.Length ==> buf[p] == if lo <= p < i then 0 else old(buf[p])
    {
      buf[i] := 0;
    }
  }

  lemma DiskFits(d: Disk)
    requires WellFormed(d)
    ensures 0 < d.meta.diskSize <= DISK_SIZE_MAX && d.meta.blockSize > 0 && d.meta.sectorSize > 0
    ensures Metadata.Valid(d.meta) && Usable(d.meta)
  {
    hide Validate;
    SizeBound(d.meta);
  }

  lemma PastEnd(d: Disk, v: nat, n: nat)
    requires WellFormed(d) && v >= d.meta.diskSize && n > 0
    ensures !Resolves(d, v, n)
  {
    assert ByteAt(d, v).Err?;
  }

  lemma Unresolved(d: Disk, v: nat, n: nat)
    requires WellFormed(d) && n > 0 && TargetOf(d, v).Err?
    ensures !Resolves(d, v, n)
  {
    assert ByteAt(d, v).Err?;
  }

  lemma DeferredResolves(d: Disk, v: nat, n: nat)
    requires WellFormed(d) && Defers(d, v, n)
    ensures Resolves(d, v, n) <==> ParentResolves(d.parent, v, n)
  {
    hide ByteAt, ParentByte;
  }

  lemma BlockEndBeyond(m: Meta, v: nat)
    requires m.blockSize > 0
    ensures v < (Div(v, m.blockSize) + 1) * m.blockSize
  {
    DivMod(v, m.blockSize);
    assert (Div(v, m.blockSize) + 1) * m.blockSize == m.blockSize * Div(v, m.blockSize) + m.blockSize;
  }

  lemma RunEndBeyond(m: Meta, v: nat, sectors: nat)
    requires m.sectorSize > 0 && sectors >= 1
    ensures v < (Div(v, m.sectorSize) + sectors) * m.sectorSize
  {
    DivMod(v, m.sectorSize);
    MulMono(Div(v, m.sectorSize) + 1, Div(v, m.sectorSize) + sectors, m.sectorSize);
    assert (Div(v, m.sectorSize) + 1) * m.sectorSize == m.sectorSize * Div(v, m.sectorSize) + m.sectorSize;
  }
}
