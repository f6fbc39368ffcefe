/** Positioned reads and whole sessions over the cursor-based reader. */
module Vfs {
  import opened Bytes
  import opened Backing
  import opened Disk
  import opened Reader
  import opened Open

  /** A reader presented as a randomly addressable byte source of fixed length. */
  class VhdxSource {
    const inner: VhdxReader
    const len: u64

    constructor (reader: VhdxReader)
      ensures inner == reader && len == reader.meta.diskSize
    {
      inner, len := reader, reader.meta.diskSize;
    }

    /** Fill `buf[lo..hi]` with the virtual disk's bytes at `offset`, wherever the cursor was. */
    method ReadAt(offset: u64, buf: array<byte>, lo: nat, hi: nat) returns (r: Result<nat>)
      requires inner.Valid() && len == inner.meta.diskSize && lo <= hi <= buf.Length
      modifies inner.Repr, inner.Sources, buf
      ensures var want := Wanted(inner.disk, offset, hi - lo);
              && (r.Ok? <==> Resolves(inner.disk, offset, want))
              && (r.Ok? ==> r.value == want && buf[lo..lo + want] == Span(inner.disk, offset, want))
              && (forall p :: 0 <= p < buf.Length && !(lo <= p < lo + want) ==> buf[p] == old(buf[p]))
    {
      hide WellFormed, ByteAt, VhdxReader.Valid, Span, Resolves;
      inner.Facts();
      SpanEmpty(inner.disk, offset);
      var avail := Max(0, len - offset);
      if avail == 0 {
        return Ok(0);
      }
      DiskFits(inner.disk);
      var want := Min(hi - lo, avail);
      var sought := inner.Seek(Start(offset));
      r := ReadFully(buf, lo, lo + want);
    }

    /** Reads at the cursor until the buffer is full. */
    method ReadFully(buf: array<byte>, lo: nat, hi: nat) returns (r: Result<nat>)
      requires inner.Valid() && lo <= hi <= buf.Length && inner.pos + (hi - lo) <= inner.meta.diskSize
      modifies inner.Repr, inner.Sources, buf
      ensures r.Ok? <==> Resolves(inner.disk, old(inner.pos), hi - lo)
      ensures r.Ok? ==> r.value == hi - lo && buf[lo..hi] == Span(inner.disk, old(inner.pos), hi - lo)
      ensures forall p :: 0 <= p < buf.Length && !(lo <= p < hi) ==> buf[p] == old(buf[p])
    {
      hide *;
      inner.Facts();
      ghost var offset, want := inner.pos, hi - lo;
      SpanEmpty(inner.disk, offset);
      var total := 0;
      while total < hi - lo
        invariant 0 <= total <= want && inner.pos == offset + total
        invariant Resolves(inner.disk, offset, total)
        invariant buf[lo..lo + total] == Span(inner.disk, offset, total)
        invariant forall p :: 0 <= p < buf.Length && !(lo <= p < lo + want) ==> buf[p] == old(buf[p])
        decreases want - total
      {
        ghost var before := buf[..];
        inner.WantedHere(hi - (lo + total));
        var n := inner.Read(buf, lo + total, hi);
        SpanConcat(inner.disk, offset, total, want - total);
        if n.Err? {
          return Err(n.error);
        }
        if n.value == 0 {
          break;
        }
        SpanConcat(inner.disk, offset, total, n.value);
        assert forall p :: lo <= p < lo + total ==> buf[p] == before[p];
        assert buf[lo..lo + total] == before[lo..lo + total];
        Joined(buf, lo, lo + total, lo + total + n.value);
        total := total + n.value;
      }
      return Ok(total);
    }
  }

  // ── Sessions ──────────────────────────────────────────────────────────────

  datatype Op = SeekTo(from: SeekFrom) | ReadBytes(count: nat)

  /** What a caller sees: the new position, the bytes, or a refusal. */
  datatype Outcome = At(pos: nat) | Bytes(data: seq<byte>) | Refused

  /** One operation on the abstract disk. */
  ghost function Perform(d: Disk, pos: cursor, op: Op): (cursor, Outcome)
    requires WellFormed(d)
  {
    match op
    case SeekTo(from) =>
      var to := Destination(from, pos, d.meta.diskSize);
      if 0 <= to < TWO63 then (to, At(to)) else (pos, Refused)
    case ReadBytes(count) =>
      var want := Wanted(d, pos, count);
      if Resolves(d, pos, want) then
        DiskFits(d);
        (pos + want, Bytes(Span(d, pos, want)))
      else (pos, Refused)
  }

  /** Everything a caller sees over a run of operations. */
  ghost function Trace(d: Disk, pos: cursor, ops: seq<Op>): seq<Outcome>
    requires WellFormed(d)
    decreases |ops|
  {
    hide WellFormed, Perform;
    if |ops| == 0 then []
    else
      var step := Perform(d, pos, ops[0]);
      [step.1] + Trace(d, step.0, ops[1..])
  }

  /**
   Any interleaving of seeks and reads on a reader shows exactly the trace of its disk: it
   depends on the cursor and the images alone, never on a cursor left behind in a parent or
   in a backing.
   */
  method RunSession(reader: VhdxReader, ops: seq<Op>) returns (seen: seq<Outcome>)
    requires reader.Valid()
    modifies reader.Repr, reader.Sources
    ensures seen == Trace(reader.disk, old(reader.pos), ops)
  {
    hide WellFormed, ByteAt, VhdxReader.Valid, Perform;
    reader.Facts();
    seen := [];
    for i := 0 to |ops|
      invariant seen + Trace(reader.disk, reader.pos, ops[i..]) == Trace(reader.disk, old(reader.pos), ops)
    {
      ghost var rest := ops[i..];
      assert rest[0] == ops[i] && rest[1..] == ops[i + 1..];
      var outcome := RunOne(reader, ops[i]);
      seen := seen + [outcome];
    }
  }

  method RunOne(reader: VhdxReader, op: Op) returns (seen: Outcome)
    requires reader.Valid()
    modifies reader.Repr, reader.Sources
    ensures (reader.pos, seen) == Perform(reader.disk, old(reader.pos), op)
  {
    hide WellFormed, ByteAt, VhdxReader.Valid, Span, Resolves;
    reader.Facts();
    match op {
      case SeekTo(from) =>
        var to := reader.Seek(from);
        seen := if to.Ok? then At(to.value) else Refused;
      case ReadBytes(count) =>
        var buf := new byte[count];
        var n := reader.Read(buf, 0, count);
        seen := if n.Ok? then Bytes(buf[..n.value]) else Refused;
        assert n.Ok? ==> buf[..n.value] == buf[0..0 + n.value];
    }
  }

  /**
   Two adjacent reads are one larger read: it succeeds exactly when both do, and then it shows
   their bytes joined and leaves the cursor where the second left it.
   */
  lemma AdjacentReads(d: Disk, pos: cursor, a: nat, b: nat)
    requires WellFormed(d)
    ensures var one := Perform(d, pos, ReadBytes(a));
            var two := Perform(d, one.0, ReadBytes(b));
            var whole := Perform(d, pos, ReadBytes(a + b));
            && (whole.1.Bytes? <==> one.1.Bytes? && two.1.Bytes?)
            && (whole.1.Bytes? ==> whole.1.data == one.1.data + two.1.data && whole.0 == two.0)
  {
    hide WellFormed, Span, Resolves, ByteAt;
    var first := Wanted(d, pos, a);
    var second := Wanted(d, pos + first, b);
    assert Wanted(d, pos, a + b) == first + second;
    SpanConcat(d, pos, first, second);
  }

  /** What a session on an opened disk shows, or why it did not open. */
  ghost function Shown(d: Result<Disk>, ops: seq<Op>): Result<seq<Outcome>>
    requires d.Ok? ==> WellFormed(d.value)
  {
    match d
    case Err(e) => Err(e)
    case Ok(disk) => Ok(Trace(disk, 0, ops))
  }

  /** What a session shows on a container opened in the one way or the other. */
  method BytesSession(data: array<byte>, parent: VhdxReader?, ops: seq<Op>) returns (seen: Result<seq<Outcome>>)
    requires data.Length < TWO63 && (parent != null ==> parent.Valid())
    modifies data, if parent == null then {} else parent.Repr, if parent == null then {} else parent.Sources
    ensures FromBytes(old(data[..]), ParentDisk(parent)).Ok? ==>
              WellFormed(FromBytes(old(data[..]), ParentDisk(parent)).value)
    ensures seen == Shown(FromBytes(old(data[..]), ParentDisk(parent)), ops)
  {
    hide WellFormed, VhdxReader.Valid, Trace, FromBytes;
    var reader := ParseBytes(data, parent);
    if reader.Err? {
      return Err(reader.error);
    }
    reader.value.Facts();
    var trace := RunSession(reader.value, ops);
    return Ok(trace);
  }

  method BackingSession(backing: Backing, parent: VhdxReader?, ops: seq<Op>) returns (seen: Result<seq<Outcome>>)
    requires backing.Sound() && (parent != null ==> parent.Valid())
    modifies backing.Sources()
    modifies if parent == null then {} else parent.Repr, if parent == null then {} else parent.Sources
    ensures FromBacking(backing.Window(), ParentDisk(parent)).Ok? ==>
              WellFormed(FromBacking(backing.Window(), ParentDisk(parent)).value)
    ensures seen == Shown(FromBacking(backing.Window(), ParentDisk(parent)), ops)
  {
    hide WellFormed, VhdxReader.Valid, Trace, FromBacking;
    var reader := ParseBacking(backing, parent);
    if reader.Err? {
      return Err(reader.error);
    }
    reader.value.Facts();
    var trace := RunSession(reader.value, ops);
    return Ok(trace);
  }

  /**
   The two ways of opening a container cannot be told apart: they refuse alike, or every
   session on the one shows what it shows on the other.
   */
  method OpenBothWays(data: array<byte>, backing: Backing, parent: VhdxReader?, ops: seq<Op>)
    returns (one: Result<seq<Outcome>>, other: Result<seq<Outcome>>)
    requires data.Length < TWO63 && backing.Sound() && backing.Window() == data[..]
    requires (parent != null ==> parent.Valid()) && EitherWay(data[..])
    modifies data, backing.Sources()
    modifies if parent == null then {} else parent.Repr, if parent == null then {} else parent.Sources
    ensures one == other
  {
    hide WellFormed, VhdxReader.Valid, FromBytes, FromBacking, EitherWay, Shown;
    OpenPathsAgree(data[..], ParentDisk(parent));
    one := BytesSession(data, parent, ops);
    other := BackingSession(backing, parent, ops);
  }
}
