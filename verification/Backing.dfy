/**
 The four positioned-read backings of a container.

 A file is a fixed byte string behind a read call that may return fewer bytes than asked
 for; a seekable reader has a cursor besides. Both return zero bytes only at end of file.
 */
module Backing {
  import opened Bytes

  /** How many of `want` bytes at `offset` lie inside a window of `size` bytes. */
  function Available(size: nat, offset: nat, want: nat): (n: nat)
    ensures n <= want && (n > 0 ==> offset + n <= size)
    ensures n < want ==> offset + n == Max(offset, size)
  {
    Min(want, Max(0, size - offset))
  }

  class OsFile {
    const bytes: seq<byte>

    constructor (bytes: seq<byte>)
      ensures this.bytes == bytes
    {
      this.bytes := bytes;
    }

    /** One positioned read: some of the bytes asked for, none only at end of file. */
    method ReadAt(buf: array<byte>, lo: nat, hi: nat, offset: nat) returns (n: nat)
      requires lo <= hi <= buf.Length
      modifies buf
      ensures n <= Available(|bytes|, offset, hi - lo)
      ensures n == 0 ==> Available(|bytes|, offset, hi - lo) == 0
      ensures forall p :: lo <= p < lo + n ==> buf[p] == bytes[offset + (p - lo)]
      ensures forall p :: 0 <= p < buf.Length && !(lo <= p < lo + n) ==> buf[p] == old(buf[p])
    {
      var most := Available(|bytes|, offset, hi - lo);
      if most == 0 {
        return 0;
      }
      n :| 1 <= n <= most;
      CopyInto(buf, lo, bytes[offset..offset + n]);
    }
  }

  class SeekReader {
    const bytes: seq<byte>
    var cursor: nat

    constructor (bytes: seq<byte>)
      ensures this.bytes == bytes
    {
      this.bytes := bytes;
      cursor := 0;
    }

    method Seek(to: nat)
      modifies this
      ensures cursor == to
    {
      cursor := to;
    }

    /** One read at the cursor, which moves past the bytes delivered. */
    method Read(buf: array<byte>, lo: nat, hi: nat) returns (n: nat)
      requires lo <= hi <= buf.Length
      modifies this, buf
      ensures n <= Available(|bytes|, old(cursor), hi - lo)
      ensures n == 0 ==> Available(|bytes|, old(cursor), hi - lo) == 0
      ensures cursor == old(cursor) + n
      ensures forall p :: lo <= p < lo + n ==> buf[p] == bytes[old(cursor) + (p - lo)]
      ensures forall p :: 0 <= p < buf.Length && !(lo <= p < lo + n) ==> buf[p] == old(buf[p])
    {
      var most := Available(|bytes|, cursor, hi - lo);
      if most == 0 {
        return 0;
      }
      n :| 1 <= n <= most;
      CopyInto(buf, lo, bytes[cursor..cursor + n]);
      cursor := cursor + n;
    }
  }

  /** Positioned reads repeated until the buffer is full or the file ends. */
  method Pread(file: OsFile, buf: array<byte>, lo: nat, hi: nat, offset: nat) returns (total: nat)
    requires lo <= hi <= buf.Length
    modifies buf
    ensures total == Available(|file.bytes|, offset, hi - lo)
    ensures forall p :: lo <= p < lo + total ==> buf[p] == file.bytes[offset + (p - lo)]
    ensures forall p :: 0 <= p < buf.Length && !(lo <= p < lo + total) ==> buf[p] == old(buf[p])
  {
    total := 0;
    while total < hi - lo
      invariant total <= Available(|file.bytes|, offset, hi - lo)
      invariant forall p :: lo <= p < lo + total ==> buf[p] == file.bytes[offset + (p - lo)]
      invariant forall p :: 0 <= p < buf.Length && !(lo <= p < lo + total) ==> buf[p] == old(buf[p])
    {
      var n := file.ReadAt(buf, lo + total, hi, offset + total);
      if n == 0 {
        break;
      }
      total := total + n;
    }
  }

  datatype Backing =
    | File(file: OsFile)
    | Sub(parent: OsFile, base: nat, len: nat)
    | Mem(bytes: seq<byte>)
    | Reader(inner: SeekReader, size: nat)
  {
    /** The container bytes this backing stands for. */
    function Window(): seq<byte> {
      match this
      case File(f) => f.bytes
      case Sub(f, base, len) => f.bytes[Min(base, |f.bytes|)..Min(base + len, |f.bytes|)]
      case Mem(b) => b
      case Reader(inner, size) => inner.bytes[..Min(size, |inner.bytes|)]
    }

    /** A sub-range inside its file, a reader measured at construction. */
    predicate Sound() {
      && |Window()| < TWO63
      && (Sub? ==> base + len <= |parent.bytes|)
      && (Reader? ==> size == |inner.bytes|)
    }

    /** A sub-range is the bytes of its file from `base` on; every other backing is all of its bytes. */
    lemma WindowExactly()
      requires Sound()
      ensures match this
              case File(f) => Window() == f.bytes
              case Sub(f, base, len) => Window() == f.bytes[base..base + len]
              case Mem(b) => Window() == b
              case Reader(inner, _) => Window() == inner.bytes
    {}

    ghost function Sources(): set<SeekReader> {
      if Reader? then {inner} else {}
    }

    function Len(): (n: nat)
      ensures Sound() ==> n == |Window()|
    {
      match this
      case File(f) => |f.bytes|
      case Sub(_, _, len) => len
      case Mem(b) => |b|
      case Reader(_, size) => size
    }

    /**
     Fill `buf[lo..hi]` from `offset`: exactly the bytes of the window that are there, for any
     pattern of short reads and wherever the inner cursor was left.
     */
    method ReadAt(buf: array<byte>, lo: nat, hi: nat, offset: nat) returns (n: nat)
      requires lo <= hi <= buf.Length
      modifies buf, Sources()
      ensures n == Available(|Window()|, offset, hi - lo)
      ensures forall p :: lo <= p < lo + n ==> buf[p] == Window()[offset + (p - lo)]
      ensures forall p :: 0 <= p < buf.Length && !(lo <= p < lo + n) ==> buf[p] == old(buf[p])
      ensures Sub? && base + len <= |parent.bytes| ==>
                && n == Min(hi - lo, Max(0, len - offset))
                && forall p :: lo <= p < lo + n ==> buf[p] == parent.bytes[base + offset + (p - lo)]
    {
      match this
      case File(f) =>
        n := Pread(f, buf, lo, hi, offset);
      case Sub(f, base, len) =>
        var avail := Max(0, len - offset);
        if avail == 0 {
          return 0;
        }
        var want := Min(hi - lo, avail);
        n := Pread(f, buf, lo, lo + want, base + offset);
      case Mem(b) =>
        var off := Min(offset, |b|);
        n := Min(|b| - off, hi - lo);
        CopyInto(buf, lo, b[off..off + n]);
      case Reader(inner, size) =>
        var avail := Max(0, size - offset);
        if avail == 0 {
          return 0;
        }
        var want := Min(hi - lo, avail);
        inner.Seek(offset);
        n := ReadFull(inner, buf, lo, lo + want);
    }

    /** A fresh buffer of the bytes at `offset`, short only where the container ends. */
    method ReadExactAt(offset: nat, want: nat) returns (v: seq<byte>)
      modifies Sources()
      ensures |v| == Available(|Window()|, offset, want)
      ensures |v| > 0 ==> v == Window()[offset..offset + |v|]
    {
      var buf := new byte[want](_ => 0);
      var n := ReadAt(buf, 0, want, offset);
      v := buf[..n];
      assert n > 0 ==> v == Window()[offset..offset + n];
    }
  }

  /** Reads at the moving cursor repeated until the buffer is full or the stream ends. */
  method ReadFull(inner: SeekReader, buf: array<byte>, lo: nat, hi: nat) returns (total: nat)
    requires lo <= hi <= buf.Length
    modifies buf, inner
    ensures total == Available(|inner.bytes|, old(inner.cursor), hi - lo)
    ensures forall p :: lo <= p < lo + total ==> buf[p] == inner.bytes[old(inner.cursor) + (p - lo)]
    ensures forall p :: 0 <= p < buf.Length && !(lo <= p < lo + total) ==> buf[p] == old(buf[p])
  {
    ghost var offset := inner.cursor;
    total := 0;
    while total < hi - lo
      invariant total <= Available(|inner.bytes|, offset, hi - lo)
      invariant inner.cursor == offset + total
      invariant forall p :: lo <= p < lo + total ==> buf[p] == inner.bytes[offset + (p - lo)]
      invariant forall p :: 0 <= p < buf.Length && !(lo <= p < lo + total) ==> buf[p] == old(buf[p])
    {
      var n := inner.Read(buf, lo + total, hi);
      if n == 0 {
        break;
      }
      total := total + n;
    }
  }
}
