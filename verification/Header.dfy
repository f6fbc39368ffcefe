/** Checksummed blocks and the selection of the active header. */
module Header {
  import opened Bytes
  import opened Crc

  const HEADER1: nat := 0x1_0000
  const HEADER2: nat := 0x2_0000
  const TABLE1: nat := 0x3_0000
  const TABLE2: nat := 0x4_0000
  const HEADER_SIZE: nat := 4096
  const TABLE_SIZE: nat := 65536

  const MAGIC: seq<byte> := [0x76, 0x68, 0x64, 0x78, 0x66, 0x69, 0x6C, 0x65]
  const HEAD_SIGNATURE: seq<byte> := [0x68, 0x65, 0x61, 0x64]
  const TABLE_SIGNATURE: seq<byte> := [0x72, 0x65, 0x67, 0x69]

  datatype LogHeader = LogHeader(sequence: u64, logGuid: seq<byte>, logOffset: u64, logLength: u32)

  /** The block with its checksum field cleared: what the checksum is taken over. */
  function Unsigned(block: seq<byte>): (r: seq<byte>)
    requires |block| >= 8
    ensures |r| == |block|
  {
    Splice(block, 4, Zeros(4))
  }

  predicate ChecksumOk(block: seq<byte>)
    requires |block| >= 8
  {
    Crc32c(Unsigned(block)) == LeU32(block, 4)
  }

  method VerifyCrc32c(block: seq<byte>) returns (ok: bool)
    requires |block| >= 8
    ensures ok == ChecksumOk(block)
  {
    hide Crc32c;
    var buf := new byte[|block|](i requires 0 <= i < |block| => block[i]);
    for i := 4 to 8
      invariant buf[..] == Splice(block, 4, Zeros(i - 4))
    {
      buf[i] := 0;
    }
    var crc := ComputeCrc32c(buf[..]);
    ok := crc == LeU32(block, 4);
  }

  /** Store the checksum of a block into its own field. */
  function Signed(block: seq<byte>): (r: seq<byte>)
    requires |block| >= 8
    ensures |r| == |block| && ChecksumOk(r)
    ensures r[..4] == block[..4] && r[8..] == block[8..]
  {
    var r := Splice(block, 4, ToLe32(Crc32c(Unsigned(block))));
    assert Unsigned(r) == Unsigned(block);
    assert r[4..8] == ToLe32(Crc32c(Unsigned(block)));
    LeU32Slice(r, 4, 8, 0);
    r
  }

  /** Signing a block that verifies changes nothing. */
  lemma SignedIdentity(block: seq<byte>)
    requires |block| >= 8 && ChecksumOk(block)
    ensures Signed(block) == block
  {
    hide Crc32c;
    var r := Signed(block);
    assert Unsigned(r) == Unsigned(block);
    LeU32Injective(r, block, 4);
    assert r == r[..4] + r[4..8] + r[8..];
    assert block == block[..4] + block[4..8] + block[8..];
  }

  /**
   A change confined to four consecutive bytes, wholly inside or wholly outside the
   checksum field, makes verification of a valid block fail.
   */
  lemma ChangeDetected(x: seq<byte>, y: seq<byte>, k: nat)
    requires |x| == |y| >= 8 && k + 4 <= |x| && (k == 4 || k == 0 || k >= 8)
    requires x != y && forall p :: 0 <= p < |x| && !(k <= p < k + 4) ==> x[p] == y[p]
    requires ChecksumOk(x)
    ensures !ChecksumOk(y)
  {
    hide Crc32c;
    SplitAt(x, k);
    SplitAt(y, k);
    assert x[..k] == y[..k] && x[k + 4..] == y[k + 4..];
    if k == 4 {
      FieldChangeDetected(x, y);
    } else {
      ContentChangeDetected(x, y, k);
    }
  }

  lemma SplitAt(d: seq<byte>, k: nat)
    requires k + 4 <= |d|
    ensures d == d[..k] + d[k..k + 4] + d[k + 4..]
  {}

  lemma FieldChangeDetected(x: seq<byte>, y: seq<byte>)
    requires |x| == |y| >= 8 && x != y && x[..4] == y[..4] && x[8..] == y[8..]
    requires ChecksumOk(x)
    ensures !ChecksumOk(y)
  {
    hide Crc32c;
    assert Unsigned(x) == Unsigned(y);
    if LeU32(x, 4) == LeU32(y, 4) {
      LeU32Injective(x, y, 4);
      SplitAt(x, 4);
      SplitAt(y, 4);
      assert false;
    }
  }

  lemma ContentChangeDetected(x: seq<byte>, y: seq<byte>, k: nat)
    requires |x| == |y| >= 8 && k + 4 <= |x| && (k == 0 || k >= 8)
    requires x != y && x[..k] == y[..k] && x[k + 4..] == y[k + 4..]
    requires ChecksumOk(x)
    ensures !ChecksumOk(y)
  {
    hide Crc32c;
    var u, v := Unsigned(x), Unsigned(y);
    UnsignedWindow(x, y, k);
    SplitAt(u, k);
    SplitAt(v, k);
    SplitAt(x, k);
    SplitAt(y, k);
    FourByteBurst(u[..k], x[k..k + 4], y[k..k + 4], u[k + 4..]);
  }

  lemma UnsignedWindow(x: seq<byte>, y: seq<byte>, k: nat)
    requires |x| == |y| >= 8 && k + 4 <= |x| && (k == 0 || k >= 8)
    requires x[..k] == y[..k] && x[k + 4..] == y[k + 4..]
    ensures LeU32(x, 4) == LeU32(y, 4)
    ensures Unsigned(x)[..k] == Unsigned(y)[..k] && Unsigned(x)[k + 4..] == Unsigned(y)[k + 4..]
    ensures Unsigned(x)[k..k + 4] == x[k..k + 4] && Unsigned(y)[k..k + 4] == y[k..k + 4]
  {
    hide Crc32c;
    forall p | 0 <= p < |x| && !(k <= p < k + 4)
      ensures x[p] == y[p]
    {
      if p < k {
        assert x[..k][p] == y[..k][p];
      } else {
        assert x[k + 4..][p - k - 4] == y[k + 4..][p - k - 4];
      }
    }
  }

  // ── Header selection ──────────────────────────────────────────────────────

  /** A header copy the reader accepts. */
  predicate HeaderOk(data: seq<byte>, at: nat) {
    && at + HEADER_SIZE <= |data|
    && SignatureAt(data, at, HEAD_SIGNATURE)
    && ChecksumOk(data[at..at + HEADER_SIZE])
  }

  function HeaderAt(data: seq<byte>, at: nat): LogHeader {
    LogHeader(LeU64(data, at + 8), Guid(data, at + 48), LeU64(data, at + 72), LeU32(data, at + 68))
  }

  /** Offset of the accepted copy with the highest sequence number; the first copy wins ties. */
  function ActiveOffset(data: seq<byte>): Option<nat> {
    var ok1, ok2 := HeaderOk(data, HEADER1), HeaderOk(data, HEADER2);
    if ok1 && (!ok2 || LeU64(data, HEADER1 + 8) >= LeU64(data, HEADER2 + 8)) then Some(HEADER1)
    else if ok2 then Some(HEADER2)
    else None
  }

  function ActiveHeader(data: seq<byte>): Result<LogHeader> {
    match ActiveOffset(data)
    case Some(at) => Ok(HeaderAt(data, at))
    case None => Err(NoValidHeader)
  }

  /** A copy is accepted for its signature and the checksum of its 4 KiB with bytes 4 to 8 cleared. */
  lemma AcceptedCopy(data: seq<byte>, at: nat)
    ensures HeaderOk(data, at) <==>
              && at + 4096 <= |data| && data[at..at + 4] == [0x68, 0x65, 0x61, 0x64]
              && Crc32c(data[at..at + 4] + [0, 0, 0, 0] + data[at + 8..at + 4096]) == LeU32(data, at + 4)
  {
    hide Crc32c, LeU32;
    if at + 4096 <= |data| {
      var block := data[at..at + 4096];
      LeU32Slice(data, at, at + 4096, 4);
      assert Unsigned(block) == data[at..at + 4] + [0, 0, 0, 0] + data[at + 8..at + 4096];
    }
  }

  /**
   The active header is one of the accepted copies, at 64 KiB and at 128 KiB; no accepted copy is
   newer, and of two equally new copies it is the first.
   */
  lemma NewestAccepted(data: seq<byte>)
    ensures ActiveHeader(data).Ok? <==> HeaderOk(data, 0x1_0000) || HeaderOk(data, 0x2_0000)
    ensures ActiveHeader(data).Err? ==> ActiveHeader(data) == Err(NoValidHeader)
    ensures ActiveHeader(data).Ok? ==>
              || (HeaderOk(data, 0x1_0000) && ActiveHeader(data) == Ok(HeaderAt(data, 0x1_0000)))
              || (HeaderOk(data, 0x2_0000) && ActiveHeader(data) == Ok(HeaderAt(data, 0x2_0000)))
    ensures forall at :: (at == 0x1_0000 || at == 0x2_0000) && HeaderOk(data, at) ==>
              ActiveHeader(data).value.sequence >= LeU64(data, at + 8)
    ensures HeaderOk(data, 0x1_0000) && HeaderOk(data, 0x2_0000)
            && LeU64(data, 0x1_0000 + 8) == LeU64(data, 0x2_0000 + 8) ==>
              ActiveHeader(data) == Ok(HeaderAt(data, 0x1_0000))
  {
    hide HeaderOk, LeU64, LeU32;
  }

  /** The analyser's offset is that of the active header. */
  lemma OffsetOfActive(data: seq<byte>)
    ensures match ActiveOffset(data)
            case Some(at) =>
              && (at == 0x1_0000 || at == 0x2_0000) && HeaderOk(data, at)
              && ActiveHeader(data) == Ok(HeaderAt(data, at))
              && (forall other :: (other == 0x1_0000 || other == 0x2_0000) && HeaderOk(data, other) ==>
                    LeU64(data, at + 8) > LeU64(data, other + 8)
                    || (LeU64(data, at + 8) == LeU64(data, other + 8) && at <= other))
            case None => !HeaderOk(data, 0x1_0000) && !HeaderOk(data, 0x2_0000)
  {
    hide HeaderOk, LeU64, HeaderAt;
  }

  method ParseOneHeader(data: seq<byte>, at: nat) returns (r: Result<LogHeader>)
    ensures r == if HeaderOk(data, at) then Ok(HeaderAt(data, at)) else Err(NoValidHeader)
  {
    hide Crc32c;
    if |data| < at + HEADER_SIZE {
      return Err(NoValidHeader);
    }
    var slice := data[at..at + HEADER_SIZE];
    SliceSlice(data, at, at + HEADER_SIZE, 0, 4);
    if slice[..4] != HEAD_SIGNATURE {
      return Err(NoValidHeader);
    }
    var ok := VerifyCrc32c(slice);
    if !ok {
      return Err(NoValidHeader);
    }
    assert HeaderAt(slice, 0) == HeaderAt(data, at) by {
      HeaderSlice(data, at);
    }
    return Ok(HeaderAt(slice, 0));
  }

  lemma HeaderSlice(data: seq<byte>, at: nat)
    requires at + HEADER_SIZE <= |data|
    ensures HeaderAt(data[at..at + HEADER_SIZE], 0) == HeaderAt(data, at)
  {
    LeU64Slice(data, at, at + HEADER_SIZE, 8);
    LeU64Slice(data, at, at + HEADER_SIZE, 72);
    LeU32Slice(data, at, at + HEADER_SIZE, 68);
    GuidSlice(data, at, at + HEADER_SIZE, 48);
  }

  method ParseActiveHeader(data: seq<byte>) returns (r: Result<LogHeader>)
    ensures r == ActiveHeader(data)
  {
    hide Crc32c;
    var h1 := ParseOneHeader(data, HEADER1);
    var h2 := ParseOneHeader(data, HEADER2);
    match (h1, h2) {
      case (Ok(a), Ok(b)) => return if a.sequence >= b.sequence then h1 else h2;
      case (Ok(_), Err(_)) => return h1;
      case (Err(_), Ok(_)) => return h2;
      case (Err(_), Err(_)) => return Err(NoValidHeader);
    }
  }

  /** Selection looks at the two header slots only. */
  lemma ActiveHeaderFrame(x: seq<byte>, y: seq<byte>)
    requires |x| >= HEADER2 + HEADER_SIZE && |y| >= HEADER2 + HEADER_SIZE
    requires x[HEADER1..HEADER1 + HEADER_SIZE] == y[HEADER1..HEADER1 + HEADER_SIZE]
    requires x[HEADER2..HEADER2 + HEADER_SIZE] == y[HEADER2..HEADER2 + HEADER_SIZE]
    ensures ActiveHeader(x) == ActiveHeader(y) && ActiveOffset(x) == ActiveOffset(y)
  {
    hide Crc32c;
    HeaderSlotFrame(x, y, HEADER1, HEADER1);
    HeaderSlotFrame(x, y, HEADER2, HEADER2);
  }

  /** Equal header slots, wherever they stand, are accepted alike and say the same. */
  lemma HeaderSlotFrame(x: seq<byte>, y: seq<byte>, a: nat, b: nat)
    requires a + HEADER_SIZE <= |x| && b + HEADER_SIZE <= |y|
    requires x[a..a + HEADER_SIZE] == y[b..b + HEADER_SIZE]
    ensures HeaderOk(x, a) == HeaderOk(y, b)
    ensures HeaderAt(x, a) == HeaderAt(y, b)
  {
    hide Crc32c;
    SliceSlice(x, a, a + HEADER_SIZE, 0, 4);
    SliceSlice(y, b, b + HEADER_SIZE, 0, 4);
    HeaderSlice(x, a);
    HeaderSlice(y, b);
  }
}
