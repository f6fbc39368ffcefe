/** Whether the block table is large enough: the analyser's two checks against the reader's lookups. */
module Coverage {
  import opened Bytes
  import opened Arith
  import opened Crc
  import opened Metadata
  import opened Bat

  function CeilDiv(n: nat, d: nat): nat
    requires d > 0
  {
    Div(n, d) + if Mod(n, d) == 0 then 0 else 1
  }

  function NextMultiple(n: nat, unit: nat): nat
    requires unit > 0
  {
    CeilDiv(n, unit) * unit
  }

  // ── The checks, in wrapping 64-bit arithmetic ─────────────────────────────

  function Wrap(n: nat): u64 { n % TWO64 }

  lemma WrapSmall(n: nat)
    requires n < TWO64
    ensures Wrap(n) == n
  {}

  /** The BAT length that block size, disk size and chunk ratio imply, narrowed to 32 bits. */
  function ExpectedBytes(blockSize: nat, diskSize: nat, ratio: nat): u32
    requires blockSize > 0 && ratio > 0
  {
    var blocks := CeilDiv(diskSize, blockSize);
    var entries := Wrap(blocks + CeilDiv(blocks, ratio));
    Wrap(NextMultiple(Wrap(entries * 8), MIB)) % TWO32
  }

  predicate SizeMismatch(blockSize: nat, diskSize: nat, ratio: nat, batLength: u32)
    requires blockSize > 0 && ratio > 0
  {
    ExpectedBytes(blockSize, diskSize, ratio) != batLength
  }

  /** Blocks the analyser takes a table of `n` entries to describe. */
  function Capacity(n: nat, ratio: nat): nat {
    Div(Wrap(n * ratio), ratio + 1)
  }

  predicate SizeOverreported(blockSize: nat, diskSize: nat, ratio: nat, n: nat) {
    diskSize > Wrap(Capacity(n, ratio) * blockSize)
  }

  // ── What the reader needs ─────────────────────────────────────────────────

  /** Payload blocks of the disk, the last one possibly partial. */
  function DataBlocks(m: Meta): nat
    requires m.blockSize > 0
  {
    CeilDiv(m.diskSize, m.blockSize)
  }

  /** Entries below `n` that are not bitmap slots. */
  function PayloadSlots(n: nat, ratio: nat): nat {
    DivLess(n, ratio + 1);
    n - Div(n, ratio + 1)
  }

  /** Exactly the first `PayloadSlots` blocks have their entry below `n`. */
  lemma SlotsBelow(block: nat, n: nat, ratio: nat)
    requires ratio > 0
    ensures PayloadIndex(block, ratio) < n <==> block < PayloadSlots(n, ratio)
  {
    var q, r := Div(n, ratio + 1), Mod(n, ratio + 1);
    DivMod(n, ratio + 1);
    assert n == ratio * q + q + r && PayloadSlots(n, ratio) == ratio * q + r;
    if block < PayloadSlots(n, ratio) {
      QuotientAtMost(block, ratio, q, r);
    } else {
      QuotientAtLeast(block, ratio, q);
    }
  }

  lemma QuotientAtMost(block: nat, ratio: nat, q: nat, r: nat)
    requires ratio > 0 && block < ratio * q + r && r <= ratio
    ensures Div(block, ratio) <= q
  {
    DivMod(block, ratio);
    hide Div, Mod;
    var k := Div(block, ratio);
    assert ratio * (q + 1) == ratio * q + ratio;
    if k > q {
      MulMono(q + 1, k, ratio);
    }
  }

  lemma QuotientAtLeast(block: nat, ratio: nat, q: nat)
    requires ratio > 0 && block >= ratio * q
    ensures Div(block, ratio) >= q
  {
    DivUnique(ratio * q, ratio, q, 0);
    DivMono(ratio * q, block, ratio);
  }

  /** The analyser's capacity is exact on whole chunks and otherwise one block short. */
  lemma CapacityExactly(n: nat, ratio: nat)
    requires ratio > 0 && n * ratio < TWO64
    ensures Capacity(n, ratio) == PayloadSlots(n, ratio) - if Mod(n, ratio + 1) == 0 then 0 else 1
  {
    hide Div, Mod, Wrap;
    var d, q, r := ratio + 1, Div(n, ratio + 1), Mod(n, ratio + 1);
    DivMod(n, d);
    WrapSmall(n * ratio);
    ScaledDivision(n, ratio, q, r);
    MulAdd(q, ratio, 1);
    if r == 0 {
      DivUnique(n * ratio, d, q * ratio, 0);
    } else {
      MulAdd(d, q * ratio, r - 1);
      MulAdd(r - 1, ratio, 1);
      MulAdd(ratio, r - 1, 1);
      DivUnique(n * ratio, d, q * ratio + (r - 1), d - r);
    }
  }

  lemma ScaledDivision(n: nat, ratio: nat, q: nat, r: nat)
    requires n == (ratio + 1) * q + r
    ensures n * ratio == (ratio + 1) * (q * ratio) + r * ratio
  {
    MulAdd(ratio, (ratio + 1) * q, r);
    MulAssoc(ratio + 1, q, ratio);
  }

  /** Some byte of the disk has no BAT entry. */
  ghost predicate SomeBlockMissing(entries: seq<u64>, m: Meta)
    requires Usable(m)
  {
    exists v: nat :: ReadTarget(entries, m, v) == Err(BlockNotPresent(Div(v, m.blockSize)))
  }

  lemma MissingHere(entries: seq<u64>, m: Meta, v: nat)
    requires Usable(m)
    ensures ReadTarget(entries, m, v) == Err(BlockNotPresent(Div(v, m.blockSize)))
       <==> v < m.diskSize && PayloadIndex(Div(v, m.blockSize), m.ChunkRatio()) >= |entries|
    ensures ReadTarget(entries, m, v).Err? && ReadTarget(entries, m, v).error.BlockNotPresent?
       ==> ReadTarget(entries, m, v) == Err(BlockNotPresent(Div(v, m.blockSize)))
  {
    hide Div, Mod, Meta.ChunkRatio;
  }

  /** The blocks of the disk are those numbered below `DataBlocks`. */
  lemma BlockInDisk(m: Meta, v: nat)
    requires m.blockSize > 0 && v < m.diskSize
    ensures Div(v, m.blockSize) < DataBlocks(m)
  {
    DivMod(m.diskSize, m.blockSize);
    DivMod(v, m.blockSize);
    hide Div, Mod;
    var k, d := Div(v, m.blockSize), Div(m.diskSize, m.blockSize);
    MulComm(k, m.blockSize);
    MulComm(d, m.blockSize);
    MulAdd(m.blockSize, d, 1);
    if k >= d + 1 {
      MulMono(d + 1, k, m.blockSize);
    } else if k == d {
      assert Mod(m.diskSize, m.blockSize) > 0;
    }
  }

  lemma LastBlock(m: Meta) returns (v: nat)
    requires m.blockSize > 0 && m.diskSize > 0
    ensures v < m.diskSize && Div(v, m.blockSize) == DataBlocks(m) - 1
  {
    var d, r := Div(m.diskSize, m.blockSize), Mod(m.diskSize, m.blockSize);
    DivMod(m.diskSize, m.blockSize);
    hide Div, Mod;
    if r > 0 {
      v := m.blockSize * d;
      DivUnique(v, m.blockSize, d, 0);
    } else {
      v := m.diskSize - 1;
      assert m.blockSize * (d - 1) == m.blockSize * d - m.blockSize;
      assert d > 0;
      DivUnique(v, m.blockSize, d - 1, m.blockSize - 1);
    }
  }

  /** The reader finds every block's entry exactly when the table has a slot for each. */
  lemma AllBlocksPresentExactly(entries: seq<u64>, m: Meta)
    requires Valid(m) && Usable(m)
    ensures !SomeBlockMissing(entries, m) <==> DataBlocks(m) <= PayloadSlots(|entries|, m.ChunkRatio())
  {
    hide Validate, Div, Mod, Meta.ChunkRatio, ReadTarget, DataBlocks, PayloadIndex, PayloadSlots;
    SizeBound(m);
    var n, ratio := |entries|, m.ChunkRatio();
    if DataBlocks(m) <= PayloadSlots(n, ratio) {
      forall v: nat
        ensures ReadTarget(entries, m, v) != Err(BlockNotPresent(Div(v, m.blockSize)))
      {
        MissingHere(entries, m, v);
        if v < m.diskSize {
          BlockInDisk(m, v);
          SlotsBelow(Div(v, m.blockSize), n, ratio);
        }
      }
    } else {
      var v := LastBlock(m);
      MissingHere(entries, m, v);
      SlotsBelow(Div(v, m.blockSize), n, ratio);
    }
  }

  // ── Soundness of the checks ───────────────────────────────────────────────

  lemma CeilAtLeast(n: nat, d: nat)
    requires d > 0
    ensures CeilDiv(n, d) * d >= n
  {
    DivMod(n, d);
    hide Div, Mod;
    assert (Div(n, d) + 1) * d == d * Div(n, d) + d;
  }

  /** The quotient of a bounded number by a large divisor is small. */
  lemma CeilBound(n: nat, d: nat, least: nat, most: nat)
    requires 0 < least <= d && n <= least * most
    ensures CeilDiv(n, d) <= most + 1
  {
    DivMod(n, d);
    hide Div, Mod;
    MulMono(least, d, Div(n, d));
    MulAdd(least, most, 1);
    if Div(n, d) > most {
      MulMono(most + 1, Div(n, d), least);
    }
  }

  /** For valid parameters nothing wraps and the narrowing to 32 bits loses nothing. */
  lemma NoNarrowing(m: Meta)
    requires Valid(m) && Usable(m)
    ensures var blocks := DataBlocks(m);
            ExpectedBytes(m.blockSize, m.diskSize, m.ChunkRatio())
            == NextMultiple((blocks + CeilDiv(blocks, m.ChunkRatio())) * 8, MIB)
  {
    hide Validate, Div, Mod, Meta.ChunkRatio, CeilDiv, Wrap;
    Geometry(m);
    SizeBound(m);
    var blocks, ratio := DataBlocks(m), m.ChunkRatio();
    CeilBound(m.diskSize, m.blockSize, BLOCK_SIZE_MIN, 0x400_0000);
    CeilBound(blocks, ratio, 16, 0x40_0001);
    var entries := blocks + CeilDiv(blocks, ratio);
    CeilBound(entries * 8, MIB, MIB, 0x221);
    WrapSmall(entries);
    WrapSmall(entries * 8);
    WrapSmall(NextMultiple(entries * 8, MIB));
  }

  /** A table of the expected size has a slot for every block of the disk. */
  lemma ExpectedSuffices(m: Meta, batLength: u32)
    requires Valid(m) && Usable(m) && !SizeMismatch(m.blockSize, m.diskSize, m.ChunkRatio(), batLength)
    ensures DataBlocks(m) <= PayloadSlots(batLength / 8, m.ChunkRatio())
  {
    hide Validate, Div, Mod, Meta.ChunkRatio, ExpectedBytes;
    NoNarrowing(m);
    var blocks, ratio := DataBlocks(m), m.ChunkRatio();
    var n := blocks + CeilDiv(blocks, ratio);
    CeilAtLeast(n * 8, MIB);
    if blocks > 0 {
      EnoughFor(blocks, ratio);
      SlotsBelow(blocks - 1, batLength / 8, ratio);
    }
  }

  lemma EnoughFor(blocks: nat, ratio: nat)
    requires ratio > 0 && blocks > 0
    ensures PayloadIndex(blocks - 1, ratio) < blocks + CeilDiv(blocks, ratio)
  {
    DivMono(blocks - 1, blocks, ratio);
  }

  lemma CapacitySuffices(m: Meta, batLength: u32)
    requires Valid(m) && Usable(m) && !SizeOverreported(m.blockSize, m.diskSize, m.ChunkRatio(), batLength / 8)
    ensures DataBlocks(m) <= PayloadSlots(batLength / 8, m.ChunkRatio())
  {
    hide Validate, Div, Mod, Meta.ChunkRatio, PayloadSlots, Capacity, DataBlocks, Wrap;
    Geometry(m);
    SizeBound(m);
    var n, ratio := batLength / 8, m.ChunkRatio();
    MulMono(n, 0x2000_0000, ratio);
    CapacityExactly(n, ratio);
    SlotsAtMost(n, ratio);
    var v := LastBlock(m);
    DivMod(v, m.blockSize);
    BlocksWithin(m.blockSize, m.diskSize, v, Div(v, m.blockSize), Mod(v, m.blockSize), Capacity(n, ratio));
  }

  lemma BlocksWithin(blockSize: nat, diskSize: nat, v: nat, k: nat, r: nat, c: nat)
    requires blockSize <= BLOCK_SIZE_MAX && c <= 0x2000_0000
    requires v == blockSize * k + r && v < diskSize <= Wrap(c * blockSize)
    ensures k < c
  {
    hide Wrap;
    MulMono(c, 0x2000_0000, blockSize);
    WrapSmall(c * blockSize);
    if c <= k {
      MulMono(c, k, blockSize);
      MulComm(k, blockSize);
    }
  }

  lemma SlotsAtMost(n: nat, ratio: nat)
    ensures PayloadSlots(n, ratio) <= n
  {}

  /** If either check passes, no read of the disk ever misses its block's entry. */
  lemma EitherCheckSuffices(entries: seq<u64>, m: Meta, batLength: u32)
    requires Valid(m) && Usable(m) && |entries| == batLength / 8
    requires || !SizeMismatch(m.blockSize, m.diskSize, m.ChunkRatio(), batLength)
             || !SizeOverreported(m.blockSize, m.diskSize, m.ChunkRatio(), batLength / 8)
    ensures !SomeBlockMissing(entries, m)
  {
    hide Validate, Div, Mod, Meta.ChunkRatio, SizeMismatch, SizeOverreported, SomeBlockMissing, DataBlocks;
    hide PayloadSlots;
    AllBlocksPresentExactly(entries, m);
    if !SizeMismatch(m.blockSize, m.diskSize, m.ChunkRatio(), batLength) {
      ExpectedSuffices(m, batLength);
    } else {
      CapacitySuffices(m, batLength);
    }
  }

  /** A table of less than one entry has nothing for any byte. */
  lemma NoEntriesAllMissing(m: Meta)
    requires Valid(m) && Usable(m)
    ensures forall v: nat :: v < m.diskSize ==> ReadTarget([], m, v) == Err(BlockNotPresent(Div(v, m.blockSize)))
    ensures SomeBlockMissing([], m)
  {
    hide Validate, Div, Mod, Meta.ChunkRatio, PartialTarget;
    SizeBound(m);
    assert ReadTarget([], m, 0) == Err(BlockNotPresent(Div(0, m.blockSize)));
  }

  // ── Bitmap slots are not covered ──────────────────────────────────────────

  /** All bitmap slots exist exactly when the table has room for whole chunks. */
  lemma BitmapSlotsExactly(m: Meta, n: nat)
    requires Valid(m) && Usable(m)
    ensures (forall v: nat :: v < m.diskSize ==> BitmapSlot(m, v) < n)
       <==> CeilDiv(DataBlocks(m), m.ChunkRatio()) * (m.ChunkRatio() + 1) <= n
  {
    hide Validate, Div, Mod, Meta.ChunkRatio, DataBlocks, BitmapSlot, CeilDiv;
    SizeBound(m);
    var ratio, chunks := m.ChunkRatio(), CeilDiv(DataBlocks(m), m.ChunkRatio());
    forall v: nat | v < m.diskSize
      ensures BitmapSlot(m, v) < chunks * (ratio + 1)
    {
      BlockInDisk(m, v);
      SlotOf(m, v);
      ChunkBelow(Div(v, m.blockSize), DataBlocks(m), ratio);
      MulMono(Div(Div(v, m.blockSize), ratio) + 1, chunks, ratio + 1);
    }
    var last := LastBlock(m);
    SlotOf(m, last);
    LastChunk(DataBlocks(m), ratio);
  }

  lemma SlotOf(m: Meta, v: nat)
    requires Valid(m) && Usable(m)
    ensures BitmapSlot(m, v) + 1 == (Div(Div(v, m.blockSize), m.ChunkRatio()) + 1) * (m.ChunkRatio() + 1)
  {
    hide Validate, Div, Mod, Meta.ChunkRatio, ChunkOf;
    ChunkOfBlock(m, v);
    var k, r := ChunkOf(m, v), m.ChunkRatio() + 1;
    assert (k + 1) * r == k * r + r;
  }

  lemma ChunkBelow(block: nat, blocks: nat, ratio: nat)
    requires ratio > 0 && block < blocks
    ensures Div(block, ratio) + 1 <= CeilDiv(blocks, ratio)
  {
    DivMono(block, blocks, ratio);
    DivMod(block, ratio);
    DivMod(blocks, ratio);
  }

  lemma LastChunk(blocks: nat, ratio: nat)
    requires ratio > 0 && blocks > 0
    ensures Div(blocks - 1, ratio) + 1 == CeilDiv(blocks, ratio)
  {
    var q, r := Div(blocks, ratio), Mod(blocks, ratio);
    DivMod(blocks, ratio);
    hide Div, Mod;
    if r > 0 {
      DivUnique(blocks - 1, ratio, q, r - 1);
    } else {
      assert ratio * (q - 1) == ratio * q - ratio;
      assert q > 0;
      DivUnique(blocks - 1, ratio, q - 1, ratio - 1);
    }
  }

  /** A disk of the largest blocks whose expected table length is an exact MiB. */
  const TIGHT: Meta := Meta(0x1000_0000, true, 123361 * 0x1000_0000, 512)

  /**
   The expected size does not cover the last chunk's bitmap: on a disk of 123361 blocks of
   256 MiB the table has exactly the expected length, and a partially present last block
   cannot be read.
   */
  lemma BitmapSlotMissing(entries: seq<u64>)
    requires |entries| == 131072 && entries[131070] == 7
    ensures Valid(TIGHT) && Usable(TIGHT) && !SizeMismatch(TIGHT.blockSize, TIGHT.diskSize, 16, 131072 * 8)
    ensures ReadTarget(entries, TIGHT, 123360 * 0x1000_0000) == Err(SectorBitmapNotPresent(123360))
  {
    hide Div, Mod, Validate, ExpectedBytes, Meta.ChunkRatio;
    TightValid();
    TightExpected();
    var v := 123360 * 0x1000_0000;
    DivUnique(v, 0x1000_0000, 123360, 0);
    DivUnique(123360, 16, 7710, 0);
    assert PayloadIndex(123360, 16) == 131070;
  }

  lemma TightValid()
    ensures Valid(TIGHT) && TIGHT.ChunkRatio() == 16 && Usable(TIGHT)
  {
    hide CountOnes, Pow2, Div, Mod;
    PowerHasOneBit(28);
    PowersOfTwo();
    DivUnique(TIGHT.diskSize, 512, 123361 * 0x8_0000, 0);
    DivUnique(SECTORS_PER_CHUNK * 512, 0x1000_0000, 16, 0);
  }

  lemma TightExpected()
    ensures TIGHT.ChunkRatio() == 16 && Usable(TIGHT)
    ensures ExpectedBytes(TIGHT.blockSize, TIGHT.diskSize, 16) == 131072 * 8
  {
    hide Div, Mod, Validate, Meta.ChunkRatio;
    TightValid();
    DivUnique(TIGHT.diskSize, 0x1000_0000, 123361, 0);
    DivUnique(123361, 16, 7710, 1);
    DivUnique(131072 * 8, MIB, 1, 0);
  }
}
