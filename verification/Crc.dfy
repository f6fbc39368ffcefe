/**
 CRC-32C, the checksum of headers, region tables and log entries (the polynomial of
 section 12.1 of RFC 3720), and the damage it is guaranteed to detect.

 A 32-bit word is the sequence of its bits, least significant bit first.
 */
module Crc {
  import opened Bytes

  type word = w: seq<bool> | |w| == 32 witness Falses(32)

  function Pow2(k: nat): (p: nat)
    ensures p > 0
  {
    if k == 0 then 1 else 2 * Pow2(k - 1)
  }

  function Bits(n: nat, width: nat): (w: seq<bool>)
    ensures |w| == width
  {
    if width == 0 then [] else [n % 2 == 1] + Bits(n / 2, width - 1)
  }

  function Falses(n: nat): (w: seq<bool>)
    ensures |w| == n && forall i :: 0 <= i < n ==> !w[i]
  {
    seq(n, i => false)
  }

  function Trues(n: nat): (w: seq<bool>)
    ensures |w| == n && forall i :: 0 <= i < n ==> w[i]
  {
    seq(n, i => true)
  }

  function Value(bits: seq<bool>): nat {
    if |bits| == 0 then 0 else (if bits[0] then 1 else 0) + 2 * Value(bits[1..])
  }

  /** The reflected polynomial, 0x82F6_3B78: see `PolynomialValue`. */
  const POLY: word := [
    false, false, false, true, true, true, true, false,
    true, true, false, true, true, true, false, false,
    false, true, true, false, true, true, true, true,
    false, true, false, false, false, false, false, true]
  const ONES: word := Trues(32)

  function Xor(a: word, b: word): word {
    seq(32, i requires 0 <= i < 32 => a[i] != b[i])
  }

  function ShiftRight(s: word): word {
    s[1..] + [false]
  }

  function Shift(s: word): word {
    if s[0] then Xor(ShiftRight(s), POLY) else ShiftRight(s)
  }

  function Shifts(s: word, k: nat): word
    decreases k
  {
    if k == 0 then s else Shifts(Shift(s), k - 1)
  }

  function Widen(bits: seq<bool>): word
    requires |bits| <= 32
  {
    bits + Falses(32 - |bits|)
  }

  function Step(s: word, b: byte): word {
    var bits := Bits(b, 8);
    Shifts(Xor(s, Widen(bits)), |bits|)
  }

  function Fold(s: word, data: seq<byte>): word {
    if |data| == 0 then s else Step(Fold(s, data[..|data| - 1]), data[|data| - 1])
  }

  function Crc32c(data: seq<byte>): u32 {
    Checksum(Fold(ONES, data))
  }

  /** The final register, complemented and read as a number. */
  function Checksum(s: word): u32 {
    ValueBound(Xor(s, ONES));
    Value(Xor(s, ONES))
  }

  method ComputeCrc32c(data: seq<byte>) returns (r: u32)
    ensures r == Crc32c(data)
  {
    var crc := ONES;
    for i := 0 to |data|
      invariant crc == Fold(ONES, data[..i])
    {
      assert data[..i + 1][..i] == data[..i];
      crc := MixByte(crc, data[i]);
    }
    assert data[..|data|] == data;
    r := Checksum(crc);
  }

  method MixByte(s: word, b: byte) returns (crc: word)
    ensures crc == Step(s, b)
  {
    hide Bits, Xor, Widen;
    crc := Xor(s, Widen(Bits(b, 8)));
    for k := 0 to 8
      invariant Shifts(crc, 8 - k) == Step(s, b)
    {
      if crc[0] {
        crc := Xor(ShiftRight(crc), POLY);
      } else {
        crc := ShiftRight(crc);
      }
    }
  }

  lemma PolynomialValue()
    ensures Value(POLY) == 0x82F6_3B78
  {
    hide *;
    PolynomialFirst();
    PolynomialSecond();
    PolynomialHigh();
    BytesValue(POLY);
  }

  lemma PolynomialFirst()
    ensures Eight(POLY, 0) == 0x78
  {}

  lemma PolynomialSecond()
    ensures Eight(POLY, 8) == 0x3B
  {}

  lemma PolynomialHigh()
    ensures Eight(POLY, 16) == 0xF6 && Eight(POLY, 24) == 0x82
  {}

  function Weight(bit: bool, weight: nat): nat { if bit then weight else 0 }

  /** The byte that eight bits spell. */
  function Eight(w: seq<bool>, at: nat): nat
    requires at + 8 <= |w|
  {
    Weight(w[at], 1) + Weight(w[at + 1], 2) + Weight(w[at + 2], 4) + Weight(w[at + 3], 8)
    + Weight(w[at + 4], 16) + Weight(w[at + 5], 32) + Weight(w[at + 6], 64) + Weight(w[at + 7], 128)
  }

  lemma BytesValue(w: word)
    ensures Value(w) == Eight(w, 0) + 0x100 * Eight(w, 8) + 0x1_0000 * Eight(w, 16) + 0x100_0000 * Eight(w, 24)
  {
    hide Value, Eight;
    ByteValue(w, 0);
    ByteValue(w, 8);
    ByteValue(w, 16);
    ByteValue(w, 24);
    NoValue();
    assert w[0..] == w && w[32..] == [];
  }

  lemma NoValue()
    ensures Value([]) == 0
  {}

  lemma ByteValue(w: seq<bool>, at: nat)
    requires at + 8 <= |w|
    ensures Value(w[at..]) == Eight(w, at) + 0x100 * Value(w[at + 8..])
  {
    NibbleValue(w[at..]);
    NibbleValue(w[at + 4..]);
    hide Value;
    assert w[at..][4..] == w[at + 4..] && w[at + 4..][4..] == w[at + 8..];
  }

  lemma NibbleValue(w: seq<bool>)
    requires |w| >= 4
    ensures Value(w) == (if w[0] then 1 else 0) + (if w[1] then 2 else 0) + (if w[2] then 4 else 0)
                        + (if w[3] then 8 else 0) + 16 * Value(w[4..])
  {
    hide Value;
    LowestBit(w);
    LowestBit(w[1..]);
    LowestBit(w[2..]);
    LowestBit(w[3..]);
    assert w[1..][1..] == w[2..] && w[2..][1..] == w[3..] && w[3..][1..] == w[4..];
  }

  lemma LowestBit(w: seq<bool>)
    requires |w| >= 1
    ensures Value(w) == (if w[0] then 1 else 0) + 2 * Value(w[1..])
  {}

  lemma ThirtyTwo()
    ensures Pow2(31) == 0x8000_0000 && Pow2(32) == TWO32
  {
    assert Pow2(8) == 0x100;
    assert Pow2(16) == 0x1_0000;
    assert Pow2(24) == 0x100_0000;
  }

  lemma {:induction false} ValueBound(bits: seq<bool>)
    ensures Value(bits) < Pow2(|bits|)
    ensures |bits| == 32 ==> Value(bits) < TWO32
  {
    ThirtyTwo();
    if |bits| > 0 {
      ValueBound(bits[1..]);
    }
  }

  lemma SameParity(d: int, x: int, e: int, y: int)
    requires 0 <= d <= 1 && 0 <= e <= 1 && d + 2 * x == e + 2 * y
    ensures d == e && x == y
  {}

  lemma {:induction false} ValueInjective(a: seq<bool>, b: seq<bool>)
    requires |a| == |b| && Value(a) == Value(b)
    ensures a == b
  {
    if |a| > 0 {
      SameParity(if a[0] then 1 else 0, Value(a[1..]), if b[0] then 1 else 0, Value(b[1..]));
      ValueInjective(a[1..], b[1..]);
      assert a == [a[0]] + a[1..] && b == [b[0]] + b[1..];
    }
  }

  // ── Bit by bit ────────────────────────────────────────────────────────────

  /** The register after one more message bit. */
  function AbsorbBit(s: word, bit: bool): word {
    Shift(s[0 := s[0] != bit])
  }

  function Absorb(s: word, bits: seq<bool>): word
    decreases |bits|
  {
    if |bits| == 0 then s else Absorb(AbsorbBit(s, bits[0]), bits[1..])
  }

  /** Mixing a group of bits in at once and shifting absorbs them one by one. */
  lemma {:induction false} ShiftsAbsorb(s: word, bits: seq<bool>)
    requires |bits| <= 32
    decreases |bits|
    ensures Shifts(Xor(s, Widen(bits)), |bits|) == Absorb(s, bits)
  {
    var mixed := Xor(s, Widen(bits));
    if |bits| == 0 {
      assert mixed == s;
    } else {
      assert Shift(mixed) == Xor(AbsorbBit(s, bits[0]), Widen(bits[1..]));
      ShiftsAbsorb(AbsorbBit(s, bits[0]), bits[1..]);
    }
  }

  lemma {:induction false} AbsorbConcat(s: word, a: seq<bool>, b: seq<bool>)
    ensures Absorb(s, a + b) == Absorb(Absorb(s, a), b)
    decreases |a|
  {
    if |a| == 0 {
      assert a + b == b;
    } else {
      assert (a + b)[1..] == a[1..] + b;
      AbsorbConcat(AbsorbBit(s, a[0]), a[1..], b);
    }
  }

  function MessageBits(data: seq<byte>): seq<bool> {
    if |data| == 0 then [] else MessageBits(data[..|data| - 1]) + Bits(data[|data| - 1], 8)
  }

  lemma {:induction false} FoldAbsorbs(s: word, data: seq<byte>)
    ensures Fold(s, data) == Absorb(s, MessageBits(data))
    ensures |MessageBits(data)| == 8 * |data|
  {
    if |data| > 0 {
      var init, last := data[..|data| - 1], data[|data| - 1];
      FoldAbsorbs(s, init);
      ShiftsAbsorb(Fold(s, init), Bits(last, 8));
      AbsorbConcat(s, MessageBits(init), Bits(last, 8));
    }
  }

  // ── Injectivity ───────────────────────────────────────────────────────────

  predicate AgreeFrom(a: word, b: word, k: nat) {
    forall i :: k <= i < 32 ==> a[i] == b[i]
  }

  /** The top polynomial bit is set, so the bit shifted out can be read back. */
  lemma ShiftTop(s: word)
    ensures Shift(s)[31] == s[0]
    ensures forall i :: 1 <= i < 32 ==> s[i] == (Shift(s)[i - 1] != (s[0] && POLY[i - 1]))
  {
    hide Xor;
    var r := ShiftRight(s);
    assert r[31] == false && POLY[31];
    if s[0] {
      forall i | 0 <= i < 32
        ensures Shift(s)[i] == (r[i] != POLY[i])
      {
        XorAt(r, POLY, i);
      }
    }
  }

  lemma XorAt(a: word, b: word, i: nat)
    requires i < 32
    ensures Xor(a, b)[i] == (a[i] != b[i])
  {}

  /** Going back one step loses agreement on at most one low bit. */
  lemma AbsorbBitBack(a: word, b: word, x: bool, y: bool, k: nat)
    requires k < 32 && AgreeFrom(AbsorbBit(a, x), AbsorbBit(b, y), k)
    ensures AgreeFrom(a, b, k + 1) && (a[0] != x) == (b[0] != y)
  {
    var a', b' := a[0 := a[0] != x], b[0 := b[0] != y];
    ShiftTop(a');
    ShiftTop(b');
    forall i | k + 1 <= i < 32
      ensures a[i] == b[i]
    {
      assert a[i] == a'[i] && b[i] == b'[i];
    }
  }

  lemma {:induction false} AbsorbBack(a: word, b: word, x: seq<bool>, y: seq<bool>)
    requires |x| == |y| <= 32 && Absorb(a, x) == Absorb(b, y)
    ensures AgreeFrom(a, b, |x|)
    decreases |x|
  {
    if |x| > 0 {
      AbsorbBack(AbsorbBit(a, x[0]), AbsorbBit(b, y[0]), x[1..], y[1..]);
      AbsorbBitBack(a, b, x[0], y[0], |x| - 1);
    }
  }

  /** From one state, two different messages of at most 32 bits part ways. */
  lemma {:induction false} BurstDetected(s: word, x: seq<bool>, y: seq<bool>)
    requires |x| == |y| <= 32 && Absorb(s, x) == Absorb(s, y)
    ensures x == y
    decreases |x|
  {
    if |x| > 0 {
      AbsorbBack(AbsorbBit(s, x[0]), AbsorbBit(s, y[0]), x[1..], y[1..]);
      AbsorbBitBack(s, s, x[0], y[0], |x| - 1);
      BurstDetected(AbsorbBit(s, x[0]), x[1..], y[1..]);
      assert x == [x[0]] + x[1..] && y == [y[0]] + y[1..];
    }
  }

  /** One message byte, or any number of them, acts on the states as a bijection. */
  lemma {:induction false} AbsorbInjective(a: word, b: word, bits: seq<bool>)
    requires Absorb(a, bits) == Absorb(b, bits)
    ensures a == b
    decreases |bits|
  {
    if |bits| > 0 {
      AbsorbInjective(AbsorbBit(a, bits[0]), AbsorbBit(b, bits[0]), bits[1..]);
      AbsorbBitBack(a, b, bits[0], bits[0], 0);
    }
  }

  // ── Whole messages ────────────────────────────────────────────────────────

  lemma {:induction false} MessageBitsConcat(a: seq<byte>, b: seq<byte>)
    ensures MessageBits(a + b) == MessageBits(a) + MessageBits(b)
  {
    if |b| == 0 {
      assert a + b == a;
    } else {
      assert (a + b)[..|a + b| - 1] == a + b[..|b| - 1];
      MessageBitsConcat(a, b[..|b| - 1]);
    }
  }

  lemma {:induction false} BitsValue(n: nat, width: nat)
    requires n < Pow2(width)
    ensures Value(Bits(n, width)) == n
  {
    if width > 0 {
      BitsValue(n / 2, width - 1);
      assert Bits(n, width)[1..] == Bits(n / 2, width - 1);
    }
  }

  lemma ByteBitsInjective(a: byte, b: byte)
    requires Bits(a, 8) == Bits(b, 8)
    ensures a == b
  {
    assert Pow2(8) == 0x100;
    BitsValue(a, 8);
    BitsValue(b, 8);
  }

  lemma SplitSame(a: seq<bool>, x: seq<bool>, b: seq<bool>, y: seq<bool>)
    requires |a| == |b| && a + x == b + y
    ensures a == b && x == y
  {
    assert a == (a + x)[..|a|] && b == (b + y)[..|b|];
    assert x == (a + x)[|a|..] && y == (b + y)[|b|..];
  }

  lemma {:induction false} MessageBitsInjective(x: seq<byte>, y: seq<byte>)
    requires |x| == |y| && MessageBits(x) == MessageBits(y)
    ensures x == y
  {
    hide Fold, Absorb, Pow2, Bits;
    if |x| > 0 {
      var n := |x| - 1;
      var a, b := MessageBits(x[..n]), MessageBits(y[..n]);
      FoldAbsorbs(ONES, x[..n]);
      FoldAbsorbs(ONES, y[..n]);
      SplitSame(a, Bits(x[n], 8), b, Bits(y[n], 8));
      ByteBitsInjective(x[n], y[n]);
      MessageBitsInjective(x[..n], y[..n]);
      assert x == x[..n] + [x[n]] && y == y[..n] + [y[n]];
    }
  }

  /** Two messages that differ only within four consecutive bytes have different checksums. */
  lemma FourByteBurst(a: seq<byte>, x: seq<byte>, y: seq<byte>, b: seq<byte>)
    requires |x| == |y| <= 4 && x != y
    ensures Crc32c(a + x + b) != Crc32c(a + y + b)
  {
    var start := Absorb(ONES, MessageBits(a));
    var left, right := Absorb(start, MessageBits(x)), Absorb(start, MessageBits(y));
    FoldSplit(a, x, b);
    FoldSplit(a, y, b);
    if Crc32c(a + x + b) == Crc32c(a + y + b) {
      var p, q := Fold(ONES, a + x + b), Fold(ONES, a + y + b);
      ValueInjective(Xor(p, ONES), Xor(q, ONES));
      assert forall i :: 0 <= i < 32 ==> p[i] == (Xor(p, ONES)[i] != ONES[i]);
      assert p == q;
      AbsorbInjective(left, right, MessageBits(b));
      FoldAbsorbs(ONES, x);
      FoldAbsorbs(ONES, y);
      BurstDetected(start, MessageBits(x), MessageBits(y));
      MessageBitsInjective(x, y);
    }
  }

  lemma FoldSplit(a: seq<byte>, x: seq<byte>, b: seq<byte>)
    ensures Fold(ONES, a + x + b)
         == Absorb(Absorb(Absorb(ONES, MessageBits(a)), MessageBits(x)), MessageBits(b))
  {
    FoldAbsorbs(ONES, a + x + b);
    MessageBitsConcat(a + x, b);
    MessageBitsConcat(a, x);
    AbsorbConcat(ONES, MessageBits(a) + MessageBits(x), MessageBits(b));
    AbsorbConcat(ONES, MessageBits(a), MessageBits(x));
  }
}
