/**
 The checksum as the source computes it, on 32-bit machine words: the two descriptions agree on
 every message, and the numbers they give are the published ones.
 */
module CrcWords {
  import opened Bytes
  import opened Crc

  function ShiftWord(c: bv32): bv32 {
    if c & 1 != 0 then (c >> 1) ^ 0x82F6_3B78 else c >> 1
  }

  function ShiftWords(c: bv32, k: nat): bv32
    decreases k
  {
    if k == 0 then c else ShiftWords(ShiftWord(c), k - 1)
  }

  function Wide(b: byte): bv32 { b as bv32 }

  function Mix(a: bv32, b: bv32): bv32 { a ^ b }

  /** One byte of the loop. */
  function ByteWord(c: bv32, b: byte): bv32 { ShiftWords(Mix(c, Wide(b)), 8) }

  function FoldWord(c: bv32, data: seq<byte>): bv32 {
    if |data| == 0 then c else ByteWord(FoldWord(c, data[..|data| - 1]), data[|data| - 1])
  }

  function LowByte(c: bv32): nat { (c & 0xFF) as nat }

  function Right(c: bv32): bv32 { c >> 8 }

  /** The number a word spells, byte by byte. */
  function WordValue(c: bv32): nat {
    LowByte(c) + 0x100 * LowByte(Right(c)) + 0x1_0000 * LowByte(Right(Right(c)))
    + 0x100_0000 * LowByte(Right(Right(Right(c))))
  }

  // ── Words as bits ─────────────────────────────────────────────────────────

  predicate Low(c: bv32) { c & 1 != 0 }

  function Half(c: bv32): bv32 { c >> 1 }

  function WordBits(c: bv32, width: nat): (w: seq<bool>)
    ensures |w| == width
  {
    if width == 0 then [] else [Low(c)] + WordBits(Half(c), width - 1)
  }

  lemma LowBit(c: bv32, width: nat)
    requires width > 0
    ensures WordBits(c, width)[0] == Low(c)
  {}

  lemma NextBit(c: bv32, width: nat, i: nat)
    requires 0 < i < width
    ensures WordBits(c, width)[i] == WordBits(Half(c), width - 1)[i - 1]
  {}

  lemma XorHalves(a: bv32, b: bv32)
    ensures Half(Mix(a, b)) == Mix(Half(a), Half(b))
    ensures Low(Mix(a, b)) == (Low(a) != Low(b))
  {}

  lemma {:induction false} XorBit(a: bv32, b: bv32, width: nat, i: nat)
    requires i < width
    ensures WordBits(Mix(a, b), width)[i] == (WordBits(a, width)[i] != WordBits(b, width)[i])
    decreases i
  {
    hide *;
    XorHalves(a, b);
    if i == 0 {
      LowBit(a, width);
      LowBit(b, width);
      LowBit(Mix(a, b), width);
    } else {
      NextBit(a, width, i);
      NextBit(b, width, i);
      NextBit(Mix(a, b), width, i);
      XorBit(Half(a), Half(b), width - 1, i - 1);
    }
  }

  lemma XorWord(a: bv32, b: bv32)
    ensures Xor(WordBits(a, 32), WordBits(b, 32)) == WordBits(Mix(a, b), 32)
  {
    hide WordBits, Low, Half, Mix;
    forall i | 0 <= i < 32
      ensures WordBits(Mix(a, b), 32)[i] == (WordBits(a, 32)[i] != WordBits(b, 32)[i])
    {
      XorBit(a, b, 32, i);
    }
  }

  lemma {:induction false} Prefix(c: bv32, n: nat, width: nat, i: nat)
    requires i < n <= width
    ensures WordBits(c, n)[i] == WordBits(c, width)[i]
    decreases i
  {
    hide *;
    if i == 0 {
      LowBit(c, n);
      LowBit(c, width);
    } else {
      NextBit(c, n, i);
      NextBit(c, width, i);
      Prefix(Half(c), n - 1, width - 1, i - 1);
    }
  }

  lemma ByteHalves(b: byte)
    ensures (b as bv32) >> 1 == (b / 2) as bv32
    ensures ((b as bv32) & 1 != 0) == (b % 2 == 1)
  {}

  lemma WideHalves(b: byte)
    ensures Half(Wide(b)) == Wide(b / 2) && Low(Wide(b)) == (b % 2 == 1)
  {
    ByteHalves(b);
  }

  lemma {:induction false} ByteBits(b: byte, width: nat)
    ensures Bits(b, width) == WordBits(Wide(b), width)
  {
    hide Half, Low, Wide;
    if width > 0 {
      WideHalves(b);
      ByteBits(b / 2, width - 1);
    }
  }

  lemma WidenWord(b: byte)
    ensures Widen(Bits(b, 8)) == WordBits(Wide(b), 32)
  {
    ByteBits(b, 8);
    hide Bits, WordBits, Wide;
    forall i | 0 <= i < 32
      ensures Widen(Bits(b, 8))[i] == WordBits(Wide(b), 32)[i]
    {
      if i < 8 {
        Prefix(Wide(b), 8, 32, i);
      } else {
        HighBit(b, 32, i);
      }
    }
  }

  /** A byte has no bit past its eighth. */
  lemma HighBit(b: byte, width: nat, i: nat)
    requires 8 <= i < width
    ensures !WordBits(Wide(b), width)[i]
  {
    ByteGone(b);
    hide *;
    BitsOn(Wide(b), width, 8, i);
    NoBits(width - 8, i - 8);
  }

  lemma {:induction false} NoBits(width: nat, i: nat)
    requires i < width
    ensures !WordBits(0, width)[i]
    decreases i
  {
    if i > 0 {
      assert Half(0) == 0;
      NoBits(width - 1, i - 1);
    }
  }

  function Halves(c: bv32, k: nat): bv32
    decreases k
  {
    if k == 0 then c else Halves(Half(c), k - 1)
  }

  lemma {:induction false} BitsOn(c: bv32, width: nat, k: nat, i: nat)
    requires k <= i < width
    ensures WordBits(c, width)[i] == WordBits(Halves(c, k), width - k)[i - k]
    decreases k
  {
    hide WordBits, Half;
    if k > 0 {
      NextBit(c, width, i);
      BitsOn(Half(c), width - 1, k - 1, i - 1);
    }
  }

  lemma EightHalves(c: bv32)
    ensures Halves(c, 8) == Right(c)
  {}

  lemma ByteGone(b: byte)
    ensures Halves(Wide(b), 8) == 0
  {
    ByteTop(b);
    assert Right(Wide(b)) == 0;
    hide *;
    EightHalves(Wide(b));
  }

  lemma ByteTop(b: byte)
    ensures (b as bv32) >> 8 == 0
  {}

  lemma BitAt(c: bv32, width: nat, i: nat)
    requires i < width
    ensures WordBits(c, width)[i] == Low(Halves(c, i))
  {
    hide *;
    BitsOn(c, width, i, i);
    LowBit(Halves(c, i), width - i);
  }

  lemma {:induction false} HalvesSum(c: bv32, j: nat, k: nat)
    ensures Halves(c, j + k) == Halves(Halves(c, j), k)
    decreases j
  {
    hide Half;
    if j > 0 {
      HalvesSum(Half(c), j - 1, k);
    }
  }

  lemma ByteHalvings(c: bv32)
    ensures Halves(c, 0) == c && Halves(c, 8) == Right(c)
    ensures Halves(c, 16) == Right(Right(c)) && Halves(c, 24) == Right(Right(Right(c)))
    ensures Halves(c, 32) == 0
  {
    assert Halves(c, 0) == c;
    AllGone(c);
    hide *;
    EightHalves(c);
    EightHalves(Right(c));
    EightHalves(Right(Right(c)));
    EightHalves(Right(Right(Right(c))));
    HalvesSum(c, 8, 8);
    HalvesSum(c, 16, 8);
    HalvesSum(c, 24, 8);
  }

  lemma AllGone(c: bv32)
    ensures Right(Right(Right(Right(c)))) == 0
  {}

  // ── The register ──────────────────────────────────────────────────────────

  lemma HalfTop(c: bv32)
    ensures !WordBits(Half(c), 32)[31]
  {
    assert Halves(c, 32) == Halves(Half(c), 31);
    assert !Low(0);
    hide *;
    BitAt(Half(c), 32, 31);
    ByteHalvings(c);
  }

  lemma HalfWord(c: bv32)
    ensures ShiftRight(WordBits(c, 32)) == WordBits(Half(c), 32)
  {
    HalfTop(c);
    hide WordBits, Half;
    forall i | 0 <= i < 31
      ensures WordBits(c, 32)[i + 1] == WordBits(Half(c), 32)[i]
    {
      NextBit(c, 32, i + 1);
      Prefix(Half(c), 31, 32, i);
    }
  }

  // ── The number ────────────────────────────────────────────────────────────

  lemma LowByteBits(c: bv32)
    ensures (c & 0xFF) as nat
         == (if c & 1 != 0 then 1 else 0) + (if (c >> 1) & 1 != 0 then 2 else 0)
            + (if (c >> 2) & 1 != 0 then 4 else 0) + (if (c >> 3) & 1 != 0 then 8 else 0)
            + (if (c >> 4) & 1 != 0 then 16 else 0) + (if (c >> 5) & 1 != 0 then 32 else 0)
            + (if (c >> 6) & 1 != 0 then 64 else 0) + (if (c >> 7) & 1 != 0 then 128 else 0)
  {}

  lemma LowByteHalvings(c: bv32)
    ensures LowByte(c)
         == Weight(Low(c), 1) + Weight(Low(Half(c)), 2) + Weight(Low(Half(Half(c))), 4)
            + Weight(Low(Half(Half(Half(c)))), 8) + Weight(Low(Half(Half(Half(Half(c))))), 16)
            + Weight(Low(Half(Half(Half(Half(Half(c)))))), 32)
            + Weight(Low(Half(Half(Half(Half(Half(Half(c))))))), 64)
            + Weight(Low(Half(Half(Half(Half(Half(Half(Half(c)))))))), 128)
  {
    LowByteBits(c);
  }

  lemma LowByteHalves(c: bv32)
    ensures LowByte(c)
         == Weight(Low(Halves(c, 0)), 1) + Weight(Low(Halves(c, 1)), 2)
            + Weight(Low(Halves(c, 2)), 4) + Weight(Low(Halves(c, 3)), 8)
            + Weight(Low(Halves(c, 4)), 16) + Weight(Low(Halves(c, 5)), 32)
            + Weight(Low(Halves(c, 6)), 64) + Weight(Low(Halves(c, 7)), 128)
  {
    hide Low, Half, LowByte, Weight;
    LowByteHalvings(c);
  }

  /** Each group of eight bits spells a byte of the word. */
  lemma EightOfWord(c: bv32, at: nat)
    requires at <= 24
    ensures Eight(WordBits(c, 32), at) == LowByte(Halves(c, at))
  {
    hide Halves, WordBits, Low, LowByte, Half, Value, Weight;
    LowByteHalves(Halves(c, at));
    BitOfByte(c, at, 0);
    BitOfByte(c, at, 1);
    BitOfByte(c, at, 2);
    BitOfByte(c, at, 3);
    BitOfByte(c, at, 4);
    BitOfByte(c, at, 5);
    BitOfByte(c, at, 6);
    BitOfByte(c, at, 7);
  }

  lemma BitOfByte(c: bv32, at: nat, j: nat)
    requires at + j < 32
    ensures WordBits(c, 32)[at + j] == Low(Halves(Halves(c, at), j))
  {
    hide *;
    BitAt(c, 32, at + j);
    HalvesSum(c, at, j);
  }

  lemma ValueOfWord(c: bv32)
    ensures Value(WordBits(c, 32)) == WordValue(c)
  {
    hide Value, WordBits, LowByte, Right, Halves, Eight;
    ByteHalvings(c);
    BytesValue(WordBits(c, 32));
    EightOfWord(c, 0);
    EightOfWord(c, 8);
    EightOfWord(c, 16);
    EightOfWord(c, 24);
  }

  // ── The two descriptions ──────────────────────────────────────────────────

  lemma PolynomialWord()
    ensures WordBits(0x82F6_3B78, 32) == POLY
  {
    assert WordValue(0x82F6_3B78) == 0x82F6_3B78;
    hide WordValue, Value, WordBits, POLY;
    ValueOfWord(0x82F6_3B78);
    PolynomialValue();
    ValueInjective(WordBits(0x82F6_3B78, 32), POLY);
  }

  lemma OnesWord()
    ensures WordBits(0xFFFF_FFFF, 32) == ONES
  {
    assert WordValue(0xFFFF_FFFF) == 0xFFFF_FFFF;
    hide WordValue, Value, WordBits;
    ValueOfWord(0xFFFF_FFFF);
    BytesValue(ONES);
    ValueInjective(WordBits(0xFFFF_FFFF, 32), ONES);
  }

  lemma ShiftIsWord(c: bv32)
    ensures Shift(WordBits(c, 32)) == WordBits(ShiftWord(c), 32)
  {
    assert ShiftWord(c) == if Low(c) then Mix(Half(c), 0x82F6_3B78) else Half(c);
    hide WordBits, Low, Half, Mix, ShiftWord, POLY, Xor, ShiftRight;
    LowBit(c, 32);
    HalfWord(c);
    PolynomialWord();
    XorWord(Half(c), 0x82F6_3B78);
  }

  lemma {:induction false} ShiftsAreWords(c: bv32, k: nat)
    ensures Shifts(WordBits(c, 32), k) == WordBits(ShiftWords(c, k), 32)
    decreases k
  {
    hide WordBits, Shift, ShiftWord;
    if k > 0 {
      ShiftIsWord(c);
      ShiftsAreWords(ShiftWord(c), k - 1);
    }
  }

  lemma ByteIsWord(c: bv32, b: byte)
    ensures Step(WordBits(c, 32), b) == WordBits(ByteWord(c, b), 32)
  {
    hide WordBits, Mix, Wide, Bits, Shifts, ShiftWords, Xor, Widen;
    WidenWord(b);
    XorWord(c, Wide(b));
    ShiftsAreWords(Mix(c, Wide(b)), 8);
  }

  lemma {:induction false} FoldIsWord(c: bv32, data: seq<byte>)
    ensures Fold(WordBits(c, 32), data) == WordBits(FoldWord(c, data), 32)
  {
    hide WordBits, Step, ByteWord;
    if |data| > 0 {
      var init, last := data[..|data| - 1], data[|data| - 1];
      FoldIsWord(c, init);
      ByteIsWord(FoldWord(c, init), last);
    }
  }

  /** The checksum of every message is the number of the source's register, complemented. */
  lemma ChecksumWord(data: seq<byte>)
    ensures Crc32c(data) == WordValue(FoldWord(0xFFFF_FFFF, data) ^ 0xFFFF_FFFF)
  {
    var c := FoldWord(0xFFFF_FFFF, data);
    assert Mix(c, 0xFFFF_FFFF) == c ^ 0xFFFF_FFFF;
    hide WordBits, WordValue, Fold, FoldWord, Xor, Value, Mix;
    OnesWord();
    FoldIsWord(0xFFFF_FFFF, data);
    XorWord(c, 0xFFFF_FFFF);
    ValueOfWord(Mix(c, 0xFFFF_FFFF));
  }

  // ── Published values ──────────────────────────────────────────────────────

  lemma Extend(data: seq<byte>, b: byte, whole: seq<byte>)
    requires whole == data + [b]
    ensures FoldWord(0xFFFF_FFFF, whole) == ByteWord(FoldWord(0xFFFF_FFFF, data), b)
  {
    hide ByteWord;
    assert whole[..|data|] == data;
  }

  lemma Digits123()
    ensures ByteWord(0xFFFF_FFFF, 0x31) == 0x6F0A_661C
    ensures ByteWord(0x6F0A_661C, 0x32) == 0x8CAA_3B9F
    ensures ByteWord(0x8CAA_3B9F, 0x33) == 0xEF84_D04D
  {}

  lemma Digits456()
    ensures ByteWord(0xEF84_D04D, 0x34) == 0x09C5_0B11
    ensures ByteWord(0x09C5_0B11, 0x35) == 0xE72E_DCCA
    ensures ByteWord(0xE72E_DCCA, 0x36) == 0xBECA_8E79
  {}

  lemma Digits789()
    ensures ByteWord(0xBECA_8E79, 0x37) == 0xEDBD_6815
    ensures ByteWord(0xEDBD_6815, 0x38) == 0x9F78_7F65
    ensures ByteWord(0x9F78_7F65, 0x39) == 0x1CF9_6D7C
  {}

  lemma NineDigits()
    ensures FoldWord(0xFFFF_FFFF, [0x31, 0x32, 0x33, 0x34, 0x35, 0x36, 0x37, 0x38, 0x39]) == 0x1CF9_6D7C
  {
    NoDigits();
    hide *;
    Digits123();
    Digits456();
    Digits789();
    Extend([], 0x31, [0x31]);
    Extend([0x31], 0x32, [0x31, 0x32]);
    Extend([0x31, 0x32], 0x33, [0x31, 0x32, 0x33]);
    Extend([0x31, 0x32, 0x33], 0x34, [0x31, 0x32, 0x33, 0x34]);
    Extend([0x31, 0x32, 0x33, 0x34], 0x35, [0x31, 0x32, 0x33, 0x34, 0x35]);
    Extend([0x31, 0x32, 0x33, 0x34, 0x35], 0x36, [0x31, 0x32, 0x33, 0x34, 0x35, 0x36]);
    Extend([0x31, 0x32, 0x33, 0x34, 0x35, 0x36], 0x37, [0x31, 0x32, 0x33, 0x34, 0x35, 0x36, 0x37]);
    Extend([0x31, 0x32, 0x33, 0x34, 0x35, 0x36, 0x37], 0x38, [0x31, 0x32, 0x33, 0x34, 0x35, 0x36, 0x37, 0x38]);
    Extend([0x31, 0x32, 0x33, 0x34, 0x35, 0x36, 0x37, 0x38], 0x39,
           [0x31, 0x32, 0x33, 0x34, 0x35, 0x36, 0x37, 0x38, 0x39]);
  }

  lemma NoDigits()
    ensures FoldWord(0xFFFF_FFFF, []) == 0xFFFF_FFFF
  {}

  /** The empty message and the nine digits "123456789" have their published checksums. */
  lemma CheckValues()
    ensures Crc32c([]) == 0
    ensures Crc32c([0x31, 0x32, 0x33, 0x34, 0x35, 0x36, 0x37, 0x38, 0x39]) == 0xE306_9283
  {
    assert WordValue(0xFFFF_FFFF ^ 0xFFFF_FFFF) == 0;
    assert WordValue(0x1CF9_6D7C ^ 0xFFFF_FFFF) == 0xE306_9283;
    hide *;
    ChecksumWord([]);
    ChecksumWord([0x31, 0x32, 0x33, 0x34, 0x35, 0x36, 0x37, 0x38, 0x39]);
    NoDigits();
    NineDigits();
  }

  // ── The residue ───────────────────────────────────────────────────────────

  lemma LastByteBits(data: seq<byte>)
    requires |data| > 0
    ensures MessageBits(data) == MessageBits(data[..|data| - 1]) + Bits(data[|data| - 1], 8)
  {
    hide Bits;
  }

  lemma {:induction false} MessageByte(data: seq<byte>, j: nat)
    requires j < |data|
    ensures |MessageBits(data)| == 8 * |data| && MessageBits(data)[8 * j..8 * j + 8] == Bits(data[j], 8)
  {
    hide *;
    var init, last := data[..|data| - 1], data[|data| - 1];
    var before := MessageBits(init);
    LastByteBits(data);
    FoldAbsorbs(ONES, init);
    if j < |init| {
      MessageByte(init, j);
      TakeBefore(before, Bits(last, 8), 8 * j);
    } else {
      assert (before + Bits(last, 8))[|before|..|before| + 8] == Bits(last, 8);
    }
  }

  lemma TakeBefore(a: seq<bool>, b: seq<bool>, i: nat)
    requires i + 8 <= |a|
    ensures (a + b)[i..i + 8] == a[i..i + 8]
  {
    assert |(a + b)[i..i + 8]| == 8;
  }

  lemma EightIsByte(w: seq<bool>, at: nat, b: byte)
    requires at + 8 <= |w| && w[at..at + 8] == Bits(b, 8)
    ensures Eight(w, at) == b
  {
    var v := Bits(b, 8);
    assert Pow2(8) == 0x100;
    BitsValue(b, 8);
    assert Eight(v, 0) == b by {
      hide *;
      ByteValue(v, 0);
      NoValue();
      assert v[0..] == v && v[8..] == [];
    }
    hide Bits, Weight, Pow2;
    assert v[0] == w[at] && v[1] == w[at + 1] && v[2] == w[at + 2] && v[3] == w[at + 3];
    assert v[4] == w[at + 4] && v[5] == w[at + 5] && v[6] == w[at + 6] && v[7] == w[at + 7];
  }

  lemma FourBytesSpell(r: seq<byte>)
    requires |r| == 4
    ensures LeU32(r, 0) == (r[0] as int) + 0x100 * (r[1] as int) + 0x1_0000 * (r[2] as int) + 0x100_0000 * (r[3] as int)
  {}

  lemma MessageEight(r: seq<byte>, j: nat, at: nat)
    requires j < |r| && at == 8 * j
    ensures at + 8 <= |MessageBits(r)| == 8 * |r| && Eight(MessageBits(r), at) == r[j]
  {
    hide *;
    MessageByte(r, j);
    EightIsByte(MessageBits(r), at, r[j]);
  }

  lemma FourBytesValue(r: seq<byte>)
    requires |r| == 4
    ensures |MessageBits(r)| == 32 && Value(MessageBits(r)) == LeU32(r, 0)
  {
    hide *;
    MessageEight(r, 0, 0);
    MessageEight(r, 1, 8);
    MessageEight(r, 2, 16);
    MessageEight(r, 3, 24);
    BytesValue(MessageBits(r));
    FourBytesSpell(r);
  }

  /** A word's four little-endian bytes give back its bits. */
  lemma StoredBits(c: word)
    ensures Value(c) < TWO32 && MessageBits(ToLe32(Value(c))) == c
  {
    ValueBound(c);
    hide LeU32, ToLe32, MessageBits, Value, Pow2;
    FourBytesValue(ToLe32(Value(c)));
    ValueInjective(MessageBits(ToLe32(Value(c))), c);
  }

  lemma {:induction false} ShiftWordsSum(c: bv32, j: nat, k: nat)
    ensures ShiftWords(c, j + k) == ShiftWords(ShiftWords(c, j), k)
    decreases j
  {
    hide ShiftWord;
    if j > 0 {
      ShiftWordsSum(ShiftWord(c), j - 1, k);
    }
  }

  lemma ResidueBytes()
    ensures ShiftWords(0xFFFF_FFFF, 8) == 0xAD82_ACAE && ShiftWords(0xAD82_ACAE, 8) == 0x0E9E_882D
    ensures ShiftWords(0x0E9E_882D, 8) == 0x9F9B_5C85 && ShiftWords(0x9F9B_5C85, 8) == 0xB798_B438
  {}

  lemma ResidueRegister()
    ensures ShiftWords(0xFFFF_FFFF, 32) == 0xB798_B438
  {
    hide *;
    ResidueBytes();
    ShiftWordsSum(0xFFFF_FFFF, 8, 8);
    ShiftWordsSum(0xFFFF_FFFF, 16, 8);
    ShiftWordsSum(0xFFFF_FFFF, 24, 8);
  }

  lemma XorBack(s: word)
    ensures Xor(s, Xor(s, ONES)) == ONES
  {
    hide POLY;
  }

  /** A register fed its own complement ends in one fixed state. */
  lemma SelfComplement(s: word)
    ensures Absorb(s, Xor(s, ONES)) == WordBits(0xB798_B438, 32)
  {
    var c: word := Xor(s, ONES);
    assert Widen(c) == c;
    XorBack(s);
    hide *;
    ShiftsAbsorb(s, c);
    OnesWord();
    ShiftsAreWords(0xFFFF_FFFF, 32);
    ResidueRegister();
  }

  /** A message followed by its stored checksum always has one and the same checksum. */
  lemma Residue(m: seq<byte>)
    ensures Crc32c(m + ToLe32(Crc32c(m))) == 0x4867_4BC7
  {
    var s := Fold(ONES, m);
    var c := Xor(s, ONES);
    assert Crc32c(m) == Value(c);
    assert Crc32c(m + ToLe32(Crc32c(m))) == Value(Xor(Fold(ONES, m + ToLe32(Crc32c(m))), ONES));
    assert Mix(0xB798_B438, 0xFFFF_FFFF) == 0x4867_4BC7 && WordValue(0x4867_4BC7) == 0x4867_4BC7;
    hide *;
    StoredBits(c);
    FoldAbsorbs(ONES, m);
    FoldAbsorbs(ONES, m + ToLe32(Crc32c(m)));
    MessageBitsConcat(m, ToLe32(Crc32c(m)));
    AbsorbConcat(ONES, MessageBits(m), c);
    SelfComplement(s);
    OnesWord();
    XorWord(0xB798_B438, 0xFFFF_FFFF);
    ValueOfWord(0x4867_4BC7);
  }
}
