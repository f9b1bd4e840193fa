/** One byte of the bitset: the mask tables, the population-count table, and what the masked
    byte operations do to each single bit. */
module ByteBits {

  // ---- one byte ----------------------------------------------------------------------------

  const INDEX_MASK: seq<bv8> := [1, 2, 4, 8, 16, 32, 64, 128]

  /** `CHAR_MASK[f][t]` selects bits f to t of a byte. */
  const CHAR_MASK: seq<seq<bv8>> := [
    [1, 3, 7, 15, 31, 63, 127, 255],
    [0, 2, 6, 14, 30, 62, 126, 254],
    [0, 0, 4, 12, 28, 60, 124, 252],
    [0, 0, 0, 8, 24, 56, 120, 248],
    [0, 0, 0, 0, 16, 48, 112, 240],
    [0, 0, 0, 0, 0, 32, 96, 224],
    [0, 0, 0, 0, 0, 0, 64, 192],
    [0, 0, 0, 0, 0, 0, 0, 128]
  ]

  predicate BitOf(b: bv8, i: nat)
    requires i < 8
  {
    if i < 4 then (if i < 2 then (if i == 0 then b & 1 != 0 else b & 2 != 0)
                  else (if i == 2 then b & 4 != 0 else b & 8 != 0))
             else (if i < 6 then (if i == 4 then b & 16 != 0 else b & 32 != 0)
                  else (if i == 6 then b & 64 != 0 else b & 128 != 0))
  }

  /** The mask table holds exactly the range it is indexed by. */
  lemma CharMaskBits(f: nat, t: nat, i: nat)
    requires f < 8 && t < 8 && i < 8
    ensures BitOf(CHAR_MASK[f][t], i) <==> f <= i <= t
  {
    if f < 4 {
      if t < 4 { } else { }
    } else {
      if t < 4 { } else { }
    }
  }

  lemma TestMask(b: bv8, i: nat)
    requires i < 8
    ensures b & INDEX_MASK[i] != 0 <==> BitOf(b, i)
  {
  }

  lemma OrBit(a: bv8, b: bv8, i: nat)
    requires i < 8
    ensures BitOf(a | b, i) <==> BitOf(a, i) || BitOf(b, i)
  {
  }

  lemma AndNotBit(a: bv8, b: bv8, i: nat)
    requires i < 8
    ensures BitOf(a & !b, i) <==> BitOf(a, i) && !BitOf(b, i)
  {
  }

  lemma AndBit(a: bv8, b: bv8, i: nat)
    requires i < 8
    ensures BitOf(a & b, i) <==> BitOf(a, i) && BitOf(b, i)
  {
  }

  lemma ConstantBytes(i: nat)
    requires i < 8
    ensures BitOf(255, i) && !BitOf(0, i)
  {
  }

  const POPCOUNT_LOOKUP: seq<seq<nat>> := [
    [0, 1, 1, 2, 1, 2, 2, 3, 1, 2, 2, 3, 2, 3, 3, 4],
    [1, 2, 2, 3, 2, 3, 3, 4, 2, 3, 3, 4, 3, 4, 4, 5],
    [1, 2, 2, 3, 2, 3, 3, 4, 2, 3, 3, 4, 3, 4, 4, 5],
    [2, 3, 3, 4, 3, 4, 4, 5, 3, 4, 4, 5, 4, 5, 5, 6],
    [1, 2, 2, 3, 2, 3, 3, 4, 2, 3, 3, 4, 3, 4, 4, 5],
    [2, 3, 3, 4, 3, 4, 4, 5, 3, 4, 4, 5, 4, 5, 5, 6],
    [2, 3, 3, 4, 3, 4, 4, 5, 3, 4, 4, 5, 4, 5, 5, 6],
    [3, 4, 4, 5, 4, 5, 5, 6, 4, 5, 5, 6, 5, 6, 6, 7],
    [1, 2, 2, 3, 2, 3, 3, 4, 2, 3, 3, 4, 3, 4, 4, 5],
    [2, 3, 3, 4, 3, 4, 4, 5, 3, 4, 4, 5, 4, 5, 5, 6],
    [2, 3, 3, 4, 3, 4, 4, 5, 3, 4, 4, 5, 4, 5, 5, 6],
    [3, 4, 4, 5, 4, 5, 5, 6, 4, 5, 5, 6, 5, 6, 6, 7],
    [2, 3, 3, 4, 3, 4, 4, 5, 3, 4, 4, 5, 4, 5, 5, 6],
    [3, 4, 4, 5, 4, 5, 5, 6, 4, 5, 5, 6, 5, 6, 6, 7],
    [3, 4, 4, 5, 4, 5, 5, 6, 4, 5, 5, 6, 5, 6, 6, 7],
    [4, 5, 5, 6, 5, 6, 6, 7, 5, 6, 6, 7, 6, 7, 7, 8]
  ]

  function Ones(b: bool): nat { if b then 1 else 0 }

  /** Number of set bits among the lowest `n` bits of a byte. */
  function BitSum(b: bv8, n: nat): nat
    requires n <= 8
  {
    if n == 0 then 0 else BitSum(b, n - 1) + Ones(BitOf(b, n - 1))
  }

  function OnesOf(b0: bool, b1: bool, b2: bool, b3: bool, b4: bool, b5: bool, b6: bool, b7: bool): nat
  {
    Ones(b0) + Ones(b1) + Ones(b2) + Ones(b3) + Ones(b4) + Ones(b5) + Ones(b6) + Ones(b7)
  }

  lemma BitSumUnfolded(b: bv8)
    ensures BitSum(b, 8) == OnesOf(BitOf(b, 0), BitOf(b, 1), BitOf(b, 2), BitOf(b, 3),
                                   BitOf(b, 4), BitOf(b, 5), BitOf(b, 6), BitOf(b, 7))
  {
    assert BitSum(b, 1) == Ones(BitOf(b, 0));
    assert BitSum(b, 2) == BitSum(b, 1) + Ones(BitOf(b, 1));
    assert BitSum(b, 3) == BitSum(b, 2) + Ones(BitOf(b, 2));
    assert BitSum(b, 4) == BitSum(b, 3) + Ones(BitOf(b, 3));
    assert BitSum(b, 5) == BitSum(b, 4) + Ones(BitOf(b, 4));
    assert BitSum(b, 6) == BitSum(b, 5) + Ones(BitOf(b, 5));
    assert BitSum(b, 7) == BitSum(b, 6) + Ones(BitOf(b, 6));
  }

  function Nibble(b0: bool, b1: bool, b2: bool, b3: bool): nat
  {
    Ones(b0) + 2 * Ones(b1) + 4 * Ones(b2) + 8 * Ones(b3)
  }

  lemma ByteValue(b: bv8)
    ensures b as int == 16 * Nibble(BitOf(b, 4), BitOf(b, 5), BitOf(b, 6), BitOf(b, 7))
                           + Nibble(BitOf(b, 0), BitOf(b, 1), BitOf(b, 2), BitOf(b, 3))
  {
  }

  lemma LookupRow(h: nat, b0: bool, b1: bool, b2: bool, b3: bool)
    requires h < 16
    ensures |POPCOUNT_LOOKUP[h]| == 16
    ensures POPCOUNT_LOOKUP[h][Nibble(b0, b1, b2, b3)] == POPCOUNT_LOOKUP[h][0] + Ones(b0) + Ones(b1) + Ones(b2) + Ones(b3)
  {
    if h < 8 { if h < 4 { } else { } } else { if h < 12 { } else { } }
  }

  lemma LookupColumn(b4: bool, b5: bool, b6: bool, b7: bool)
    ensures |POPCOUNT_LOOKUP[Nibble(b4, b5, b6, b7)]| == 16
    ensures POPCOUNT_LOOKUP[Nibble(b4, b5, b6, b7)][0] == Ones(b4) + Ones(b5) + Ones(b6) + Ones(b7)
  {
  }

  lemma SplitNibbles(v: nat, h: nat, l: nat)
    requires v == 16 * h + l && l < 16
    ensures v / 16 == h && v % 16 == l
  {
  }

  lemma LookupBits(v: nat, b0: bool, b1: bool, b2: bool, b3: bool, b4: bool, b5: bool, b6: bool, b7: bool)
    requires v == 16 * Nibble(b4, b5, b6, b7) + Nibble(b0, b1, b2, b3)
    ensures v < 256 && |POPCOUNT_LOOKUP[v / 16]| == 16
    ensures POPCOUNT_LOOKUP[v / 16][v % 16] == OnesOf(b0, b1, b2, b3, b4, b5, b6, b7)
  {
    SplitNibbles(v, Nibble(b4, b5, b6, b7), Nibble(b0, b1, b2, b3));
    LookupColumn(b4, b5, b6, b7);
    LookupRow(v / 16, b0, b1, b2, b3);
  }

  /** The table look-up; the ghost arguments are the bits of the index. */
  method LookupPopcount(v: nat, ghost b0: bool, ghost b1: bool, ghost b2: bool, ghost b3: bool,
                        ghost b4: bool, ghost b5: bool, ghost b6: bool, ghost b7: bool) returns (r: nat)
    requires v == 16 * Nibble(b4, b5, b6, b7) + Nibble(b0, b1, b2, b3)
    ensures r == OnesOf(b0, b1, b2, b3, b4, b5, b6, b7)
  {
    LookupBits(v, b0, b1, b2, b3, b4, b5, b6, b7);
    r := POPCOUNT_LOOKUP[v / 16][v % 16];
  }

  /** The table counts the set bits of every byte. */
  method PopcountByte(b: bv8) returns (r: nat)
    ensures r == BitSum(b, 8)
  {
    ByteValue(b);
    r := LookupPopcount(b as int, BitOf(b, 0), BitOf(b, 1), BitOf(b, 2), BitOf(b, 3),
                        BitOf(b, 4), BitOf(b, 5), BitOf(b, 6), BitOf(b, 7));
    BitSumUnfolded(b);
  }

  // ---- masked operations on a byte ---------------------------------------------------------

  function SetBits(b: bv8, f: nat, t: nat): bv8
    requires f < 8 && t < 8
  {
    b | CHAR_MASK[f][t]
  }

  function ClearBits(b: bv8, f: nat, t: nat): bv8
    requires f < 8 && t < 8
  {
    b & !CHAR_MASK[f][t]
  }

  lemma SetBitsOfByte(b: bv8, f: nat, t: nat, i: nat)
    requires f < 8 && t < 8 && i < 8
    ensures BitOf(SetBits(b, f, t), i) <==> BitOf(b, i) || f <= i <= t
  {
    CharMaskBits(f, t, i);
    OrBit(b, CHAR_MASK[f][t], i);
  }

  lemma ClearBitsOfByte(b: bv8, f: nat, t: nat, i: nat)
    requires f < 8 && t < 8 && i < 8
    ensures BitOf(ClearBits(b, f, t), i) <==> BitOf(b, i) && !(f <= i <= t)
  {
    CharMaskBits(f, t, i);
    AndNotBit(b, CHAR_MASK[f][t], i);
  }

  function Masked(b: bv8, f: nat, t: nat): bv8
    requires f < 8 && t < 8
  {
    b & CHAR_MASK[f][t]
  }

  lemma MaskedBit(b: bv8, f: nat, t: nat, i: nat)
    requires f < 8 && t < 8 && i < 8
    ensures BitOf(Masked(b, f, t), i) <==> BitOf(b, i) && f <= i <= t
    ensures Masked(b, 0, 7) == b
  {
    CharMaskBits(f, t, i);
    AndBit(b, CHAR_MASK[f][t], i);
  }

  function SetOne(b: bv8, i: nat): bv8
    requires i < 8
  {
    b | INDEX_MASK[i]
  }

  function ClearOne(b: bv8, i: nat): bv8
    requires i < 8
  {
    b & !INDEX_MASK[i]
  }

  lemma IndexMaskIsRange(i: nat)
    requires i < 8
    ensures INDEX_MASK[i] == CHAR_MASK[i][i]
  {
  }

  lemma OneBitSet(b: bv8, i: nat, k: nat)
    requires i < 8 && k < 8
    ensures BitOf(SetOne(b, i), k) <==> BitOf(b, k) || k == i
  {
    IndexMaskIsRange(i);
    assert SetOne(b, i) == SetBits(b, i, i);
    SetBitsOfByte(b, i, i, k);
  }

  lemma OneBitCleared(b: bv8, i: nat, k: nat)
    requires i < 8 && k < 8
    ensures BitOf(ClearOne(b, i), k) <==> BitOf(b, k) && k != i
  {
    IndexMaskIsRange(i);
    assert ClearOne(b, i) == ClearBits(b, i, i);
    ClearBitsOfByte(b, i, i, k);
  }
}
