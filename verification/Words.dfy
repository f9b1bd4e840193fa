/** Machine words in byte memory: little-endian loads and stores of 64-bit words, and the merge of
    two adjacent aligned words into the unaligned word that straddles them. */
module Words {

  function ByteOf(w: bv64, i: nat): bv8
    requires i < 8
  {
    ((if i == 0 then w else if i == 1 then w >> 8 else if i == 2 then w >> 16 else if i == 3 then w >> 24
      else if i == 4 then w >> 32 else if i == 5 then w >> 40 else if i == 6 then w >> 48 else w >> 56) & 0xFF) as bv8
  }

  /** The bytes of a word in memory order. */
  function Bytes(w: bv64): (s: seq<bv8>)
    ensures |s| == 8
  {
    seq(8, (i: nat) requires i < 8 => ByteOf(w, i))
  }

  lemma FirstBytesAt(w: bv64, n: nat, i: nat)
    requires i < n == 8
    ensures Bytes(w)[i] == ByteOf(w, i)
  {
  }

  function Assemble(b0: bv8, b1: bv8, b2: bv8, b3: bv8, b4: bv8, b5: bv8, b6: bv8, b7: bv8): bv64
  {
    (b0 as bv64) | (b1 as bv64 << 8) | (b2 as bv64 << 16) | (b3 as bv64 << 24)
    | (b4 as bv64 << 32) | (b5 as bv64 << 40) | (b6 as bv64 << 48) | (b7 as bv64 << 56)
  }

  lemma AssembleBytes(b0: bv8, b1: bv8, b2: bv8, b3: bv8, b4: bv8, b5: bv8, b6: bv8, b7: bv8)
    ensures var w := Assemble(b0, b1, b2, b3, b4, b5, b6, b7);
            && ByteOf(w, 0) == b0 && ByteOf(w, 1) == b1 && ByteOf(w, 2) == b2 && ByteOf(w, 3) == b3
            && ByteOf(w, 4) == b4 && ByteOf(w, 5) == b5 && ByteOf(w, 6) == b6 && ByteOf(w, 7) == b7
  {
  }

  /** `w >> sh` for the shift amounts that occur, the multiples of 8 below 64. */
  function ShiftDown(w: bv64, sh: nat): bv64
    requires sh < 64 && sh % 8 == 0
  {
    if sh == 0 then w else if sh == 8 then w >> 8 else if sh == 16 then w >> 16 else if sh == 24 then w >> 24
    else if sh == 32 then w >> 32 else if sh == 40 then w >> 40 else if sh == 48 then w >> 48 else w >> 56
  }

  /** `w << sh` for the same amounts. */
  function ShiftUp(w: bv64, sh: nat): bv64
    requires sh < 64 && sh % 8 == 0
  {
    if sh == 0 then w else if sh == 8 then w << 8 else if sh == 16 then w << 16 else if sh == 24 then w << 24
    else if sh == 32 then w << 32 else if sh == 40 then w << 40 else if sh == 48 then w << 48 else w << 56
  }

  function MergeWords(w0: bv64, sh1: nat, w1: bv64, sh2: nat): bv64
    requires sh1 < 64 && sh1 % 8 == 0 && sh2 < 64 && sh2 % 8 == 0
  {
    ShiftDown(w0, sh1) | ShiftUp(w1, sh2)
  }

  lemma BytesAt(w: bv64, s: seq<bv8>)
    requires |s| == 8 && forall i: nat :: i < 8 ==> ByteOf(w, i) == s[i]
    ensures Bytes(w) == s
  {
    forall i: nat | i < 8 ensures Bytes(w)[i] == s[i] { FirstBytesAt(w, 8, i); }
  }

  /** The bytes of `m` are those of `w0` from byte `k` on, then the first ones of `w1`. */
  ghost predicate Merged(w0: bv64, w1: bv64, k: nat, m: bv64)
    requires k <= 8
  {
    forall i: nat {:trigger ByteOf(m, i)} :: i < 8 ==> ByteOf(m, i) == if i + k < 8 then ByteOf(w0, i + k) else ByteOf(w1, i + k - 8)
  }

  lemma MergeByte1(w0: bv64, w1: bv64, m: bv64)
    requires m == (w0 >> 8) | (w1 << 56)
    ensures Merged(w0, w1, 1, m)
  {
  }

  lemma MergeByte2(w0: bv64, w1: bv64, m: bv64)
    requires m == (w0 >> 16) | (w1 << 48)
    ensures Merged(w0, w1, 2, m)
  {
  }

  lemma MergeByte3(w0: bv64, w1: bv64, m: bv64)
    requires m == (w0 >> 24) | (w1 << 40)
    ensures Merged(w0, w1, 3, m)
  {
  }

  lemma MergeByte4(w0: bv64, w1: bv64, m: bv64)
    requires m == (w0 >> 32) | (w1 << 32)
    ensures Merged(w0, w1, 4, m)
  {
  }

  lemma MergeByte5(w0: bv64, w1: bv64, m: bv64)
    requires m == (w0 >> 40) | (w1 << 24)
    ensures Merged(w0, w1, 5, m)
  {
  }

  lemma MergeByte6(w0: bv64, w1: bv64, m: bv64)
    requires m == (w0 >> 48) | (w1 << 16)
    ensures Merged(w0, w1, 6, m)
  {
  }

  lemma MergeByte7(w0: bv64, w1: bv64, m: bv64)
    requires m == (w0 >> 56) | (w1 << 8)
    ensures Merged(w0, w1, 7, m)
  {
  }

  lemma MergedBytes(w0: bv64, w1: bv64, k: nat, m: bv64)
    requires k <= 8 && Merged(w0, w1, k, m)
    ensures Bytes(m) == Bytes(w0)[k..] + Bytes(w1)[..k]
  {
    var s := Bytes(w0)[k..] + Bytes(w1)[..k];
    forall i: nat | i < 8 ensures ByteOf(m, i) == s[i] {
      if i + k < 8 { FirstBytesAt(w0, 8, i + k); } else { FirstBytesAt(w1, 8, i + k - 8); }
    }
    BytesAt(m, s);
  }

  lemma MergeAt1(w0: bv64, w1: bv64)
    ensures Bytes(MergeWords(w0, 8, w1, 56)) == Bytes(w0)[1..] + Bytes(w1)[..1]
  {
    MergeByte1(w0, w1, MergeWords(w0, 8, w1, 56));
    MergedBytes(w0, w1, 1, MergeWords(w0, 8, w1, 56));
  }

  lemma MergeAt2(w0: bv64, w1: bv64)
    ensures Bytes(MergeWords(w0, 16, w1, 48)) == Bytes(w0)[2..] + Bytes(w1)[..2]
  {
    MergeByte2(w0, w1, MergeWords(w0, 16, w1, 48));
    MergedBytes(w0, w1, 2, MergeWords(w0, 16, w1, 48));
  }

  lemma MergeAt3(w0: bv64, w1: bv64)
    ensures Bytes(MergeWords(w0, 24, w1, 40)) == Bytes(w0)[3..] + Bytes(w1)[..3]
  {
    MergeByte3(w0, w1, MergeWords(w0, 24, w1, 40));
    MergedBytes(w0, w1, 3, MergeWords(w0, 24, w1, 40));
  }

  lemma MergeAt4(w0: bv64, w1: bv64)
    ensures Bytes(MergeWords(w0, 32, w1, 32)) == Bytes(w0)[4..] + Bytes(w1)[..4]
  {
    MergeByte4(w0, w1, MergeWords(w0, 32, w1, 32));
    MergedBytes(w0, w1, 4, MergeWords(w0, 32, w1, 32));
  }

  lemma MergeAt5(w0: bv64, w1: bv64)
    ensures Bytes(MergeWords(w0, 40, w1, 24)) == Bytes(w0)[5..] + Bytes(w1)[..5]
  {
    MergeByte5(w0, w1, MergeWords(w0, 40, w1, 24));
    MergedBytes(w0, w1, 5, MergeWords(w0, 40, w1, 24));
  }

  lemma MergeAt6(w0: bv64, w1: bv64)
    ensures Bytes(MergeWords(w0, 48, w1, 16)) == Bytes(w0)[6..] + Bytes(w1)[..6]
  {
    MergeByte6(w0, w1, MergeWords(w0, 48, w1, 16));
    MergedBytes(w0, w1, 6, MergeWords(w0, 48, w1, 16));
  }

  lemma MergeAt7(w0: bv64, w1: bv64)
    ensures Bytes(MergeWords(w0, 56, w1, 8)) == Bytes(w0)[7..] + Bytes(w1)[..7]
  {
    MergeByte7(w0, w1, MergeWords(w0, 56, w1, 8));
    MergedBytes(w0, w1, 7, MergeWords(w0, 56, w1, 8));
  }

  // ---- loads, stores, merges ---------------------------------------------------------------

  /** Loads the word at an aligned address, word number `word` of the memory. */
  method LoadWord(mem: array<bv8>, at: nat, ghost word: nat) returns (w: bv64)
    requires at == 8 * word && at + 8 <= mem.Length
    ensures Bytes(w) == mem[at..at + 8]
  {
    w := Assemble(mem[at], mem[at + 1], mem[at + 2], mem[at + 3], mem[at + 4], mem[at + 5], mem[at + 6], mem[at + 7]);
    AssembleBytes(mem[at], mem[at + 1], mem[at + 2], mem[at + 3], mem[at + 4], mem[at + 5], mem[at + 6], mem[at + 7]);
    BytesAt(w, mem[at..at + 8]);
  }

  /** The memory with the bytes of `piece` from `at` on. */
  function Spliced(m: seq<bv8>, at: nat, piece: seq<bv8>): (r: seq<bv8>)
    requires at + |piece| <= |m|
    ensures |r| == |m|
  {
    m[..at] + piece + m[at + |piece|..]
  }

  /** Stores a word at an aligned address. */
  method StoreWord(mem: array<bv8>, at: nat, w: bv64, ghost word: nat)
    requires at == 8 * word && at + 8 <= mem.Length
    modifies mem
    ensures mem[..] == Spliced(old(mem[..]), at, Bytes(w))
  {
    ghost var before := mem[..];
    for i := 0 to 8
      invariant mem[..] == before[..at] + Bytes(w)[..i] + before[at + i..]
    {
      FirstBytesAt(w, 8, i);
      mem[at + i] := ByteOf(w, i);
    }
  }

  /** Merging two adjacent words with the shift for an offset of `k` bytes yields the word that
      starts `k` bytes into the first. */
  method Merge(w0: bv64, sh1: nat, w1: bv64, sh2: nat, ghost k: nat) returns (w: bv64)
    requires 1 <= k < 8 && sh1 == 8 * k && sh2 == 64 - sh1
    ensures Bytes(w) == Bytes(w0)[k..] + Bytes(w1)[..k]
  {
    if k == 1 { MergeAt1(w0, w1); } else if k == 2 { MergeAt2(w0, w1); } else if k == 3 { MergeAt3(w0, w1); }
    else if k == 4 { MergeAt4(w0, w1); } else if k == 5 { MergeAt5(w0, w1); } else if k == 6 { MergeAt6(w0, w1); }
    else { MergeAt7(w0, w1); }
    w := MergeWords(w0, sh1, w1, sh2);
  }
}
