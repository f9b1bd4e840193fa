/** memcmp: byte loops around two software-pipelined word loops, each of which is entered at one of
    four points, and the byte comparison of two words that differ. */
module Memcmp {
  import opened Words
  import opened Memmove

  // ---- the meaning of a comparison ---------------------------------------------------------

  /** The difference of the first two bytes that differ, as unsigned values; 0 if none do. */
  function Compare(s: seq<bv8>, t: seq<bv8>): (r: int)
    requires |s| == |t|
    ensures -255 <= r <= 255
    ensures r == 0 <==> s == t
    decreases |s|
  {
    if s == [] then 0
    else if s[0] != t[0] then s[0] as int - t[0] as int
    else
      assert s == [s[0]] + s[1..] && t == [t[0]] + t[1..];
      Compare(s[1..], t[1..])
  }

  /** Whatever comes before the first difference does not matter, nor does what comes behind it. */
  lemma {:induction false} CompareAt(s: seq<bv8>, t: seq<bv8>, i: nat)
    requires |s| == |t| && i < |s| && s[..i] == t[..i] && s[i] != t[i]
    ensures Compare(s, t) == s[i] as int - t[i] as int
  {
    if i > 0 {
      assert s[0] == s[..i][0] && t[0] == t[..i][0];
      assert s[1..][..i - 1] == s[..i][1..] && t[1..][..i - 1] == t[..i][1..];
      CompareAt(s[1..], t[1..], i - 1);
    }
  }

  lemma {:induction false} FirstDifference(s: seq<bv8>, t: seq<bv8>) returns (i: nat)
    requires |s| == |t| && s != t
    ensures i < |s| && s[..i] == t[..i] && s[i] != t[i]
    decreases |s|
  {
    if s[0] != t[0] {
      i := 0;
    } else {
      assert s == [s[0]] + s[1..] && t == [t[0]] + t[1..];
      var j := FirstDifference(s[1..], t[1..]);
      i := j + 1;
      assert s[..i] == [s[0]] + s[1..][..j] && t[..i] == [t[0]] + t[1..][..j];
    }
  }

  /** A difference in a part of two sequences that agree before it decides the comparison. */
  lemma ComparePart(s: seq<bv8>, t: seq<bv8>, from: nat, to: nat)
    requires |s| == |t| && from <= to <= |s| && s[..from] == t[..from] && s[from..to] != t[from..to]
    ensures Compare(s, t) == Compare(s[from..to], t[from..to]) != 0
  {
    var i := FirstDifference(s[from..to], t[from..to]);
    CompareAt(s[from..to], t[from..to], i);
    assert s[..from + i] == s[..from] + s[from..to][..i] && t[..from + i] == t[..from] + t[from..to][..i];
    CompareAt(s, t, from + i);
  }

  // ---- integer conversions -----------------------------------------------------------------

  const INT_LIMIT: nat := 0x1_0000_0000

  /** Conversion of an int to the unsigned word type. */
  function ToWord(x: int): (w: nat)
    requires -255 <= x <= 255
    ensures w < ADDRESS_LIMIT
  {
    if x >= 0 then x else x + ADDRESS_LIMIT
  }

  /** Conversion of an unsigned word to int: the low 32 bits, read as a signed number. */
  function ToInt(w: nat): int
  {
    var low := w % INT_LIMIT;
    if low < INT_LIMIT / 2 then low else low - INT_LIMIT
  }

  /** A byte difference survives being kept in an unsigned word. */
  lemma DifferenceSurvives(x: int)
    requires -255 <= x <= 255
    ensures ToInt(ToWord(x)) == x && (ToWord(x) != 0 <==> x != 0)
  {
  }

  // ---- words -------------------------------------------------------------------------------

  lemma WordFromBytes(w: bv64)
    ensures w == Assemble(ByteOf(w, 0), ByteOf(w, 1), ByteOf(w, 2), ByteOf(w, 3),
                          ByteOf(w, 4), ByteOf(w, 5), ByteOf(w, 6), ByteOf(w, 7))
  {
  }

  lemma SameBytesSameWord(a: bv64, b: bv64)
    requires Bytes(a) == Bytes(b)
    ensures a == b
  {
    forall i: nat | i < 8 ensures ByteOf(a, i) == ByteOf(b, i) {
      FirstBytesAt(a, 8, i);
      FirstBytesAt(b, 8, i);
    }
    WordFromBytes(a);
    WordFromBytes(b);
  }

  /** Compares two words that differ, from their lowest byte up. */
  method MemcmpBytes(a: bv64, b: bv64) returns (r: int)
    requires a != b
    ensures r == Compare(Bytes(a), Bytes(b)) != 0
  {
    ghost var first := FirstByte(a, b);
    var i := 0;
    var x, y := ByteOf(a, 0), ByteOf(b, 0);
    while x == y
      invariant i <= first && x == ByteOf(a, i) && y == ByteOf(b, i)
      decreases first - i
    {
      i := i + 1;
      x, y := ByteOf(a, i), ByteOf(b, i);
    }
    r := x as int - y as int;
  }

  lemma FirstByte(a: bv64, b: bv64) returns (first: nat)
    requires a != b
    ensures first < 8 && ByteOf(a, first) != ByteOf(b, first)
    ensures forall j: nat :: j < first ==> ByteOf(a, j) == ByteOf(b, j)
    ensures Compare(Bytes(a), Bytes(b)) == ByteOf(a, first) as int - ByteOf(b, first) as int
  {
    if Bytes(a) == Bytes(b) { SameBytesSameWord(a, b); }
    first := FirstDifference(Bytes(a), Bytes(b));
    CompareAt(Bytes(a), Bytes(b), first);
    FirstBytesAt(a, 8, first);
    FirstBytesAt(b, 8, first);
    forall j: nat | j < first ensures ByteOf(a, j) == ByteOf(b, j) {
      FirstBytesAt(a, 8, j);
      FirstBytesAt(b, 8, j);
      assert Bytes(a)[..first][j] == Bytes(b)[..first][j];
    }
  }

  method CompareWords(a: bv64, b: bv64) returns (r: int)
    ensures r == Compare(Bytes(a), Bytes(b))
  {
    if a != b {
      r := MemcmpBytes(a, b);
    } else {
      r := 0;
    }
  }

  // ---- the pipelined loops -----------------------------------------------------------------

  /** The first `next` words have been loaded, all but the last of them have been compared. */
  ghost predicate Pending(s: seq<bv8>, t: seq<bv8>, next: nat, x: seq<bv8>, y: seq<bv8>)
  {
    && 1 <= next && 8 * next <= |s| == |t|
    && s[..8 * next - 8] == t[..8 * next - 8]
    && x == s[8 * next - 8..8 * next] && y == t[8 * next - 8..8 * next]
  }

  lemma PendingStart(s: seq<bv8>, t: seq<bv8>, x: seq<bv8>, y: seq<bv8>)
    requires |s| == |t| >= 8 && x == s[0..8] && y == t[0..8]
    ensures Pending(s, t, 1, x, y)
  {
  }

  /** The pending words differ: that decides. */
  lemma PendingDiffers(s: seq<bv8>, t: seq<bv8>, next: nat, x: seq<bv8>, y: seq<bv8>)
    requires Pending(s, t, next, x, y) && x != y
    ensures |x| == |y| && Compare(x, y) == Compare(s, t)
  {
    ComparePart(s, t, 8 * next - 8, 8 * next);
  }

  /** They are equal: the next ones may be loaded. */
  lemma PendingNext(s: seq<bv8>, t: seq<bv8>, next: nat, x: seq<bv8>, y: seq<bv8>, x': seq<bv8>, y': seq<bv8>)
    requires Pending(s, t, next, x, y) && x == y && 8 * next + 8 <= |s|
    requires x' == s[8 * next..8 * next + 8] && y' == t[8 * next..8 * next + 8]
    ensures Pending(s, t, next + 1, x', y')
  {
    assert s[..8 * next] == s[..8 * next - 8] + x && t[..8 * next] == t[..8 * next - 8] + y;
  }

  lemma PendingLast(s: seq<bv8>, t: seq<bv8>, next: nat, x: seq<bv8>, y: seq<bv8>)
    requires Pending(s, t, next, x, y) && 8 * next == |s|
    ensures |x| == |y| && Compare(x, y) == Compare(s, t)
  {
    if x == y {
      assert s == s[..8 * next - 8] + x && t == t[..8 * next - 8] + y;
    } else {
      PendingDiffers(s, t, next, x, y);
    }
  }

  /** `s` holds the `words` words of the memory from word number `word` on. */
  ghost predicate WordRegion(m: seq<bv8>, src: nat, word: nat, words: nat, s: seq<bv8>)
  {
    src == 8 * word && src + 8 * words <= |m| && s == m[src..src + 8 * words]
  }

  /** Loads word number `next` of a region. */
  method LoadNext(mem: array<bv8>, at: nat, ghost src: nat, ghost word: nat, ghost words: nat, ghost s: seq<bv8>,
                  ghost next: nat) returns (w: bv64)
    requires WordRegion(mem[..], src, word, words, s) && next < words && at == src + 8 * next
    ensures 8 * next + 8 <= |s| && Bytes(w) == s[8 * next..8 * next + 8]
  {
    w := LoadWord(mem, at, word + next);
    assert mem[at..at + 8] == s[8 * next..8 * next + 8];
  }

  /** Loads the next pair of words, then compares the previous one. */
  method AlignedStep(mem: array<bv8>, at1: nat, at2: nat, a: bv64, b: bv64, ghost src1: nat, ghost src2: nat,
                     ghost word1: nat, ghost word2: nat, ghost words: nat, ghost s: seq<bv8>, ghost t: seq<bv8>,
                     ghost next: nat)
    returns (a': bv64, b': bv64, r: int)
    requires WordRegion(mem[..], src1, word1, words, s) && at1 == src1 + 8 * next
    requires WordRegion(mem[..], src2, word2, words, t) && at2 == src2 + 8 * next
    requires Pending(s, t, next, Bytes(a), Bytes(b)) && next < words
    ensures r != 0 ==> r == Compare(s, t)
    ensures r == 0 ==> Pending(s, t, next + 1, Bytes(a'), Bytes(b'))
  {
    a' := LoadNext(mem, at1, src1, word1, words, s, next);
    b' := LoadNext(mem, at2, src2, word2, words, t, next);
    r := CompareWords(a, b);
    if r != 0 {
      PendingDiffers(s, t, next, Bytes(a), Bytes(b));
    } else {
      PendingNext(s, t, next, Bytes(a), Bytes(b), Bytes(a'), Bytes(b'));
    }
  }

  /** Blocks and words keep in step: `next` words have been loaded, and when the count runs out they
      are all of them. */
  predicate InStep(phase: nat, len: nat, rounds: nat, next: nat, words: nat)
  {
    phase < 4 && len == 4 * rounds && (len == 0 ==> phase == 0) && 1 <= next && next + len == words + phase
  }

  /** From one block to the next; behind the last one the addresses and the count move on. */
  method NextBlock(srcp1: int, srcp2: int, len: nat, phase: nat, ghost rounds: nat, ghost next: nat, ghost words: nat)
    returns (srcp1': int, srcp2': int, len': nat, phase': nat, ghost rounds': nat)
    requires InStep(phase, len, rounds, next, words) && len != 0
    ensures InStep(phase', len', rounds', next + 1, words) && phase' == (if phase == 3 then 0 else phase + 1)
    ensures srcp1' + 8 * phase' == srcp1 + 8 * phase + 8 && srcp2' + 8 * phase' == srcp2 + 8 * phase + 8
    ensures len' < len || (len' == len && phase' > phase)
  {
    srcp1', srcp2', len', phase', rounds' := srcp1, srcp2, len, phase + 1, rounds;
    if phase == 3 {
      srcp1', srcp2', len', phase', rounds' := srcp1 + 32, srcp2 + 32, len - 4, 0, rounds - 1;
    }
  }

  /** Where the loop is entered, as the number of the block of its body, and the count to go with
      it, a multiple of four. */
  method Entry(words: nat) returns (phase: nat, len: nat, ghost rounds: nat)
    requires words > 0
    ensures InStep(phase, len, rounds, 1, words)
  {
    if words % 4 == 3 {
      phase, len := 2, words + 1;
    } else if words % 4 == 0 {
      phase, len := 1, words;
    } else if words % 4 == 1 {
      phase, len := 0, words - 1;
    } else {
      phase, len := 3, words + 2;
    }
    rounds := len / 4;
  }

  /** Loads the first words into the registers the entered block expects them in. */
  method FirstWords(mem: array<bv8>, src1: nat, src2: nat, ghost word1: nat, ghost word2: nat, ghost words: nat,
                    ghost s: seq<bv8>, ghost t: seq<bv8>)
    returns (a: bv64, b: bv64)
    requires WordRegion(mem[..], src1, word1, words, s) && WordRegion(mem[..], src2, word2, words, t) && words > 0
    ensures Pending(s, t, 1, Bytes(a), Bytes(b))
  {
    a := LoadNext(mem, src1, src1, word1, words, s, 0);
    b := LoadNext(mem, src2, src2, word2, words, t, 0);
    PendingStart(s, t, Bytes(a), Bytes(b));
  }

  /** The pending words are in the registers that the block does not load. */
  ghost predicate PendingIn(s: seq<bv8>, t: seq<bv8>, next: nat, phase: nat, a0: bv64, b0: bv64, a1: bv64, b1: bv64)
  {
    if phase == 0 || phase == 2 then Pending(s, t, next, Bytes(a1), Bytes(b1))
    else Pending(s, t, next, Bytes(a0), Bytes(b0))
  }

  /** One block of the loop body, which loads one pair of registers and compares the other. */
  method Block(mem: array<bv8>, at1: nat, at2: nat, phase: nat, a0: bv64, b0: bv64, a1: bv64, b1: bv64, ghost src1: nat,
               ghost src2: nat, ghost word1: nat, ghost word2: nat, ghost words: nat, ghost s: seq<bv8>,
               ghost t: seq<bv8>, ghost next: nat)
    returns (a0': bv64, b0': bv64, a1': bv64, b1': bv64, r: int)
    requires WordRegion(mem[..], src1, word1, words, s) && at1 == src1 + 8 * next
    requires WordRegion(mem[..], src2, word2, words, t) && at2 == src2 + 8 * next
    requires phase < 4 && PendingIn(s, t, next, phase, a0, b0, a1, b1) && next < words
    ensures r != 0 ==> r == Compare(s, t)
    ensures r == 0 ==> PendingIn(s, t, next + 1, if phase == 3 then 0 else phase + 1, a0', b0', a1', b1')
  {
    a0', b0', a1', b1' := a0, b0, a1, b1;
    if phase == 0 || phase == 2 {
      a0', b0', r := AlignedStep(mem, at1, at2, a1, b1, src1, src2, word1, word2, words, s, t, next);
    } else {
      a1', b1', r := AlignedStep(mem, at1, at2, a0, b0, src1, src2, word1, word2, words, s, t, next);
    }
  }

  /** The registers between two blocks: addresses, count and pending words. */
  datatype Aligned = Aligned(srcp1: int, srcp2: int, len: nat, phase: nat, a0: bv64, b0: bv64, a1: bv64, b1: bv64)

  /** With them, `next` words of each side have been loaded. */
  ghost predicate AlignedLoop(g: Aligned, rounds: nat, next: nat, words: nat, src1: nat, src2: nat, s: seq<bv8>,
                              t: seq<bv8>)
  {
    && InStep(g.phase, g.len, rounds, next, words)
    && g.srcp1 + 8 * g.phase == src1 + 8 * next && g.srcp2 + 8 * g.phase == src2 + 8 * next
    && PendingIn(s, t, next, g.phase, g.a0, g.b0, g.a1, g.b1)
  }

  /** One round: a block, and behind the last one the step to the next four words. */
  method AlignedRound(mem: array<bv8>, g: Aligned, ghost rounds: nat, ghost next: nat, ghost words: nat, ghost src1: nat,
                      ghost src2: nat, ghost word1: nat, ghost word2: nat, ghost s: seq<bv8>, ghost t: seq<bv8>)
    returns (g': Aligned, ghost rounds': nat, r: int)
    requires WordRegion(mem[..], src1, word1, words, s) && WordRegion(mem[..], src2, word2, words, t)
    requires AlignedLoop(g, rounds, next, words, src1, src2, s, t) && g.len != 0
    ensures r != 0 ==> r == Compare(s, t)
    ensures r == 0 ==> AlignedLoop(g', rounds', next + 1, words, src1, src2, s, t)
    ensures r == 0 ==> g'.len < g.len || (g'.len == g.len && g.phase < g'.phase < 4)
  {
    var a0, b0, a1, b1;
    a0, b0, a1, b1, r := Block(mem, g.srcp1 + 8 * g.phase, g.srcp2 + 8 * g.phase, g.phase, g.a0, g.b0, g.a1, g.b1,
                               src1, src2, word1, word2, words, s, t, next);
    var srcp1, srcp2, len, phase;
    srcp1, srcp2, len, phase, rounds' := NextBlock(g.srcp1, g.srcp2, g.len, g.phase, rounds, next, words);
    g' := Aligned(srcp1, srcp2, len, phase, a0, b0, a1, b1);
  }

  lemma AlignedEnd(g: Aligned, rounds: nat, next: nat, words: nat, src1: nat, src2: nat, s: seq<bv8>, t: seq<bv8>)
    requires AlignedLoop(g, rounds, next, words, src1, src2, s, t) && g.len == 0 && |s| == |t| == 8 * words
    ensures Compare(Bytes(g.a1), Bytes(g.b1)) == Compare(s, t)
  {
    PendingLast(s, t, next, Bytes(g.a1), Bytes(g.b1));
  }

  /** Compares `words` aligned words with `words` aligned words. One round of this loop is one
      block of the loop of the source, which is entered at the block `phase`. */
  method CompareCommonAlignment(mem: array<bv8>, src1: nat, src2: nat, words: nat, ghost word1: nat, ghost word2: nat)
    returns (r: int)
    requires src1 == 8 * word1 && src2 == 8 * word2
    requires src1 + 8 * words <= mem.Length && src2 + 8 * words <= mem.Length
    ensures r == Compare(mem[src1..src1 + 8 * words], mem[src2..src2 + 8 * words])
  {
    if words == 0 {
      return 0;
    }
    ghost var s, t := mem[src1..src1 + 8 * words], mem[src2..src2 + 8 * words];
    var phase, len, rounds := Entry(words);
    var a, b := FirstWords(mem, src1, src2, word1, word2, words, s, t);
    var g := Aligned(src1 + 8 - 8 * phase, src2 + 8 - 8 * phase, len, phase, a, b, a, b);
    ghost var next: nat := 1;
    while g.len != 0
      invariant AlignedLoop(g, rounds, next, words, src1, src2, s, t)
      decreases g.len, 4 - g.phase
    {
      g, rounds, r := AlignedRound(mem, g, rounds, next, words, src1, src2, word1, word2, s, t);
      if r != 0 {
        return;
      }
      next := next + 1;
    }
    AlignedEnd(g, rounds, next, words, src1, src2, s, t);
    r := CompareWords(g.a1, g.b1);
  }

  // ---- misaligned words --------------------------------------------------------------------

  /** `m` holds the first `n` bytes of `s` at `at`. */
  ghost predicate Holds(m: seq<bv8>, at: nat, s: seq<bv8>, n: nat)
  {
    n == 0 || (n <= |s| && at + n <= |m| && m[at + n - 1] == s[n - 1] && Holds(m, at, s, n - 1))
  }

  lemma {:induction false} HoldsAt(m: seq<bv8>, at: nat, s: seq<bv8>, n: nat)
    requires Holds(m, at, s, n)
    ensures n == 0 || (n <= |s| && at + n <= |m|)
    ensures forall i: nat {:trigger s[i]} :: i < n ==> m[at + i] == s[i]
  {
    if n > 0 { HoldsAt(m, at, s, n - 1); }
  }

  lemma {:induction false} HoldsIf(m: seq<bv8>, at: nat, s: seq<bv8>, n: nat)
    requires n <= |s| && at + n <= |m| && forall i: nat {:trigger s[i]} :: i < n ==> m[at + i] == s[i]
    ensures Holds(m, at, s, n)
  {
    if n > 0 { HoldsIf(m, at, s, n - 1); }
  }

  /** The word that starts `k` bytes into the first of two adjacent words. */
  ghost function Joined(lo: bv64, hi: bv64, k: nat): (w: seq<bv8>)
    requires 1 <= k < 8
    ensures |w| == 8
  {
    Bytes(lo)[k..] + Bytes(hi)[..k]
  }

  /** `w` is word number `j` of the memory. */
  ghost predicate Loaded(m: seq<bv8>, j: nat, w: bv64)
  {
    Holds(m, 8 * j, Bytes(w), 8)
  }

  method CompareMerged(lo: bv64, hi: bv64, b: bv64, shl: nat, shr: nat, ghost k: nat) returns (r: int)
    requires 1 <= k < 8 && shl == 8 * k && shr == 64 - shl
    ensures r == Compare(Joined(lo, hi, k), Bytes(b))
  {
    var x := Merge(lo, shl, hi, shr, k);
    r := CompareWords(x, b);
  }

  /** The words before number `next - 1` agree. */
  ghost predicate SamePrefix(s: seq<bv8>, t: seq<bv8>, next: nat)
  {
    1 <= next && 8 * next <= |s| == |t| && Holds(s, 0, t, 8 * next - 8)
  }

  /** The two sides: `s` starts `k` bytes into word `word1`, `t` at word `word2`. */
  ghost predicate Sides(m: seq<bv8>, word1: nat, word2: nat, k: nat, words: nat, s: seq<bv8>, t: seq<bv8>)
  {
    && 1 <= k < 8 && |s| == |t| == 8 * words && 8 * word1 + k + 8 * words <= |m| && 8 * word2 + 8 * words <= |m|
    && Holds(m, 8 * word1 + k, s, 8 * words) && Holds(m, 8 * word2, t, 8 * words)
  }

  lemma JoinedByte(lo: bv64, hi: bv64, k: nat, i: nat)
    requires 1 <= k < 8 && i < 8
    ensures Joined(lo, hi, k)[i] == if i < 8 - k then Bytes(lo)[i + k] else Bytes(hi)[i + k - 8]
  {
  }

  /** Two adjacent aligned words join to the word that starts `k` bytes into the first. */
  lemma JoinedWord(m: seq<bv8>, word1: nat, k: nat, words: nat, s: seq<bv8>, next: nat, lo: bv64, hi: bv64)
    requires 1 <= k < 8 && |s| == 8 * words && Holds(m, 8 * word1 + k, s, 8 * words) && 1 <= next <= words
    requires Loaded(m, word1 + next - 1, lo) && Loaded(m, word1 + next, hi)
    ensures Joined(lo, hi, k) == s[8 * next - 8..8 * next]
  {
    HoldsAt(m, 8 * word1 + k, s, 8 * words);
    HoldsAt(m, 8 * (word1 + next - 1), Bytes(lo), 8);
    HoldsAt(m, 8 * (word1 + next), Bytes(hi), 8);
    var x := s[8 * next - 8..8 * next];
    forall i: nat | i < 8 ensures Joined(lo, hi, k)[i] == x[i] {
      JoinedByte(lo, hi, k, i);
      assert x[i] == s[8 * next - 8 + i];
    }
  }

  lemma AlignedWord(m: seq<bv8>, word2: nat, words: nat, t: seq<bv8>, next: nat, b: bv64)
    requires |t| == 8 * words && Holds(m, 8 * word2, t, 8 * words) && 1 <= next <= words
    requires Loaded(m, word2 + next - 1, b)
    ensures Bytes(b) == t[8 * next - 8..8 * next]
  {
    HoldsAt(m, 8 * word2, t, 8 * words);
    HoldsAt(m, 8 * (word2 + next - 1), Bytes(b), 8);
    var y := t[8 * next - 8..8 * next];
    forall i: nat | i < 8 ensures Bytes(b)[i] == y[i] {
      assert y[i] == t[8 * next - 8 + i];
    }
  }

  lemma PrefixAgrees(s: seq<bv8>, t: seq<bv8>, n: nat)
    requires Holds(s, 0, t, n) && n <= |s| == |t|
    ensures s[..n] == t[..n]
  {
    HoldsAt(s, 0, t, n);
    forall i: nat | i < n ensures s[i] == t[i] { }
  }

  lemma PrefixGrows(s: seq<bv8>, t: seq<bv8>, next: nat, x: seq<bv8>)
    requires SamePrefix(s, t, next) && x == s[8 * next - 8..8 * next] == t[8 * next - 8..8 * next]
    ensures Holds(s, 0, t, 8 * next)
  {
    HoldsAt(s, 0, t, 8 * next - 8);
    forall i: nat | i < 8 * next ensures s[i] == t[i] {
      if i >= 8 * next - 8 { assert x[i - (8 * next - 8)] == s[i] && x[i - (8 * next - 8)] == t[i]; }
    }
    HoldsIf(s, 0, t, 8 * next);
  }

  /** What comparing the pending words decides, when all words before them agree. */
  lemma PrefixVerdict(s: seq<bv8>, t: seq<bv8>, next: nat, x: seq<bv8>, y: seq<bv8>)
    requires SamePrefix(s, t, next) && x == s[8 * next - 8..8 * next] && y == t[8 * next - 8..8 * next]
    ensures |x| == |y|
    ensures Compare(x, y) != 0 ==> Compare(x, y) == Compare(s, t)
    ensures Compare(x, y) == 0 && 8 * next < |s| && 8 * next + 8 <= |s| ==> SamePrefix(s, t, next + 1)
    ensures Compare(x, y) == 0 && 8 * next == |s| ==> Compare(s, t) == 0
  {
    if x != y {
      PrefixAgrees(s, t, 8 * next - 8);
      PendingDiffers(s, t, next, x, y);
    } else {
      PrefixGrows(s, t, next, x);
      PrefixAgrees(s, t, 8 * next);
    }
  }

  lemma MergedVerdict(m: seq<bv8>, word1: nat, word2: nat, k: nat, words: nat, s: seq<bv8>, t: seq<bv8>, next: nat,
                      lo: bv64, hi: bv64, b: bv64, r: int)
    requires Sides(m, word1, word2, k, words, s, t) && SamePrefix(s, t, next) && next <= words
    requires Loaded(m, word1 + next - 1, lo) && Loaded(m, word1 + next, hi) && Loaded(m, word2 + next - 1, b)
    requires r == Compare(Joined(lo, hi, k), Bytes(b))
    ensures r != 0 ==> r == Compare(s, t)
    ensures r == 0 && next < words ==> SamePrefix(s, t, next + 1)
    ensures r == 0 && next == words ==> Compare(s, t) == 0
  {
    JoinedWord(m, word1, k, words, s, next, lo, hi);
    AlignedWord(m, word2, words, t, next, b);
    PrefixVerdict(s, t, next, Joined(lo, hi, k), Bytes(b));
  }

  /** Loads a word and records which one it is. */
  method LoadNumbered(mem: array<bv8>, at: nat, ghost word: nat) returns (w: bv64)
    requires at == 8 * word && at + 8 <= mem.Length
    ensures Loaded(mem[..], word, w)
  {
    w := LoadWord(mem, at, word);
    assert forall i: nat {:trigger Bytes(w)[i]} :: i < 8 ==> Bytes(w)[i] == mem[at..at + 8][i] == mem[..][at + i];
    HoldsIf(mem[..], at, Bytes(w), 8);
  }

  /** Compares the pending word of the one side, merged from two, with that of the other. */
  method ComparePending(lo: bv64, hi: bv64, b: bv64, shl: nat, shr: nat, ghost k: nat, ghost m: seq<bv8>, ghost word1: nat,
                        ghost word2: nat, ghost words: nat, ghost s: seq<bv8>, ghost t: seq<bv8>, ghost next: nat)
    returns (r: int)
    requires Sides(m, word1, word2, k, words, s, t) && SamePrefix(s, t, next) && next <= words
    requires shl == 8 * k && shr == 64 - shl
    requires Loaded(m, word1 + next - 1, lo) && Loaded(m, word1 + next, hi) && Loaded(m, word2 + next - 1, b)
    ensures r != 0 ==> r == Compare(s, t)
    ensures r == 0 && next < words ==> SamePrefix(s, t, next + 1)
    ensures r == 0 && next == words ==> Compare(s, t) == 0
  {
    r := CompareMerged(lo, hi, b, shl, shr, k);
    MergedVerdict(m, word1, word2, k, words, s, t, next, lo, hi, b, r);
  }

  /** The next words of both sides lie in the memory, which is made of whole words. */
  lemma NextInside(word1: nat, word2: nat, k: nat, words: nat, memWords: nat, m: seq<bv8>, s: seq<bv8>, t: seq<bv8>,
                   next: nat)
    requires Sides(m, word1, word2, k, words, s, t) && next < words && |m| == 8 * memWords
    ensures 8 * (word1 + next + 1) + 8 <= |m| && 8 * (word2 + next) + 8 <= |m|
  {
  }

  /** One block of the loop body: loads the next word of each side, then compares the pending one,
      merged from `lo` and `hi`. The addresses are those the registers `srcp1` and `srcp2` give
      with the block's number. */
  method MergedStep(mem: array<bv8>, srcp1: int, srcp2: int, phase: nat, lo: bv64, hi: bv64, b: bv64, shl: nat,
                    shr: nat,
                    ghost k: nat, ghost word1: nat, ghost word2: nat, ghost words: nat, ghost memWords: nat,
                    ghost s: seq<bv8>, ghost t: seq<bv8>, ghost next: nat)
    returns (a': bv64, b': bv64, r: int)
    requires Sides(mem[..], word1, word2, k, words, s, t) && SamePrefix(s, t, next) && next < words
    requires shl == 8 * k && shr == 64 - shl && mem.Length == 8 * memWords
    requires srcp1 + 8 * phase == 8 * (word1 + next + 1) && srcp2 + 8 * phase == 8 * (word2 + next)
    requires Loaded(mem[..], word1 + next - 1, lo) && Loaded(mem[..], word1 + next, hi) && Loaded(mem[..], word2 + next - 1, b)
    ensures r != 0 ==> r == Compare(s, t)
    ensures r == 0 ==> SamePrefix(s, t, next + 1)
    ensures Loaded(mem[..], word1 + next + 1, a') && Loaded(mem[..], word2 + next, b')
  {
    NextInside(word1, word2, k, words, memWords, mem[..], s, t, next);
    a' := LoadNumbered(mem, srcp1 + 8 * phase, word1 + next + 1);
    b' := LoadNumbered(mem, srcp2 + 8 * phase, word2 + next);
    r := ComparePending(lo, hi, b, shl, shr, k, mem[..], word1, word2, words, s, t, next);
  }

  /** Compares `words` unaligned words, merged from pairs of aligned ones, with `words` aligned
      words. The registers a0..a3 and b0..b3 of the source take turns; `lo`, `hi` and `b` are
      those loaded last. */
  method CompareNotCommonAlignment(mem: array<bv8>, src1: nat, src2: nat, words: nat, k: nat,
                                   ghost word1: nat, ghost word2: nat, ghost memWords: nat)
    returns (r: int)
    requires 1 <= k < 8 && src1 == 8 * word1 + k && src2 == 8 * word2 && mem.Length == 8 * memWords
    requires src1 + 8 * words <= mem.Length && src2 + 8 * words <= mem.Length
    ensures r == Compare(mem[src1..src1 + 8 * words], mem[src2..src2 + 8 * words])
  {
    if words == 0 {
      return 0;
    }
    ghost var s, t := mem[src1..src1 + 8 * words], mem[src2..src2 + 8 * words];
    assert forall i: nat {:trigger s[i]} :: i < 8 * words ==> mem[..][8 * word1 + k + i] == s[i];
    HoldsIf(mem[..], 8 * word1 + k, s, 8 * words);
    assert forall i: nat {:trigger t[i]} :: i < 8 * words ==> mem[..][8 * word2 + i] == t[i];
    HoldsIf(mem[..], 8 * word2, t, 8 * words);
    r := CompareMergedWords(mem, src1 - k, src2, words, k, s, t, word1, word2, memWords);
  }

  /** The registers between two blocks: addresses, count, and the words to merge and to compare. */
  datatype Merging = Merging(srcp1: int, srcp2: int, len: nat, phase: nat, lo: bv64, hi: bv64, b: bv64)

  ghost predicate MergedLoop(m: seq<bv8>, g: Merging, rounds: nat, next: nat, words: nat, word1: nat, word2: nat,
                             s: seq<bv8>, t: seq<bv8>)
  {
    && InStep(g.phase, g.len, rounds, next, words) && SamePrefix(s, t, next)
    && g.srcp1 + 8 * g.phase == 8 * (word1 + next + 1) && g.srcp2 + 8 * g.phase == 8 * (word2 + next)
    && Loaded(m, word1 + next - 1, g.lo) && Loaded(m, word1 + next, g.hi) && Loaded(m, word2 + next - 1, g.b)
  }

  /** One round: a block, and behind the last one the step to the next four words. */
  method MergedRound(mem: array<bv8>, g: Merging, shl: nat, shr: nat, ghost k: nat, ghost rounds: nat, ghost next: nat,
                     ghost words: nat, ghost word1: nat, ghost word2: nat, ghost memWords: nat, ghost s: seq<bv8>,
                     ghost t: seq<bv8>)
    returns (g': Merging, ghost rounds': nat, r: int)
    requires Sides(mem[..], word1, word2, k, words, s, t) && shl == 8 * k && shr == 64 - shl && mem.Length == 8 * memWords
    requires MergedLoop(mem[..], g, rounds, next, words, word1, word2, s, t) && g.len != 0
    ensures r != 0 ==> r == Compare(s, t)
    ensures r == 0 ==> MergedLoop(mem[..], g', rounds', next + 1, words, word1, word2, s, t)
    ensures r == 0 ==> g'.len < g.len || (g'.len == g.len && g.phase < g'.phase < 4)
  {
    var a, b;
    a, b, r := MergedStep(mem, g.srcp1, g.srcp2, g.phase, g.lo, g.hi, g.b, shl, shr, k, word1, word2, words, memWords,
                          s, t, next);
    var srcp1, srcp2, len, phase;
    srcp1, srcp2, len, phase, rounds' := NextBlock(g.srcp1, g.srcp2, g.len, g.phase, rounds, next, words);
    g' := Merging(srcp1, srcp2, len, phase, g.hi, a, b);
  }

  method CompareMergedWords(mem: array<bv8>, base: nat, src2: nat, words: nat, k: nat, ghost s: seq<bv8>,
                            ghost t: seq<bv8>,
                            ghost word1: nat, ghost word2: nat, ghost memWords: nat)
    returns (r: int)
    requires words > 0 && Sides(mem[..], word1, word2, k, words, s, t)
    requires base == 8 * word1 && src2 == 8 * word2 && mem.Length == 8 * memWords
    ensures r == Compare(s, t)
  {
    var shl := 8 * k;
    var shr := 64 - shl;
    var lo := LoadNumbered(mem, base, word1);
    var hi := LoadNumbered(mem, base + 8, word1 + 1);
    var b := LoadNumbered(mem, src2, word2);
    var phase, len, rounds := Entry(words);
    var g := Merging(base + 16 - 8 * phase, src2 + 8 - 8 * phase, len, phase, lo, hi, b);
    ghost var next: nat := 1;
    while g.len != 0
      invariant MergedLoop(mem[..], g, rounds, next, words, word1, word2, s, t)
      decreases g.len, 4 - g.phase
    {
      g, rounds, r := MergedRound(mem, g, shl, shr, k, rounds, next, words, word1, word2, memWords, s, t);
      if r != 0 {
        return;
      }
      next := next + 1;
    }
    r := ComparePending(g.lo, g.hi, g.b, shl, shr, k, mem[..], word1, word2, words, s, t, next);
  }

  // ---- the whole function ------------------------------------------------------------------

  /** The comparison of two regions of memory, a byte at a time. */
  ghost function Regions(m: seq<bv8>, p: nat, q: nat, n: nat): int
    requires p + n <= |m| && q + n <= |m|
    decreases n
  {
    if n == 0 then 0
    else if m[p] != m[q] then m[p] as int - m[q] as int
    else Regions(m, p + 1, q + 1, n - 1)
  }

  lemma {:induction false} RegionsCompare(m: seq<bv8>, p: nat, q: nat, n: nat)
    requires p + n <= |m| && q + n <= |m|
    ensures Regions(m, p, q, n) == Compare(m[p..p + n], m[q..q + n])
    decreases n
  {
    if n > 0 {
      var s, t := m[p..p + n], m[q..q + n];
      assert s[0] == m[p] && t[0] == m[q];
      assert s[1..] == m[p + 1..p + 1 + (n - 1)] && t[1..] == m[q + 1..q + 1 + (n - 1)];
      RegionsCompare(m, p + 1, q + 1, n - 1);
    }
  }

  /** Comparing in two stages. */
  lemma {:induction false} Staged(m: seq<bv8>, p: nat, q: nat, a: nat, b: nat)
    requires p + a + b <= |m| && q + a + b <= |m|
    ensures Regions(m, p, q, a + b) == if Regions(m, p, q, a) != 0 then Regions(m, p, q, a) else Regions(m, p + a, q + a, b)
    decreases a
  {
    if a > 0 { Staged(m, p + 1, q + 1, a - 1, b); }
  }

  lemma StagedTo(m: seq<bv8>, p: nat, q: nat, a: nat, p': nat, q': nat, b: nat, total: nat)
    requires total == a + b && p' == p + a && q' == q + a && p + total <= |m| && q + total <= |m|
    ensures Regions(m, p, q, total) == if Regions(m, p, q, a) != 0 then Regions(m, p, q, a) else Regions(m, p', q', b)
  {
    Staged(m, p, q, a, b);
  }

  lemma RegionsOf(mem: array<bv8>, p: nat, q: nat, n: nat)
    requires p + n <= mem.Length && q + n <= mem.Length
    ensures Regions(mem[..], p, q, n) == Compare(mem[p..p + n], mem[q..q + n])
  {
    RegionsCompare(mem[..], p, q, n);
    assert mem[..][p..p + n] == mem[p..p + n] && mem[..][q..q + n] == mem[q..q + n];
  }

  /** Compares `count` bytes one at a time; a difference is kept in an unsigned word on its way. */
  method CompareBytes(mem: array<bv8>, src1: nat, src2: nat, count: nat) returns (r: int)
    requires src1 + count <= mem.Length && src2 + count <= mem.Length
    ensures r == Regions(mem[..], src1, src2, count)
  {
    var srcp1: nat, srcp2: nat, len: nat := src1, src2, count;
    while len != 0
      invariant srcp1 + len == src1 + count && srcp2 + len == src2 + count
      invariant Regions(mem[..], src1, src2, count) == Regions(mem[..], srcp1, srcp2, len)
    {
      var difference := mem[srcp1] as int - mem[srcp2] as int;
      DifferenceSurvives(difference);
      var res := ToWord(difference);
      if res != 0 {
        return ToInt(res);
      }
      srcp1, srcp2, len := srcp1 + 1, srcp2 + 1, len - 1;
    }
    return 0;
  }

  /** The whole words of a comparison whose second side is aligned. */
  method CompareWholeWords(mem: array<bv8>, src1: nat, src2: nat, words: nat) returns (r: int)
    requires Memory(mem.Length) && src2 % 8 == 0
    requires src1 + 8 * words <= mem.Length && src2 + 8 * words <= mem.Length
    ensures r == Regions(mem[..], src1, src2, 8 * words)
  {
    Quotients(src1);
    Quotients(src2);
    Quotients(mem.Length);
    if src1 % 8 == 0 {
      r := CompareCommonAlignment(mem, src1, src2, words, src1 / 8, src2 / 8);
    } else {
      r := CompareNotCommonAlignment(mem, src1, src2, words, src1 % 8, src1 / 8, src2 / 8, mem.Length / 8);
    }
    RegionsOf(mem, src1, src2, 8 * words);
    DifferenceSurvives(r);
    r := ToInt(ToWord(r));
  }

  /** Leading bytes up to an aligned address of the second side, then whole words. */
  method CompareLeadAndWords(mem: array<bv8>, s1: nat, s2: nat, length: nat) returns (r: int, left: nat)
    requires Memory(mem.Length) && s1 + length <= mem.Length && s2 + length <= mem.Length && length >= OP_T_THRES
    ensures left < 8 && r == Regions(mem[..], s1, s2, length - left)
  {
    ghost var m := mem[..];
    var lead := Prologue(s2);
    var rest := length - lead;
    Quotients(rest);
    left := rest % 8;
    Staged(m, s1, s2, lead, rest - left);
    r := CompareBytes(mem, s1, s2, lead);
    if r == 0 {
      r := CompareWholeWords(mem, s1 + lead, s2 + lead, rest / 8);
    }
  }

  /** For every length and both alignments: the difference of the first two bytes that differ. */
  method Memcmp(mem: array<bv8>, s1: nat, s2: nat, length: nat) returns (r: int)
    requires Memory(mem.Length) && s1 + length <= mem.Length && s2 + length <= mem.Length
    ensures r == Compare(mem[s1..s1 + length], mem[s2..s2 + length])
  {
    RegionsOf(mem, s1, s2, length);
    var left := length;
    if length >= OP_T_THRES {
      r, left := CompareLeadAndWords(mem, s1, s2, length);
      if r != 0 {
        StagedTo(mem[..], s1, s2, length - left, s1 + (length - left), s2 + (length - left), left, length);
        return;
      }
    }
    var done := length - left;
    var p, q := s1 + done, s2 + done;
    StagedTo(mem[..], s1, s2, done, p, q, left, length);
    r := CompareBytes(mem, p, q, left);
  }
}
