/** Word copies between areas that are not congruent modulo the word size: every destination word
    is merged from the two aligned source words it straddles. The aligned words cut the source at
    `k` bytes into a word: `p` marks where a destination word begins in the source, `q` the next
    aligned address, with q + k = p + 8. */
module MergeCopy {
  import opened Words
  import opened Memcopy

  lemma WordRoom(word: nat, words: nat, end: nat)
    requires 8 * word < end <= 8 * words
    ensures 8 * word + 8 <= 8 * words
  {
  }

  lemma OffsetInWord(x: nat, word: nat, k: nat)
    requires x == 8 * word + k && k < 8
    ensures x % 8 == k && x - x % 8 == 8 * word
  {
  }

  /** The shift amounts of the merge for an offset of `k` bytes. */
  predicate Shifts(sh1: nat, sh2: nat, k: nat)
  {
    1 <= k < 8 && sh1 == 8 * k && sh2 == 64 - sh1
  }

  // ---- upwards -----------------------------------------------------------------------------

  /** Loads the aligned word at `q`, ahead of what has been written. Its first bytes, up to `p`,
      end a destination word; the others, if they are still source, begin the next. */
  method LoadAhead(mem: array<bv8>, q: nat, ghost p: nat, ghost q': nat, ghost before: seq<bv8>,
                   ghost dst: nat, ghost src: nat, ghost done: nat, ghost total: nat, ghost word: nat, ghost words: nat)
    returns (w: bv64)
    requires |before| == mem.Length == 8 * words && dst + total <= mem.Length && src + total <= mem.Length
    requires q == 8 * word && q < p && q' == q + 8 && p < q' && src + done <= q && p <= src + total
    requires done <= total && mem[..] == Copy(before, dst, src, done) && UpwardSafe(dst, src, total)
    ensures Bytes(w)[..p - q] == before[q..p]
    ensures q' <= src + total ==> Bytes(w)[p - q..] == before[p..q']
  {
    WordRoom(word, words, p);
    w := LoadWord(mem, q, word);
    ghost var window := mem[q..q'];
    assert window == mem[..][q..q'];
    SourceUp(before, dst, src, done, total, q, p);
    assert window[..p - q] == mem[..][q..p];
    if q' <= src + total {
      SourceUp(before, dst, src, done, total, p, q');
      assert window[p - q..] == mem[..][p..q'];
    }
  }

  /** Merges two source words and stores the result as the next destination word. */
  method MergeStoreUp(mem: array<bv8>, d: nat, w0: bv64, sh1: nat, w1: bv64, sh2: nat, ghost k: nat,
                      ghost p: nat, ghost q: nat, ghost p': nat, ghost before: seq<bv8>,
                      ghost dst: nat, ghost src: nat, ghost done: nat, ghost dw: nat, ghost more: nat)
    requires |before| == mem.Length && d == dst + done == 8 * dw && d + 8 <= mem.Length && more == done + 8
    requires Shifts(sh1, sh2, k) && p == src + done && q + k == p' == p + 8 <= mem.Length
    requires mem[..] == Copy(before, dst, src, done)
    requires Bytes(w0)[k..] == before[p..q] && Bytes(w1)[..k] == before[q..p']
    modifies mem
    ensures mem[..] == Copy(before, dst, src, more)
  {
    var w := Merge(w0, sh1, w1, sh2, k);
    assert Bytes(w) == before[p..p'];
    StoreUp(mem, d, w, before, dst, src, done, dw, p, p', more);
  }

  /** Two destination words from three source words, the first of which is carried over. */
  method MergePairUp(mem: array<bv8>, d: nat, s: nat, a0: bv64, sh1: nat, sh2: nat, ghost k: nat,
                     ghost p0: nat, ghost q0: nat, ghost p2: nat, ghost q2: nat, ghost before: seq<bv8>,
                     ghost dst: nat, ghost src: nat, ghost done: nat, ghost total: nat,
                     ghost dw: nat, ghost sw: nat, ghost words: nat) returns (a2: bv64)
    requires |before| == mem.Length == 8 * words && dst + total <= mem.Length && src + total <= mem.Length
    requires Shifts(sh1, sh2, k) && done + 16 <= total && d == dst + done == 8 * dw
    requires p0 == src + done && s + k == p0 && s == 8 * sw && q0 == s + 8 && p2 == p0 + 16 && q2 == q0 + 16
    requires mem[..] == Copy(before, dst, src, done) && UpwardSafe(dst, src, total)
    requires Bytes(a0)[k..] == before[p0..q0]
    modifies mem
    ensures mem[..] == Copy(before, dst, src, done + 16)
    ensures q2 <= src + total ==> Bytes(a2)[k..] == before[p2..q2]
  {
    ghost var p1, q1, half := p0 + 8, q0 + 8, done + 8;
    var a1 := LoadAhead(mem, s + 8, p1, q1, before, dst, src, done, total, sw + 1, words);
    a2 := LoadAhead(mem, s + 16, p2, q2, before, dst, src, done, total, sw + 2, words);
    MergeStoreTwoUp(mem, d, a0, a1, a2, sh1, sh2, k, p0, q0, p1, q1, p2, before, dst, src, done, half, dw);
  }

  /** Two destination words from three source words. */
  method MergeStoreTwoUp(mem: array<bv8>, d: nat, a0: bv64, a1: bv64, a2: bv64, sh1: nat, sh2: nat, ghost k: nat,
                         ghost p0: nat, ghost q0: nat, ghost p1: nat, ghost q1: nat, ghost p2: nat,
                         ghost before: seq<bv8>, ghost dst: nat, ghost src: nat, ghost done: nat, ghost half: nat,
                         ghost dw: nat)
    requires |before| == mem.Length && d == dst + done == 8 * dw && d + 16 <= mem.Length && half == done + 8
    requires Shifts(sh1, sh2, k) && p0 == src + done && q0 + k == p1 == p0 + 8 && q1 + k == p2 == p1 + 8 <= mem.Length
    requires mem[..] == Copy(before, dst, src, done)
    requires Bytes(a0)[k..] == before[p0..q0] && Bytes(a1)[..k] == before[q0..p1]
    requires Bytes(a1)[k..] == before[p1..q1] && Bytes(a2)[..k] == before[q1..p2]
    modifies mem
    ensures mem[..] == Copy(before, dst, src, done + 16)
  {
    MergeStoreUp(mem, d, a0, sh1, a1, sh2, k, p0, q0, p1, before, dst, src, done, dw, half);
    MergeStoreUp(mem, d + 8, a1, sh1, a2, sh2, k, p1, q1, p2, before, dst, src, half, dw + 1, done + 16);
  }

  /** The unrolled loop over an even number of destination words. */
  method MergePairsUp(mem: array<bv8>, dst: nat, s0: nat, len: nat, first: bv64, sh1: nat, sh2: nat, ghost k: nat,
                      ghost src: nat, ghost q0: nat, ghost pairs: nat, ghost total: nat, ghost dw: nat, ghost sw: nat, ghost words: nat)
    requires mem.Length == 8 * words && dst + total <= mem.Length && src + total <= mem.Length
    requires len == 2 * pairs && len > 0 && total == 16 * pairs && Shifts(sh1, sh2, k)
    requires dst == 8 * dw && s0 + k == src && s0 == 8 * sw && q0 == s0 + 8
    requires UpwardSafe(dst, src, total) && Bytes(first)[k..] == mem[src..q0]
    modifies mem
    ensures mem[..] == Copy(old(mem[..]), dst, src, total)
  {
    ghost var before := mem[..];
    ghost var left, done, dk, sk, p, q := pairs, 0, dw, sw, src, q0;
    var a0, d, s, n := first, dst, s0, len;
    while n != 0
      invariant left >= 0 && n == 2 * left && done >= 0 && total - done == 16 * left
      invariant d == dst + done == 8 * dk && s + k == p && s == 8 * sk && p == src + done && q == s + 8
      invariant mem[..] == Copy(before, dst, src, done)
      invariant left > 0 ==> Bytes(a0)[k..] == before[p..q]
      decreases left
    {
      ghost var p2, q2, done2 := p + 16, q + 16, done + 16;
      a0 := MergePairUp(mem, d, s, a0, sh1, sh2, k, p, q, p2, q2, before, dst, src, done, total, dk, sk, words);
      s := s + 16;
      d := d + 16;
      n := n - 2;
      left, done, dk, sk, p, q := left - 1, done2, dk + 2, sk + 2, p2, q2;
      assert left > 0 ==> q2 <= src + total;
    }
  }

  /** The word that holds the first source bytes; what precedes them is not used. */
  method LoadFirst(mem: array<bv8>, at: nat, ghost src: nat, ghost k: nat, ghost word: nat,
                   ghost words: nat) returns (w: bv64)
    requires mem.Length == 8 * words && 1 <= k < 8 && at == src - k == 8 * word && src + 8 <= mem.Length
    ensures Bytes(w)[k..] == mem[src..at + 8]
  {
    w := LoadWord(mem, at, word);
  }

  /** One destination word; the second source word is handed on. */
  method MergeOneUp(mem: array<bv8>, dst: nat, s: nat, a0: bv64, sh1: nat, sh2: nat, ghost k: nat,
                    ghost src: nat, ghost q: nat, ghost p': nat, ghost q': nat, ghost total: nat, ghost dw: nat, ghost sw: nat, ghost words: nat)
    returns (a1: bv64)
    requires mem.Length == 8 * words && dst + total <= mem.Length && src + total <= mem.Length && 8 <= total
    requires Shifts(sh1, sh2, k) && dst == 8 * dw && s + k == src && s == 8 * sw && q == s + 8 && p' == src + 8 && q' == q + 8
    requires UpwardSafe(dst, src, total) && Bytes(a0)[k..] == mem[src..q]
    modifies mem
    ensures mem[..] == Copy(old(mem[..]), dst, src, 8)
    ensures q' <= src + total ==> Bytes(a1)[k..] == mem[p'..q']
  {
    ghost var before := mem[..];
    a1 := LoadAhead(mem, s + 8, p', q', before, dst, src, 0, total, sw + 1, words);
    MergeStoreUp(mem, dst, a0, sh1, a1, sh2, k, src, q, p', before, dst, src, 0, dw, 8);
    if q' <= src + total { SourceUp(before, dst, src, 8, total, p', q'); }
  }

  method WordCopyFwdDestAligned(mem: array<bv8>, dst: nat, src: nat, len: nat,
                                ghost k: nat, ghost dw: nat, ghost sw: nat, ghost words: nat)
    requires mem.Length == 8 * words && len >= 1 && dst + 8 * len <= mem.Length && src + 8 * len <= mem.Length
    requires UpwardSafe(dst, src, 8 * len) && dst == 8 * dw && src == 8 * sw + k && 1 <= k < 8
    modifies mem
    ensures mem[..] == Copy(old(mem[..]), dst, src, 8 * len)
  {
    OffsetInWord(src, sw, k);
    var sh1 := 8 * (src % 8);
    var sh2 := 64 - sh1;
    var s := src - src % 8;
    var a0 := LoadFirst(mem, s, src, k, sw, words);
    MergeAllUp(mem, dst, s, len, len % 2 == 1, a0, sh1, sh2, len / 2, 8 * len, k, src, dw, sw, words);
  }

  /** An odd number of words: one word, then pairs. */
  method MergeOddUp(mem: array<bv8>, dst: nat, s: nat, len: nat, a0: bv64, sh1: nat, sh2: nat,
                    ghost half: nat, ghost total: nat, ghost k: nat, ghost src: nat, ghost dw: nat, ghost sw: nat,
                    ghost words: nat)
    requires mem.Length == 8 * words && len == 2 * half + 1 && total == 8 * len
    requires dst + total <= mem.Length && src + total <= mem.Length && UpwardSafe(dst, src, total)
    requires Shifts(sh1, sh2, k) && dst == 8 * dw && s + k == src && s == 8 * sw
    requires Bytes(a0)[k..] == mem[src..s + 8]
    modifies mem
    ensures mem[..] == Copy(old(mem[..]), dst, src, total)
  {
    ghost var p', q', rest := src + 8, s + 16, total - 8;
    var a1 := MergeOneUp(mem, dst, s, a0, sh1, sh2, k, src, s + 8, p', q', total, dw, sw, words);
    if len == 1 {
      return;
    }
    var d := dst + 8;
    JoinUpTo(old(mem[..]), dst, src, 8, d, p', rest, total);
    MergePairsUp(mem, d, s + 8, len - 1, a1, sh1, sh2, k, p', q', half, rest, dw + 1, sw + 1, words);
  }

  /** All words, given the first source word and the shift amounts: an odd word, then pairs. */
  method MergeAllUp(mem: array<bv8>, dst: nat, s: nat, len: nat, odd: bool, a0: bv64, sh1: nat, sh2: nat,
                    ghost half: nat, ghost total: nat, ghost k: nat, ghost src: nat, ghost dw: nat, ghost sw: nat,
                    ghost words: nat)
    requires mem.Length == 8 * words && len >= 1 && len == 2 * half + (if odd then 1 else 0) && total == 8 * len
    requires dst + total <= mem.Length && src + total <= mem.Length && UpwardSafe(dst, src, total)
    requires Shifts(sh1, sh2, k) && dst == 8 * dw && s + k == src && s == 8 * sw
    requires Bytes(a0)[k..] == mem[src..s + 8]
    modifies mem
    ensures mem[..] == Copy(old(mem[..]), dst, src, total)
  {
    if odd {
      MergeOddUp(mem, dst, s, len, a0, sh1, sh2, half, total, k, src, dw, sw, words);
    } else {
      MergePairsUp(mem, dst, s, len, a0, sh1, sh2, k, src, s + 8, half, total, dw, sw, words);
    }
  }

  // ---- downwards ---------------------------------------------------------------------------

  /** Loads the aligned word at `q`, below what has been written; `p` cuts it. */
  method LoadBelow(mem: array<bv8>, q: nat, ghost p: nat, ghost q': nat, ghost before: seq<bv8>,
                   ghost d: nat, ghost s: nat, ghost done: nat, ghost word: nat) returns (w: bv64)
    requires |before| == mem.Length && s <= d && d + done <= mem.Length && mem[..] == Copy(before, d, s, done)
    requires q == 8 * word && q < p && q' == q + 8 && p < q' && q' <= d
    ensures Bytes(w)[p - q..] == before[p..q'] && Bytes(w)[..p - q] == before[q..p]
  {
    w := LoadWord(mem, q, word);
    SourceDown(before, d, s, done, q, q');
    ghost var window := mem[q..q'];
    assert window == mem[..][q..q'];
  }

  /** Merges two source words and stores the result as the next destination word from the top. */
  method MergeStoreDown(mem: array<bv8>, d: nat, w0: bv64, sh1: nat, w1: bv64, sh2: nat, ghost k: nat,
                        ghost p: nat, ghost q: nat, ghost p': nat, ghost before: seq<bv8>, ghost done: nat, ghost dw: nat)
    requires |before| == mem.Length && p <= d && d + 8 + done <= mem.Length && d == 8 * dw
    requires Shifts(sh1, sh2, k) && q + k == p' == p + 8
    requires mem[..] == Copy(before, d + 8, p', done)
    requires Bytes(w0)[k..] == before[p..q] && Bytes(w1)[..k] == before[q..p']
    modifies mem
    ensures mem[..] == Copy(before, d, p, done + 8)
  {
    var w := Merge(w0, sh1, w1, sh2, k);
    assert Bytes(w) == before[p..p'];
    StoreDown(mem, d, w, before, p, done, dw, p', done + 8);
  }

  /** Two destination words, from the top, from three source words, the last of which is carried. */
  method MergePairDown(mem: array<bv8>, d: nat, s: nat, a2: bv64, sh1: nat, sh2: nat, ghost k: nat,
                       ghost p0: nat, ghost p2: nat, ghost q1: nat, ghost before: seq<bv8>,
                       ghost done: nat, ghost dw: nat, ghost sw: nat) returns (a0: bv64)
    requires |before| == mem.Length && p0 <= d && d + 16 + done <= mem.Length && d == 8 * dw
    requires Shifts(sh1, sh2, k) && s + k == p0 && s == 8 * sw && p2 == p0 + 16 && q1 == s + 16
    requires mem[..] == Copy(before, d + 16, p2, done)
    requires Bytes(a2)[..k] == before[q1..p2]
    modifies mem
    ensures mem[..] == Copy(before, d, p0, done + 16)
    ensures Bytes(a0)[..k] == before[s..p0]
  {
    ghost var p1, q0 := p0 + 8, s + 8;
    var a1 := LoadBelow(mem, s + 8, p1, q1, before, d + 16, p2, done, sw + 1);
    a0 := LoadBelow(mem, s, p0, q0, before, d + 16, p2, done, sw);
    MergeStoreDown(mem, d + 8, a1, sh1, a2, sh2, k, p1, q1, p2, before, done, dw + 1);
    MergeStoreDown(mem, d, a0, sh1, a1, sh2, k, p0, q0, p1, before, done + 8, dw);
  }

  /** The unrolled loop, from the top. */
  method MergePairsDown(mem: array<bv8>, dstEnd: nat, sEnd: nat, len: nat, last: bv64, sh1: nat, sh2: nat, ghost k: nat,
                        ghost srcEnd: nat, ghost pairs: nat, ghost total: nat, ghost dst: nat, ghost src: nat, ghost dw: nat, ghost sw: nat)
    requires src <= dst && dst + total == dstEnd <= mem.Length && src + total == srcEnd && sEnd + k == srcEnd
    requires len == 2 * pairs && total == 16 * pairs && Shifts(sh1, sh2, k) && dstEnd == 8 * dw && sEnd == 8 * sw && sw >= 2 * pairs
    requires Bytes(last)[..k] == mem[sEnd..srcEnd]
    modifies mem
    ensures mem[..] == Copy(old(mem[..]), dst, src, total)
  {
    ghost var before := mem[..];
    ghost var left, done, dk, sk, p := pairs, 0, dw, sw, srcEnd;
    var a2, d, s, n := last, dstEnd, sEnd, len;
    while n != 0
      invariant left >= 0 && n == 2 * left && done >= 0 && total - done == 16 * left
      invariant d + done == dstEnd && p + done == srcEnd && s + k == p && d == 8 * dk && s == 8 * sk && sk >= 2 * left
      invariant mem[..] == Copy(before, d, p, done)
      invariant Bytes(a2)[..k] == before[s..p]
      decreases left
    {
      assert left >= 1 && n >= 2 && s >= 16 && d >= 16 && p >= 16;
      ghost var q1, p0 := s, p - 16;
      s := s - 16;
      d := d - 16;
      dk, sk := dk - 2, sk - 2;
      a2 := MergePairDown(mem, d, s, a2, sh1, sh2, k, p0, p, q1, before, done, dk, sk);
      n := n - 2;
      left, done, p := left - 1, done + 16, p0;
    }
    assert done == total && d == dst && p == src;
  }

  /** The topmost destination word alone; the first source word is handed on. */
  method MergeOneDown(mem: array<bv8>, d: nat, s: nat, a2: bv64, sh1: nat, sh2: nat, ghost k: nat,
                      ghost p: nat, ghost q: nat, ghost p': nat, ghost dw: nat, ghost sw: nat) returns (a1: bv64)
    requires p <= d && d + 8 <= mem.Length && d == 8 * dw && Shifts(sh1, sh2, k)
    requires s + k == p && s == 8 * sw && q == s + 8 && p' == p + 8
    requires Bytes(a2)[..k] == mem[q..p']
    modifies mem
    ensures mem[..] == Copy(old(mem[..]), d, p, 8)
    ensures Bytes(a1)[..k] == mem[s..p]
  {
    ghost var before := mem[..];
    a1 := LoadBelow(mem, s, p, q, before, d + 8, p', 0, sw);
    MergeStoreDown(mem, d, a1, sh1, a2, sh2, k, p, q, p', before, 0, dw);
    SourceDown(before, d, p, 8, s, p);
  }

  /** An odd number of words from the top: one word, then pairs. */
  method MergeOddDown(mem: array<bv8>, dstEnd: nat, sEnd: nat, len: nat, a2: bv64, sh1: nat, sh2: nat, ghost half: nat,
                      ghost total: nat, ghost k: nat, ghost srcEnd: nat, ghost dst: nat, ghost src: nat, ghost dw: nat,
                      ghost sw: nat)
    requires len == 2 * half + 1 && total == 8 * len && src <= dst && dstEnd <= mem.Length
    requires dstEnd == dst + total && srcEnd == src + total && sEnd + k == srcEnd
    requires Shifts(sh1, sh2, k) && dstEnd == 8 * dw && sEnd == 8 * sw && sw >= len
    requires Bytes(a2)[..k] == mem[sEnd..srcEnd]
    modifies mem
    ensures mem[..] == Copy(old(mem[..]), dst, src, total)
  {
    var d, s := dstEnd - 8, sEnd - 8;
    ghost var p, rest := srcEnd - 8, total - 8;
    var a1 := MergeOneDown(mem, d, s, a2, sh1, sh2, k, p, sEnd, srcEnd, dw - 1, sw - 1);
    if len == 1 {
      return;
    }
    JoinDownTo(old(mem[..]), dst, src, rest, d, p, 8, total);
    MergePairsDown(mem, d, s, len - 1, a1, sh1, sh2, k, p, half, rest, dst, src, dw - 1, sw - 1);
  }

  /** All words from the top, given the last source word and the shift amounts. */
  method MergeAllDown(mem: array<bv8>, dstEnd: nat, sEnd: nat, len: nat, odd: bool, a2: bv64, sh1: nat, sh2: nat,
                      ghost half: nat,
                      ghost total: nat, ghost k: nat, ghost srcEnd: nat, ghost dst: nat, ghost src: nat, ghost dw: nat, ghost sw: nat)
    requires len >= 1 && len == 2 * half + (if odd then 1 else 0) && total == 8 * len && src <= dst && dstEnd <= mem.Length
    requires dstEnd == dst + total && srcEnd == src + total && sEnd + k == srcEnd
    requires Shifts(sh1, sh2, k) && dstEnd == 8 * dw && sEnd == 8 * sw && sw >= len
    requires Bytes(a2)[..k] == mem[sEnd..srcEnd]
    modifies mem
    ensures mem[..] == Copy(old(mem[..]), dst, src, total)
  {
    if odd {
      MergeOddDown(mem, dstEnd, sEnd, len, a2, sh1, sh2, half, total, k, srcEnd, dst, src, dw, sw);
    } else {
      MergePairsDown(mem, dstEnd, sEnd, len, a2, sh1, sh2, k, srcEnd, half, total, dst, src, dw, sw);
    }
  }

  /** Copies the `len` words that end at `srcEnd` to where they end at `dstEnd`, last word first. */
  method WordCopyBwdDestAligned(mem: array<bv8>, dstEnd: nat, srcEnd: nat, len: nat, ghost dst: nat, ghost src: nat,
                                ghost k: nat, ghost dw: nat, ghost sw: nat, ghost words: nat)
    requires mem.Length == 8 * words && len >= 1 && src <= dst && dstEnd <= mem.Length
    requires dstEnd == dst + 8 * len && srcEnd == src + 8 * len
    requires dstEnd == 8 * dw && srcEnd == 8 * sw + k && 1 <= k < 8
    modifies mem
    ensures mem[..] == Copy(old(mem[..]), dst, src, 8 * len)
  {
    OffsetInWord(srcEnd, sw, k);
    var sh1 := 8 * (srcEnd % 8);
    var sh2 := 64 - sh1;
    var s := srcEnd - srcEnd % 8;
    WordRoom(sw, words, srcEnd);
    var a2 := LoadWord(mem, s, sw);
    assert Bytes(a2)[..k] == mem[s..srcEnd];
    MergeAllDown(mem, dstEnd, s, len, len % 2 == 1, a2, sh1, sh2, len / 2, 8 * len, k, srcEnd, dst, src, dw, sw);
  }
}
