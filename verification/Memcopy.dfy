/** The copy loops under memcpy and memmove: byte loops, aligned word loops unrolled twice, and
    the loops that merge pairs of aligned words when source and destination are not congruent. */
module Memcopy {
  import opened Words

  /** Where byte `i` comes from after `n` bytes have been copied from `src` to `dst`. */
  function Origin(dst: nat, src: nat, n: nat, i: nat): nat
  {
    if dst <= i < dst + n then src + (i - dst) else i
  }

  /** Memory after `n` bytes have been copied from `src` to `dst` as if through a buffer. */
  function Copy(m: seq<bv8>, dst: nat, src: nat, n: nat): (r: seq<bv8>)
    requires dst + n <= |m| && src + n <= |m|
    ensures |r| == |m|
  {
    if n == 0 then m else Copy(m, dst, src, n - 1)[dst + n - 1 := m[src + n - 1]]
  }

  lemma {:induction false} CopyAt(m: seq<bv8>, dst: nat, src: nat, n: nat)
    requires dst + n <= |m| && src + n <= |m|
    ensures forall i {:trigger Copy(m, dst, src, n)[i]} :: 0 <= i < |m| ==>
              Copy(m, dst, src, n)[i] == m[Origin(dst, src, n, i)]
  {
    if n > 0 { CopyAt(m, dst, src, n - 1); }
  }

  /** The same in one expression. */
  lemma CopyIsSplice(m: seq<bv8>, dst: nat, src: nat, n: nat)
    requires dst + n <= |m| && src + n <= |m|
    ensures Copy(m, dst, src, n) == m[..dst] + m[src..src + n] + m[dst + n..]
  {
    CopyAt(m, dst, src, n);
  }

  lemma {:induction false} CopySelf(m: seq<bv8>, p: nat, n: nat)
    requires p + n <= |m|
    ensures Copy(m, p, p, n) == m
  {
    CopyAt(m, p, p, n);
  }

  lemma CopyInside(m: seq<bv8>, dst: nat, src: nat, n: nat)
    requires dst + n <= |m| && src + n <= |m|
    ensures Copy(m, dst, src, n)[dst..dst + n] == m[src..src + n]
  {
    CopyAt(m, dst, src, n);
  }

  /** Copying upwards never reads a byte it has overwritten. */
  predicate UpwardSafe(dst: nat, src: nat, n: nat)
  {
    dst <= src || src + n <= dst
  }

  /** Storing the next piece of the source extends a copy upwards. */
  lemma ExtendUp(m: seq<bv8>, dst: nat, src: nat, done: nat, piece: seq<bv8>)
    requires dst + done + |piece| <= |m| && src + done + |piece| <= |m|
    requires piece == m[src + done..src + done + |piece|]
    ensures Spliced(Copy(m, dst, src, done), dst + done, piece) == Copy(m, dst, src, done + |piece|)
  {
    CopyAt(m, dst, src, done);
    CopyAt(m, dst, src, done + |piece|);
  }

  /** Storing the previous piece of the source extends a copy downwards. */
  lemma ExtendDown(m: seq<bv8>, dst: nat, src: nat, done: nat, piece: seq<bv8>)
    requires dst + |piece| + done <= |m| && src + |piece| + done <= |m|
    requires piece == m[src..src + |piece|]
    ensures Spliced(Copy(m, dst + |piece|, src + |piece|, done), dst, piece) == Copy(m, dst, src, done + |piece|)
  {
    var cur, next := Copy(m, dst + |piece|, src + |piece|, done), Copy(m, dst, src, done + |piece|);
    CopyAt(m, dst + |piece|, src + |piece|, done);
    CopyAt(m, dst, src, done + |piece|);
    forall i | 0 <= i < |m| ensures Spliced(cur, dst, piece)[i] == next[i] {
      assert dst <= i < dst + |piece| ==> piece[i - dst] == m[src + (i - dst)];
    }
  }

  /** Two upward copies, one behind the other, are one copy. */
  lemma JoinUp(m: seq<bv8>, dst: nat, src: nat, a: nat, b: nat)
    requires dst + a + b <= |m| && src + a + b <= |m| && UpwardSafe(dst, src, a + b)
    ensures Copy(Copy(m, dst, src, a), dst + a, src + a, b) == Copy(m, dst, src, a + b)
  {
    CopyAt(m, dst, src, a);
    CopyAt(Copy(m, dst, src, a), dst + a, src + a, b);
    CopyAt(m, dst, src, a + b);
  }

  /** The same with names for the ends. */
  lemma JoinUpTo(m: seq<bv8>, dst: nat, src: nat, a: nat, dst': nat, src': nat, b: nat, total: nat)
    requires dst' == dst + a && src' == src + a && total == a + b
    requires dst + total <= |m| && src + total <= |m| && UpwardSafe(dst, src, total)
    ensures Copy(Copy(m, dst, src, a), dst', src', b) == Copy(m, dst, src, total)
  {
    JoinUp(m, dst, src, a, b);
  }

  lemma JoinDownTo(m: seq<bv8>, dst: nat, src: nat, a: nat, dst': nat, src': nat, b: nat, total: nat)
    requires dst' == dst + a && src' == src + a && total == a + b && dst + total <= |m| && src <= dst
    ensures Copy(Copy(m, dst', src', b), dst, src, a) == Copy(m, dst, src, total)
  {
    JoinDown(m, dst, src, a, b);
  }

  /** Two downward copies, one below the other, are one copy. */
  lemma JoinDown(m: seq<bv8>, dst: nat, src: nat, a: nat, b: nat)
    requires dst + a + b <= |m| && src <= dst
    ensures Copy(Copy(m, dst + a, src + a, b), dst, src, a) == Copy(m, dst, src, a + b)
  {
    CopyAt(m, dst + a, src + a, b);
    CopyAt(Copy(m, dst + a, src + a, b), dst, src, a);
    CopyAt(m, dst, src, a + b);
  }

  /** What an upward copy has still to read holds its original bytes. */
  lemma SourceUp(m: seq<bv8>, dst: nat, src: nat, done: nat, total: nat, from: nat, to: nat)
    requires dst + done <= |m| && src + done <= |m| && done <= total && UpwardSafe(dst, src, total)
    requires src + done <= from <= to <= src + total && to <= |m|
    ensures Copy(m, dst, src, done)[from..to] == m[from..to]
  {
    CopyAt(m, dst, src, done);
  }

  /** Below the part already written, a downward copy has changed nothing. */
  lemma SourceDown(m: seq<bv8>, dst: nat, src: nat, done: nat, from: nat, to: nat)
    requires dst + done <= |m| && src + done <= |m| && from <= to <= dst
    ensures Copy(m, dst, src, done)[from..to] == m[from..to]
  {
    CopyAt(m, dst, src, done);
  }

  // ---- byte loops --------------------------------------------------------------------------

  method CopyByteUp(mem: array<bv8>, d: nat, s: nat, ghost before: seq<bv8>, ghost dst: nat, ghost src: nat,
                    ghost done: nat, ghost total: nat)
    requires |before| == mem.Length && dst + total <= mem.Length && src + total <= mem.Length
    requires d == dst + done && s == src + done && done < total
    requires mem[..] == Copy(before, dst, src, done) && UpwardSafe(dst, src, total)
    modifies mem
    ensures mem[..] == Copy(before, dst, src, done + 1)
  {
    ghost var cur := mem[..];
    SourceUp(before, dst, src, done, total, s, s + 1);
    assert [mem[s]] == cur[s..s + 1];
    ghost var x := mem[s];
    mem[d] := mem[s];
    assert mem[..] == Spliced(cur, d, [x]);
    ExtendUp(before, dst, src, done, [x]);
  }

  method ByteCopyFwd(mem: array<bv8>, dst: nat, src: nat, n: nat)
    requires dst + n <= mem.Length && src + n <= mem.Length && UpwardSafe(dst, src, n)
    modifies mem
    ensures mem[..] == Copy(old(mem[..]), dst, src, n)
  {
    ghost var before, done := mem[..], 0;
    var nbytes, d, s := n, dst, src;
    while nbytes > 0
      invariant 0 <= nbytes <= n && done == n - nbytes && d == dst + done && s == src + done
      invariant mem[..] == Copy(before, dst, src, done)
    {
      CopyByteUp(mem, d, s, before, dst, src, done, n);
      d, s, nbytes, done := d + 1, s + 1, nbytes - 1, done + 1;
    }
  }

  method CopyByteDown(mem: array<bv8>, d: nat, s: nat, ghost before: seq<bv8>, ghost done: nat)
    requires |before| == mem.Length && s <= d && d + 1 + done <= mem.Length
    requires mem[..] == Copy(before, d + 1, s + 1, done)
    modifies mem
    ensures mem[..] == Copy(before, d, s, done + 1)
  {
    ghost var cur := mem[..];
    SourceDown(before, d + 1, s + 1, done, s, s + 1);
    assert [mem[s]] == cur[s..s + 1];
    ghost var x := mem[s];
    mem[d] := mem[s];
    assert mem[..] == Spliced(cur, d, [x]);
    ExtendDown(before, d, s, done, [x]);
  }

  /** Copies the `n` bytes that end at `srcEnd` to where they end at `dstEnd`, last byte first. */
  method ByteCopyBwd(mem: array<bv8>, dstEnd: nat, srcEnd: nat, n: nat)
    requires n <= srcEnd <= dstEnd <= mem.Length
    modifies mem
    ensures mem[..] == Copy(old(mem[..]), dstEnd - n, srcEnd - n, n)
  {
    ghost var before, done := mem[..], 0;
    var nbytes, d, s := n, dstEnd, srcEnd;
    while nbytes > 0
      invariant 0 <= nbytes <= n && done == n - nbytes && d == dstEnd - done && s == srcEnd - done
      invariant mem[..] == Copy(before, d, s, done)
    {
      d, s, nbytes := d - 1, s - 1, nbytes - 1;
      CopyByteDown(mem, d, s, before, done);
      done := done + 1;
    }
  }

  // ---- aligned words -----------------------------------------------------------------------

  /** Loads a word that an upward copy has still to read. */
  method LoadUp(mem: array<bv8>, s: nat, ghost end: nat, ghost before: seq<bv8>, ghost dst: nat, ghost src: nat,
                ghost done: nat, ghost total: nat, ghost sw: nat) returns (w: bv64)
    requires |before| == mem.Length && dst + total <= mem.Length && src + total <= mem.Length && UpwardSafe(dst, src, total)
    requires s == 8 * sw && end == s + 8 && src + done <= s && end <= src + total && done <= total
    requires mem[..] == Copy(before, dst, src, done)
    ensures Bytes(w) == before[s..end]
  {
    SourceUp(before, dst, src, done, total, s, end);
    w := LoadWord(mem, s, sw);
    assert mem[s..end] == mem[..][s..end];
  }

  /** Stores the next word of an upward copy. */
  method StoreUp(mem: array<bv8>, at: nat, w: bv64, ghost before: seq<bv8>, ghost dst: nat, ghost src: nat,
                 ghost done: nat, ghost dw: nat, ghost from: nat, ghost to: nat, ghost more: nat)
    requires at == 8 * dw && |before| == mem.Length && at == dst + done && at + 8 <= mem.Length
    requires from == src + done && to == from + 8 <= mem.Length && more == done + 8
    requires mem[..] == Copy(before, dst, src, done)
    requires Bytes(w) == before[from..to]
    modifies mem
    ensures mem[..] == Copy(before, dst, src, more)
  {
    StoreWord(mem, at, w, dw);
    ExtendUp(before, dst, src, done, Bytes(w));
  }

  /** Loads a word below the part a downward copy has written. */
  method LoadDown(mem: array<bv8>, s: nat, ghost end: nat, ghost before: seq<bv8>, ghost dst: nat, ghost src: nat,
                  ghost done: nat, ghost sw: nat) returns (w: bv64)
    requires |before| == mem.Length && dst + done <= mem.Length && src + done <= mem.Length
    requires s == 8 * sw && end == s + 8 <= dst && mem[..] == Copy(before, dst, src, done)
    ensures Bytes(w) == before[s..end]
  {
    SourceDown(before, dst, src, done, s, end);
    w := LoadWord(mem, s, sw);
    assert mem[s..end] == mem[..][s..end];
  }

  /** Stores the next word, from the top, of a downward copy. */
  method StoreDown(mem: array<bv8>, at: nat, w: bv64, ghost before: seq<bv8>, ghost src: nat, ghost done: nat,
                   ghost dw: nat, ghost end: nat, ghost more: nat)
    requires at == 8 * dw && |before| == mem.Length && at + more <= mem.Length && src + more <= mem.Length
    requires end == src + 8 && more == done + 8
    requires mem[..] == Copy(before, at + 8, end, done)
    requires Bytes(w) == before[src..end]
    modifies mem
    ensures mem[..] == Copy(before, at, src, more)
  {
    StoreWord(mem, at, w, dw);
    ExtendDown(before, at, src, done, Bytes(w));
  }

  method CopyWordUp(mem: array<bv8>, d: nat, s: nat, ghost before: seq<bv8>, ghost dst: nat, ghost src: nat,
                    ghost done: nat, ghost total: nat,
                    ghost dw: nat, ghost sw: nat)
    requires d == 8 * dw && s == 8 * sw
    requires |before| == mem.Length && dst + total <= mem.Length && src + total <= mem.Length
    requires d == dst + done && s == src + done && done + 8 <= total
    requires mem[..] == Copy(before, dst, src, done) && UpwardSafe(dst, src, total)
    modifies mem
    ensures mem[..] == Copy(before, dst, src, done + 8)
  {
    var a := LoadUp(mem, s, s + 8, before, dst, src, done, total, sw);
    StoreUp(mem, d, a, before, dst, src, done, dw, s, s + 8, done + 8);
  }

  /** Copies two words upwards; both are loaded before either is stored. */
  method CopyPairUp(mem: array<bv8>, d: nat, s: nat, ghost before: seq<bv8>, ghost dst: nat, ghost src: nat,
                    ghost done: nat, ghost total: nat,
                    ghost dw: nat, ghost sw: nat)
    requires d == 8 * dw && s == 8 * sw
    requires |before| == mem.Length && dst + total <= mem.Length && src + total <= mem.Length
    requires d == dst + done && s == src + done && done + 16 <= total
    requires mem[..] == Copy(before, dst, src, done) && UpwardSafe(dst, src, total)
    modifies mem
    ensures mem[..] == Copy(before, dst, src, done + 16)
  {
    ghost var mid, end, half := s + 8, s + 16, done + 8;
    var a0 := LoadUp(mem, s, mid, before, dst, src, done, total, sw);
    var a1 := LoadUp(mem, s + 8, end, before, dst, src, done, total, sw + 1);
    StoreUp(mem, d, a0, before, dst, src, done, dw, s, mid, half);
    StoreUp(mem, d + 8, a1, before, dst, src, half, dw + 1, mid, end, done + 16);
  }

  /** The unrolled loop over an even number of words. */
  method CopyPairsUp(mem: array<bv8>, dst: nat, src: nat, from: nat, len: nat, ghost before: seq<bv8>,
                     ghost pairs: nat, ghost dw: nat, ghost sw: nat)
    requires |before| == mem.Length && dst + from + 16 * pairs <= mem.Length && src + from + 16 * pairs <= mem.Length
    requires len == 2 * pairs && dst + from == 8 * dw && src + from == 8 * sw
    requires mem[..] == Copy(before, dst, src, from) && UpwardSafe(dst, src, from + 16 * pairs)
    modifies mem
    ensures mem[..] == Copy(before, dst, src, from + 16 * pairs)
  {
    ghost var left, done, total := pairs, from, from + 16 * pairs;
    ghost var dk, sk := dw, sw;
    var d, s, n := dst + from, src + from, len;
    while n != 0
      invariant left >= 0 && n == 2 * left && from <= done && total - done == 16 * left
      invariant d == dst + done && s == src + done && d == 8 * dk && s == 8 * sk && dk >= 0 && sk >= 0
      invariant mem[..] == Copy(before, dst, src, done)
      decreases left
    {
      CopyPairUp(mem, d, s, before, dst, src, done, total, dk, sk);
      s := s + 16;
      d := d + 16;
      n := n - 2;
      left, done, dk, sk := left - 1, done + 16, dk + 2, sk + 2;
    }
  }

  /** An odd word first, then pairs of words. */
  method WordCopyFwdAligned(mem: array<bv8>, dst: nat, src: nat, len: nat, ghost dw: nat, ghost sw: nat)
    requires len >= 1 && dst + 8 * len <= mem.Length && src + 8 * len <= mem.Length
    requires UpwardSafe(dst, src, 8 * len) && dst == 8 * dw && src == 8 * sw
    modifies mem
    ensures mem[..] == Copy(old(mem[..]), dst, src, 8 * len)
  {
    ghost var before, half, total := mem[..], len / 2, 8 * len;
    if len % 2 == 1 {
      assert total == 8 + 16 * half;
      CopyWordUp(mem, dst, src, before, dst, src, 0, total, dw, sw);
      if len == 1 {
        return;
      }
      CopyPairsUp(mem, dst, src, 8, len - 1, before, half, dw + 1, sw + 1);
    } else {
      assert total == 16 * half;
      CopyPairsUp(mem, dst, src, 0, len, before, half, dw, sw);
    }
  }

  method CopyWordDown(mem: array<bv8>, d: nat, s: nat, ghost before: seq<bv8>, ghost done: nat, ghost dw: nat,
                      ghost sw: nat)
    requires d == 8 * dw && s == 8 * sw
    requires |before| == mem.Length && s <= d && d + 8 + done <= mem.Length
    requires mem[..] == Copy(before, d + 8, s + 8, done)
    modifies mem
    ensures mem[..] == Copy(before, d, s, done + 8)
  {
    ghost var end := s + 8;
    var a := LoadDown(mem, s, end, before, d + 8, end, done, sw);
    StoreDown(mem, d, a, before, s, done, dw, end, done + 8);
  }

  /** Copies the two words below `s` and `d` downwards. */
  method CopyPairDown(mem: array<bv8>, d: nat, s: nat, ghost before: seq<bv8>, ghost done: nat, ghost dw: nat,
                      ghost sw: nat)
    requires d == 8 * dw && s == 8 * sw
    requires |before| == mem.Length && s <= d && d + 16 + done <= mem.Length
    requires mem[..] == Copy(before, d + 16, s + 16, done)
    modifies mem
    ensures mem[..] == Copy(before, d, s, done + 16)
  {
    ghost var mid, end, dEnd, half := s + 8, s + 16, d + 16, done + 8;
    var a1 := LoadDown(mem, s + 8, end, before, dEnd, end, done, sw + 1);
    var a0 := LoadDown(mem, s, mid, before, dEnd, end, done, sw);
    StoreDown(mem, d + 8, a1, before, mid, done, dw + 1, end, half);
    StoreDown(mem, d, a0, before, s, half, dw, mid, done + 16);
  }

  /** The unrolled loop over an even number of words, from the top. */
  method CopyPairsDown(mem: array<bv8>, dstEnd: nat, srcEnd: nat, len: nat, ghost before: seq<bv8>,
                       ghost from: nat, ghost pairs: nat,
                       ghost dst: nat, ghost src: nat, ghost dw: nat, ghost sw: nat)
    requires |before| == mem.Length && src <= dst && dst + 16 * pairs + from <= mem.Length
    requires dstEnd == dst + 16 * pairs && srcEnd == src + 16 * pairs
    requires len == 2 * pairs && dst == 8 * dw && src == 8 * sw
    requires mem[..] == Copy(before, dstEnd, srcEnd, from)
    modifies mem
    ensures mem[..] == Copy(before, dst, src, from + 16 * pairs)
  {
    ghost var left, done := pairs, from;
    ghost var dk, sk := dw + 2 * pairs, sw + 2 * pairs;
    var d, s, n := dstEnd, srcEnd, len;
    while n != 0
      invariant left >= 0 && n == 2 * left && done >= 0 && done + 16 * left == from + 16 * pairs
      invariant d == dst + 16 * left && s == src + 16 * left && d == 8 * dk && s == 8 * sk
      invariant mem[..] == Copy(before, d, s, done)
      decreases left
    {
      s := s - 16;
      d := d - 16;
      dk, sk := dk - 2, sk - 2;
      CopyPairDown(mem, d, s, before, done, dk, sk);
      n := n - 2;
      left, done := left - 1, done + 16;
    }
  }

  /** Copies the single word below `dstEnd` and `srcEnd`. */
  method FirstWordDown(mem: array<bv8>, d: nat, s: nat, ghost dw: nat, ghost sw: nat)
    requires s <= d && d + 8 <= mem.Length && d == 8 * dw && s == 8 * sw
    modifies mem
    ensures mem[..] == Copy(old(mem[..]), d, s, 8)
  {
    CopyWordDown(mem, d, s, mem[..], 0, dw, sw);
  }

  /** All pairs of words of a downward copy. */
  method AllPairsDown(mem: array<bv8>, dstEnd: nat, srcEnd: nat, len: nat, ghost pairs: nat,
                      ghost dst: nat, ghost src: nat, ghost dw: nat, ghost sw: nat)
    requires src <= dst && dstEnd == dst + 16 * pairs && srcEnd == src + 16 * pairs && dstEnd <= mem.Length
    requires len == 2 * pairs && dst == 8 * dw && src == 8 * sw
    modifies mem
    ensures mem[..] == Copy(old(mem[..]), dst, src, 16 * pairs)
  {
    CopyPairsDown(mem, dstEnd, srcEnd, len, mem[..], 0, pairs, dst, src, dw, sw);
  }

  /** Copies the `len` words that end at `srcEnd` to where they end at `dstEnd`, last word first. */
  method WordCopyBwdAligned(mem: array<bv8>, dstEnd: nat, srcEnd: nat, len: nat,
                            ghost dst: nat, ghost src: nat, ghost dw: nat, ghost sw: nat)
    requires len >= 1 && dstEnd == dst + 8 * len && srcEnd == src + 8 * len && src <= dst && dstEnd <= mem.Length
    requires dst == 8 * dw && src == 8 * sw
    modifies mem
    ensures mem[..] == Copy(old(mem[..]), dst, src, 8 * len)
  {
    ghost var half, before := len / 2, mem[..];
    if len % 2 == 1 {
      var d, s, n := dstEnd - 8, srcEnd - 8, len - 1;
      assert n == 2 * half && d == dst + 16 * half && s == src + 16 * half;
      FirstWordDown(mem, d, s, dw + n, sw + n);
      if len == 1 {
        return;
      }
      JoinDown(before, dst, src, 16 * half, 8);
      AllPairsDown(mem, d, s, n, half, dst, src, dw, sw);
    } else {
      assert len == 2 * half;
      AllPairsDown(mem, dstEnd, srcEnd, len, half, dst, src, dw, sw);
    }
  }
}
