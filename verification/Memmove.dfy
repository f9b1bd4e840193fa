/** memcpy and memmove over byte memory: whatever the lengths, overlaps and misalignments, the
    destination receives the original source bytes and nothing else changes. */
module Memmove {
  import opened Memcopy
  import opened MergeCopy

  const OP_T_THRES: nat := 16
  const ADDRESS_LIMIT: nat := 0x1_0000_0000_0000_0000

  /** The memory is made of whole words, and every address fits a 64-bit integer. */
  ghost predicate Memory(length: nat)
  {
    length % 8 == 0 && length <= ADDRESS_LIMIT
  }

  /** Unsigned 64-bit subtraction. */
  function Minus(a: nat, b: nat): int
  {
    if a >= b then a - b else a - b + ADDRESS_LIMIT
  }

  lemma Quotients(x: nat)
    ensures x == 8 * (x / 8) + x % 8 && 0 <= x % 8 < 8
  {
  }

  /** The whole words of an upward copy to an aligned destination. */
  method WordCopyFwd(mem: array<bv8>, dst: nat, src: nat, nbytes: nat)
    requires Memory(mem.Length) && dst % 8 == 0 && nbytes >= 8
    requires dst + nbytes <= mem.Length && src + nbytes <= mem.Length && UpwardSafe(dst, src, nbytes)
    modifies mem
    ensures mem[..] == Copy(old(mem[..]), dst, src, nbytes - nbytes % 8)
  {
    Quotients(dst);
    Quotients(src);
    Quotients(nbytes);
    Quotients(mem.Length);
    if src % 8 == 0 {
      WordCopyFwdAligned(mem, dst, src, nbytes / 8, dst / 8, src / 8);
    } else {
      WordCopyFwdDestAligned(mem, dst, src, nbytes / 8, src % 8, dst / 8, src / 8, mem.Length / 8);
    }
  }

  /** The whole words of a downward copy to where they end at an aligned address. */
  method WordCopyBwd(mem: array<bv8>, dstEnd: nat, srcEnd: nat, nbytes: nat, ghost words: nat, ghost dst: nat,
                     ghost src: nat)
    requires Memory(mem.Length) && dstEnd % 8 == 0 && words == nbytes - nbytes % 8 && words >= 8
    requires dstEnd == dst + words && srcEnd == src + words && src <= dst && dstEnd <= mem.Length
    modifies mem
    ensures mem[..] == Copy(old(mem[..]), dst, src, words)
  {
    Quotients(dstEnd);
    Quotients(srcEnd);
    Quotients(nbytes);
    Quotients(mem.Length);
    if srcEnd % 8 == 0 {
      WordCopyBwdAligned(mem, dstEnd, srcEnd, nbytes / 8, dst, src, dstEnd / 8 - nbytes / 8, srcEnd / 8 - nbytes / 8);
    } else {
      WordCopyBwdDestAligned(mem, dstEnd, srcEnd, nbytes / 8, dst, src, srcEnd % 8, dstEnd / 8, srcEnd / 8,
                             mem.Length / 8);
    }
  }

  /** Bytes up to the next aligned destination address. */
  function Prologue(dst: nat): (r: nat)
    ensures r < 8 && (dst + r) % 8 == 0
  {
    (8 - dst % 8) % 8
  }

  /** The bytes before the first aligned destination address, then whole words. */
  method MoveUpWords(mem: array<bv8>, dest: nat, src: nat, length: nat) returns (left: nat)
    requires Memory(mem.Length) && length >= OP_T_THRES
    requires dest + length <= mem.Length && src + length <= mem.Length && UpwardSafe(dest, src, length)
    modifies mem
    ensures left <= length && mem[..] == Copy(old(mem[..]), dest, src, length - left)
  {
    var a := Prologue(dest);
    var rest := length - a;
    ByteCopyFwd(mem, dest, src, a);
    var d, s, words := dest + a, src + a, rest - rest % 8;
    left := rest % 8;
    JoinUpTo(old(mem[..]), dest, src, a, d, s, words, length - left);
    WordCopyFwd(mem, d, s, rest);
  }

  method Memcpy(mem: array<bv8>, dest: nat, src: nat, length: nat) returns (r: nat)
    requires Memory(mem.Length) && dest + length <= mem.Length && src + length <= mem.Length
    requires UpwardSafe(dest, src, length)
    modifies mem
    ensures mem[..] == Copy(old(mem[..]), dest, src, length) && r == dest
  {
    var left := length;
    if length >= OP_T_THRES {
      left := MoveUpWords(mem, dest, src, length);
    }
    var done := length - left;
    var d, s := dest + done, src + done;
    JoinUpTo(old(mem[..]), dest, src, done, d, s, left, length);
    ByteCopyFwd(mem, d, s, left);
    r := dest;
  }

  method Memmove(mem: array<bv8>, dest: nat, src: nat, length: nat) returns (r: nat)
    requires Memory(mem.Length) && dest + length <= mem.Length && src + length <= mem.Length
    modifies mem
    ensures mem[..] == Copy(old(mem[..]), dest, src, length) && r == dest
  {
    if Minus(dest, src) >= length {
      r := Memcpy(mem, dest, src, length);
    } else {
      MoveDown(mem, dest, src, length);
      r := dest;
    }
  }

  /** The bytes above the last aligned destination address, then whole words. */
  method MoveDownWords(mem: array<bv8>, dest: nat, src: nat, length: nat) returns (left: nat)
    requires Memory(mem.Length) && OP_T_THRES <= length && src <= dest && dest + length <= mem.Length
    modifies mem
    ensures left <= length && mem[..] == Copy(old(mem[..]), dest + left, src + left, length - left)
  {
    var dEnd, sEnd := dest + length, src + length;
    var a := dEnd % 8;
    var rest := length - a;
    ByteCopyBwd(mem, dEnd, sEnd, a);
    var d, s, words := dEnd - a, sEnd - a, rest - rest % 8;
    left := rest % 8;
    ghost var dst, origin, done := dest + left, src + left, length - left;
    JoinDownTo(old(mem[..]), dst, origin, words, d, s, a, done);
    WordCopyBwd(mem, d, s, rest, words, dst, origin);
  }

  /** The backward path: the source begins at or below the destination. */
  method MoveDown(mem: array<bv8>, dest: nat, src: nat, length: nat)
    requires Memory(mem.Length) && dest + length <= mem.Length && src <= dest
    modifies mem
    ensures mem[..] == Copy(old(mem[..]), dest, src, length)
  {
    ghost var before := mem[..];
    var left := length;
    if length >= OP_T_THRES {
      left := MoveDownWords(mem, dest, src, length);
    }
    var d, s := dest + left, src + left;
    ghost var done := length - left;
    JoinDownTo(before, dest, src, left, d, s, done, length);
    ByteCopyBwd(mem, d, s, left);
  }
}
