/** The byte-backed bitset under the buddy tree. Every range operation works a byte at a time
    with precomputed masks; each is proved against the plain per-bit reading of the bytes,
    the sequence of booleans `BitsOf`. */
module Bitset {
  import opened ByteBits

  // ---- the per-bit reading -----------------------------------------------------------------

  predicate Bit(s: seq<bv8>, k: nat)
    requires k < 8 * |s|
  {
    BitOf(s[k / 8], k % 8)
  }

  function ByteView(b: bv8, n: nat): (v: seq<bool>)
    requires n <= 8
    ensures |v| == n
  {
    if n == 0 then [] else ByteView(b, n - 1) + [BitOf(b, n - 1)]
  }

  /** The bits of a byte sequence, lowest bit of the first byte first. */
  function BitsOf(s: seq<bv8>): (v: seq<bool>)
    ensures |v| == 8 * |s|
  {
    if |s| == 0 then [] else BitsOf(s[..|s| - 1]) + ByteView(s[|s| - 1], 8)
  }

  lemma {:induction false} ByteViewAt(b: bv8, n: nat, i: nat)
    requires i < n <= 8
    ensures ByteView(b, n)[i] == BitOf(b, i)
  {
    if i < n - 1 {
      ByteViewAt(b, n - 1, i);
    }
  }

  lemma {:induction false} BitsOfAt(s: seq<bv8>, k: nat)
    requires k < 8 * |s|
    ensures BitsOf(s)[k] == Bit(s, k)
  {
    if k < 8 * (|s| - 1) {
      BitsOfAt(s[..|s| - 1], k);
    } else {
      ByteViewAt(s[|s| - 1], 8, k % 8);
    }
  }

  lemma ZeroBytes(s: seq<bv8>)
    requires forall i :: 0 <= i < |s| ==> s[i] == 0
    ensures forall k :: 0 <= k < 8 * |s| ==> !BitsOf(s)[k]
  {
    forall k | 0 <= k < 8 * |s| ensures !BitsOf(s)[k] {
      BitsOfAt(s, k);
      ConstantBytes(k % 8);
    }
  }

  /** `v'` is `v` with every bit from `from` to `to` (inclusive) set to `value`. */
  ghost predicate Filled(v: seq<bool>, v': seq<bool>, from: nat, to: nat, value: bool)
  {
    |v'| == |v| && forall k :: 0 <= k < |v| ==> v'[k] == if from <= k <= to then value else v[k]
  }

  /** Number of set bits among `from`, ..., `to - 1`, one bit at a time. */
  function CountTrue(v: seq<bool>, from: nat, to: nat): nat
    requires from <= to <= |v|
  {
    if from == to then 0 else CountTrue(v, from, to - 1) + Ones(v[to - 1])
  }

  // ---- set and clear a range ---------------------------------------------------------------

  /** A range of bits as the buckets and in-bucket indices of its two (inclusive) ends. */
  datatype BitsetRange = BitsetRange(fromBucket: nat, toBucket: nat, fromIndex: nat, toIndex: nat)

  function RangeOf(from: nat, to: nat): BitsetRange
  {
    BitsetRange(from / 8, to / 8, from % 8, to % 8)
  }

  /** The byte-wise picture of a set range is the bit-wise one. */
  lemma RangeSet(s: seq<bv8>, s': seq<bv8>, from: nat, to: nat)
    requires from <= to < 8 * |s| && |s'| == |s|
    requires forall j :: 0 <= j < |s| && (j < from / 8 || to / 8 < j) ==> s'[j] == s[j]
    requires forall j :: from / 8 < j < to / 8 ==> s'[j] == 255
    requires from / 8 == to / 8 ==> s'[from / 8] == SetBits(s[from / 8], from % 8, to % 8)
    requires from / 8 < to / 8 ==> s'[from / 8] == SetBits(s[from / 8], from % 8, 7)
    requires from / 8 < to / 8 ==> s'[to / 8] == SetBits(s[to / 8], 0, to % 8)
    ensures Filled(BitsOf(s), BitsOf(s'), from, to, true)
  {
    forall k | 0 <= k < 8 * |s| ensures BitsOf(s')[k] == if from <= k <= to then true else BitsOf(s)[k] {
      BitsOfAt(s, k);
      BitsOfAt(s', k);
      var f, t, j, i := from / 8, to / 8, k / 8, k % 8;
      if f < j < t {
        ConstantBytes(i);
      } else if f == j == t {
        SetBitsOfByte(s[j], from % 8, to % 8, i);
      } else if j == f {
        SetBitsOfByte(s[j], from % 8, 7, i);
      } else if j == t {
        SetBitsOfByte(s[j], 0, to % 8, i);
      }
    }
  }

  /** The byte-wise picture of a cleared range is the bit-wise one. */
  lemma RangeCleared(s: seq<bv8>, s': seq<bv8>, from: nat, to: nat)
    requires from <= to < 8 * |s| && |s'| == |s|
    requires forall j :: 0 <= j < |s| && (j < from / 8 || to / 8 < j) ==> s'[j] == s[j]
    requires forall j :: from / 8 < j < to / 8 ==> s'[j] == 0
    requires from / 8 == to / 8 ==> s'[from / 8] == ClearBits(s[from / 8], from % 8, to % 8)
    requires from / 8 < to / 8 ==> s'[from / 8] == ClearBits(s[from / 8], from % 8, 7)
    requires from / 8 < to / 8 ==> s'[to / 8] == ClearBits(s[to / 8], 0, to % 8)
    ensures Filled(BitsOf(s), BitsOf(s'), from, to, false)
  {
    forall k | 0 <= k < 8 * |s| ensures BitsOf(s')[k] == if from <= k <= to then false else BitsOf(s)[k] {
      BitsOfAt(s, k);
      BitsOfAt(s', k);
      var f, t, j, i := from / 8, to / 8, k / 8, k % 8;
      if f < j < t {
        ConstantBytes(i);
      } else if f == j == t {
        ClearBitsOfByte(s[j], from % 8, to % 8, i);
      } else if j == f {
        ClearBitsOfByte(s[j], from % 8, 7, i);
      } else if j == t {
        ClearBitsOfByte(s[j], 0, to % 8, i);
      }
    }
  }

  /** Sets a range a byte at a time; seen bit by bit, exactly that range becomes true. */
  method SetRange(bitset: array<bv8>, from: nat, to: nat)
    requires from <= to < 8 * bitset.Length
    modifies bitset
    ensures Filled(old(BitsOf(bitset[..])), BitsOf(bitset[..]), from, to, true)
  {
    ghost var s := bitset[..];
    var r := RangeOf(from, to);
    if r.fromBucket == r.toBucket {
      bitset[r.fromBucket] := SetBits(bitset[r.fromBucket], r.fromIndex, r.toIndex);
    } else {
      bitset[r.fromBucket] := SetBits(bitset[r.fromBucket], r.fromIndex, 7);
      bitset[r.toBucket] := SetBits(bitset[r.toBucket], 0, r.toIndex);
      ghost var first, last := bitset[r.fromBucket], bitset[r.toBucket];
      var bucket := r.fromBucket + 1;
      while bucket != r.toBucket
        invariant r.fromBucket < bucket <= r.toBucket
        invariant bitset[r.fromBucket] == first && bitset[r.toBucket] == last
        invariant forall j :: r.fromBucket < j < bucket ==> bitset[j] == 255
        invariant forall j :: 0 <= j < bitset.Length && (j < r.fromBucket || r.toBucket < j) ==> bitset[j] == s[j]
        decreases r.toBucket - bucket
      {
        bitset[bucket] := 255;
        bucket := bucket + 1;
      }
    }
    RangeSet(s, bitset[..], from, to);
  }

  /** Clears a range a byte at a time; seen bit by bit, exactly that range becomes false. */
  method ClearRange(bitset: array<bv8>, from: nat, to: nat)
    requires from <= to < 8 * bitset.Length
    modifies bitset
    ensures Filled(old(BitsOf(bitset[..])), BitsOf(bitset[..]), from, to, false)
  {
    ghost var s := bitset[..];
    var r := RangeOf(from, to);
    if r.fromBucket == r.toBucket {
      bitset[r.fromBucket] := ClearBits(bitset[r.fromBucket], r.fromIndex, r.toIndex);
    } else {
      bitset[r.fromBucket] := ClearBits(bitset[r.fromBucket], r.fromIndex, 7);
      bitset[r.toBucket] := ClearBits(bitset[r.toBucket], 0, r.toIndex);
      ghost var first, last := bitset[r.fromBucket], bitset[r.toBucket];
      var bucket := r.fromBucket + 1;
      while bucket != r.toBucket
        invariant r.fromBucket < bucket <= r.toBucket
        invariant bitset[r.fromBucket] == first && bitset[r.toBucket] == last
        invariant forall j :: r.fromBucket < j < bucket ==> bitset[j] == 0
        invariant forall j :: 0 <= j < bitset.Length && (j < r.fromBucket || r.toBucket < j) ==> bitset[j] == s[j]
        decreases r.toBucket - bucket
      {
        bitset[bucket] := 0;
        bucket := bucket + 1;
      }
    }
    RangeCleared(s, bitset[..], from, to);
  }

  // ---- counting ----------------------------------------------------------------------------

  /** A byte whose bits are those of `v` at base + f, ..., base + t counts that stretch of `v`. */
  lemma {:induction false} SumIsCount(m: bv8, v: seq<bool>, base: nat, f: nat, t: nat, n: nat)
    requires base + 8 <= |v| && f <= t < 8 && n <= 8
    requires forall i: nat :: i < 8 ==> (BitOf(m, i) <==> v[base + i] && f <= i <= t)
    ensures n <= f ==> BitSum(m, n) == 0
    ensures f < n <= t ==> BitSum(m, n) == CountTrue(v, base + f, base + n)
    ensures t < n ==> BitSum(m, n) == CountTrue(v, base + f, base + t + 1)
  {
    if n > 0 {
      SumIsCount(m, v, base, f, t, n - 1);
      assert BitSum(m, n) == BitSum(m, n - 1) + Ones(BitOf(m, n - 1));
    }
  }

  lemma ViewAt(s: seq<bv8>, j: nat, i: nat)
    requires j < |s| && i < 8
    ensures BitsOf(s)[8 * j + i] == BitOf(s[j], i)
  {
    BitsOfAt(s, 8 * j + i);
    assert (8 * j + i) / 8 == j && (8 * j + i) % 8 == i;
  }

  method MaskByte(b: bv8, f: nat, t: nat) returns (m: bv8)
    requires f <= t < 8
    ensures forall i: nat :: i < 8 ==> (BitOf(m, i) <==> BitOf(b, i) && f <= i <= t)
  {
    forall i: nat | i < 8 { MaskedBit(b, f, t, i); }
    m := Masked(b, f, t);
  }

  lemma {:induction false} CountSplit(v: seq<bool>, from: nat, mid: nat, to: nat)
    requires from <= mid <= to <= |v|
    ensures CountTrue(v, from, to) == CountTrue(v, from, mid) + CountTrue(v, mid, to)
  {
    if mid < to {
      CountSplit(v, from, mid, to - 1);
    }
  }

  /** One bucket's share of a counted range. */
  method CountBucket(bitset: array<bv8>, j: nat, f: nat, t: nat, ghost from: nat, ghost to: nat) returns (r: nat)
    requires j < bitset.Length && f <= t < 8 && from == 8 * j + f && to == 8 * j + t + 1
    ensures r == CountTrue(BitsOf(bitset[..]), from, to)
  {
    var m := MaskByte(bitset[j], f, t);
    forall i: nat | i < 8 { ViewAt(bitset[..], j, i); }
    SumIsCount(m, BitsOf(bitset[..]), 8 * j, f, t, 8);
    r := PopcountByte(m);
  }

  /** The bucket-wise count of a range is the bit-by-bit count. */
  method CountRange(bitset: array<bv8>, from: nat, to: nat) returns (result: nat)
    requires from <= to < 8 * bitset.Length
    ensures result == CountTrue(BitsOf(bitset[..]), from, to + 1)
  {
    ghost var v := BitsOf(bitset[..]);
    var r := RangeOf(from, to);
    if r.fromBucket == r.toBucket {
      result := CountBucket(bitset, r.fromBucket, r.fromIndex, r.toIndex, from, to + 1);
      return;
    }
    result := CountBucket(bitset, r.fromBucket, r.fromIndex, 7, from, 8 * (r.fromBucket + 1));
    var last := CountBucket(bitset, r.toBucket, 0, r.toIndex, 8 * r.toBucket, to + 1);
    result := result + last;
    var bucket := r.fromBucket + 1;
    while bucket != r.toBucket
      invariant r.fromBucket < bucket <= r.toBucket
      invariant result == CountTrue(v, from, 8 * bucket) + last
      decreases r.toBucket - bucket
    {
      var inner := CountBucket(bitset, bucket, 0, 7, 8 * bucket, 8 * (bucket + 1));
      CountSplit(v, from, 8 * bucket, 8 * (bucket + 1));
      result := result + inner;
      bucket := bucket + 1;
    }
    CountSplit(v, from, 8 * r.toBucket, to + 1);
  }

  // ---- single bits -------------------------------------------------------------------------

  method SetBit(bitset: array<bv8>, pos: nat)
    requires pos < 8 * bitset.Length
    modifies bitset
    ensures BitsOf(bitset[..]) == old(BitsOf(bitset[..]))[pos := true]
  {
    ghost var s := bitset[..];
    bitset[pos / 8] := SetOne(bitset[pos / 8], pos % 8);
    forall k | 0 <= k < 8 * bitset.Length ensures BitsOf(bitset[..])[k] == BitsOf(s)[pos := true][k] {
      BitsOfAt(s, k);
      BitsOfAt(bitset[..], k);
      OneBitSet(s[pos / 8], pos % 8, k % 8);
    }
  }

  method ClearBit(bitset: array<bv8>, pos: nat)
    requires pos < 8 * bitset.Length
    modifies bitset
    ensures BitsOf(bitset[..]) == old(BitsOf(bitset[..]))[pos := false]
  {
    ghost var s := bitset[..];
    bitset[pos / 8] := ClearOne(bitset[pos / 8], pos % 8);
    forall k | 0 <= k < 8 * bitset.Length ensures BitsOf(bitset[..])[k] == BitsOf(s)[pos := false][k] {
      BitsOfAt(s, k);
      BitsOfAt(bitset[..], k);
      OneBitCleared(s[pos / 8], pos % 8, k % 8);
    }
  }

  method TestBit(bitset: array<bv8>, pos: nat) returns (r: bool)
    requires pos < 8 * bitset.Length
    ensures r == BitsOf(bitset[..])[pos]
  {
    BitsOfAt(bitset[..], pos);
    TestMask(bitset[pos / 8], pos % 8);
    r := bitset[pos / 8] & INDEX_MASK[pos % 8] != 0;
  }

  // ---- moving a stretch of bits ------------------------------------------------------------

  /** What bit `k` reads once the bits above `from`, up to `to`, have moved up by `dist`. */
  predicate MovedBit(v: seq<bool>, from: int, to: nat, dist: nat, k: nat)
    requires to + dist < |v| && k < |v| && from >= -1
  {
    if from + dist < k <= to + dist then v[k - dist] else v[k]
  }

  /** What bit `k` reads after bits from, ..., to (inclusive) moved up by `dist`, the gap cleared. */
  predicate ShiftedBit(v: seq<bool>, from: nat, to: nat, dist: nat, k: nat)
    requires to + dist < |v| && k < |v|
  {
    MovedBit(v, from - 1, to, dist, k) && !(from <= k < from + dist)
  }

  ghost predicate Shifted(v: seq<bool>, v': seq<bool>, from: nat, to: nat, dist: nat)
  {
    |v'| == |v| && to + dist < |v| && forall k :: 0 <= k < |v| ==> (v'[k] <==> ShiftedBit(v, from, to, dist, k))
  }

  /** Moves a stretch of bits up, highest first, so overlap is harmless. The loop also moves the
      bit at `to`, one past the stretch. */
  method ShiftRight(bitset: array<bv8>, from: nat, to: nat, dist: nat)
    requires 0 < dist && from <= to && to + dist < 8 * bitset.Length
    modifies bitset
    ensures Shifted(old(BitsOf(bitset[..])), BitsOf(bitset[..]), from, to, dist)
  {
    ghost var v := BitsOf(bitset[..]);
    var length: int := to - from;
    while length >= 0
      invariant -1 <= length <= to - from
      invariant forall k :: 0 <= k < 8 * bitset.Length ==>
                  (BitsOf(bitset[..])[k] <==> MovedBit(v, from + length, to, dist, k))
    {
      var at := from + length;
      var isSet := TestBit(bitset, at);
      if isSet {
        SetBit(bitset, at + dist);
      } else {
        ClearBit(bitset, at + dist);
      }
      length := length - 1;
    }
    ClearRange(bitset, from, from + dist - 1);
  }
}
