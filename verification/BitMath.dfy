/** The 64-bit arithmetic helpers of the buddy allocator: highest bit, rounding up to a
    power of two, alignment test, tree order for a memory size, integer square root. */
module BitMath {
  import opened Powers

  const SIZE_BITS: nat := 64
  const SIZE_LIMIT: nat := 0x1_0000_0000_0000_0000
  const HALF_LIMIT: nat := 0x8000_0000_0000_0000

  lemma EightMore(a: nat)
    ensures Pow2(a + 8) == 0x100 * Pow2(a)
  {
    assert Pow2(a + 4) == 2 * Pow2(a + 3) == 4 * Pow2(a + 2) == 8 * Pow2(a + 1) == 16 * Pow2(a);
    assert Pow2(a + 8) == 2 * Pow2(a + 7) == 4 * Pow2(a + 6) == 8 * Pow2(a + 5) == 16 * Pow2(a + 4);
  }

  lemma LimitIsPow2()
    ensures Pow2(8) == 0x100 && Pow2(16) == 0x1_0000 && Pow2(32) == 0x1_0000_0000
    ensures Pow2(62) == 0x4000_0000_0000_0000
    ensures Pow2(63) == HALF_LIMIT
    ensures Pow2(64) == SIZE_LIMIT
  {
    EightMore(0);
    EightMore(8);
    EightMore(16);
    EightMore(24);
    EightMore(32);
    EightMore(40);
    EightMore(48);
    EightMore(56);
    assert Pow2(64) == 2 * Pow2(63) == 4 * Pow2(62);
  }

  const ALL_SET: seq<nat> := [4294967295, 65535, 255, 15, 7, 3, 1]
  const COUNT: seq<nat> := [32, 16, 8, 4, 2, 1, 1]

  lemma SmallPowers()
    ensures Pow2(1) == 2 && Pow2(2) == 4 && Pow2(3) == 8 && Pow2(4) == 16 && Pow2(8) == 0x100
    ensures Pow2(16) == 0x1_0000 && Pow2(32) == 0x1_0000_0000
  {
    LimitIsPow2();
  }

  /** One step of the table: a value at or above the threshold loses exactly `COUNT[i]` bits. */
  lemma TableStep(i: nat, v: nat)
    requires i < 7 && v >= ALL_SET[i]
    ensures HighBit(v) == COUNT[i] + HighBit(Shr(v, COUNT[i]))
  {
    SmallPowers();
    HighBitShift(v, COUNT[i]);
  }

  /** Values below BOUND[i] are all that can be left when step i starts. */
  const BOUND: seq<nat> := [SIZE_LIMIT, 0x1_0000_0000, 0x1_0000, 0x100, 0x10, 0x7, 0x4, 0x2]

  lemma BoundStep(i: nat, v: nat)
    requires i < 7 && v < BOUND[i]
    ensures v < ALL_SET[i] ==> v < BOUND[i + 1]
    ensures v >= ALL_SET[i] ==> Shr(v, COUNT[i]) < BOUND[i + 1]
  {
    SmallPowers();
    LimitIsPow2();
    if i < 4 {
      ShrBelow(v, COUNT[i], COUNT[i]);
    } else {
      ShrIsDiv(v, COUNT[i]);
    }
  }

  lemma HighBitSmall(v: nat)
    requires v < 2
    ensures HighBit(v) == v
  {
    assert HighBit(1) == 1 + HighBit(0);
  }

  /** The table-driven loop finds the highest set bit of every 64-bit value. */
  method HighestBitPosition(value: nat) returns (result: nat)
    requires value < SIZE_LIMIT
    ensures value == 0 ==> result == 0
    ensures value > 0 ==> result > 0 && Pow2(result - 1) <= value < Pow2(result)
    ensures result == HighBit(value) <= SIZE_BITS
  {
    var v: nat := value;
    result := 0;
    for i := 0 to |ALL_SET|
      invariant v < BOUND[i]
      invariant HighBit(value) == result + HighBit(v)
    {
      BoundStep(i, v);
      if v >= ALL_SET[i] {
        TableStep(i, v);
        v := Shr(v, COUNT[i]);
        result := result + COUNT[i];
      }
    }
    HighBitSmall(v);
    result := result + v;
    HighBitAtMost(value);
    if value > 0 { HighBitBounds(value); }
  }

  lemma HighBitAtMost(v: nat)
    requires v < SIZE_LIMIT
    ensures HighBit(v) <= SIZE_BITS
  {
    if v > 0 {
      HighBitBounds(v);
      LimitIsPow2();
      if HighBit(v) > SIZE_BITS { Pow2Monotone(SIZE_BITS, HighBit(v) - 1); }
    }
  }

  /** The argument handed to the highest-bit search, with the 64-bit wrap of `value + value - 1`. */
  function CeilingArgument(value: nat): nat
  {
    var v := if value == 0 then 1 else value;
    if 2 * v - 1 < SIZE_LIMIT then 2 * v - 1 else 2 * v - 1 - SIZE_LIMIT
  }

  lemma CeilingArgumentOdd(value: nat)
    requires value < SIZE_LIMIT
    ensures 0 < CeilingArgument(value) < SIZE_LIMIT
    ensures value > HALF_LIMIT ==> CeilingArgument(value) == 2 * value - 1 - SIZE_LIMIT
    ensures 0 < value <= HALF_LIMIT ==> CeilingArgument(value) == 2 * value - 1
  {
  }

  /** What the allocator uses as "the power of two at or above `value`". */
  function CeilingPow2(value: nat): (r: nat)
    requires value < SIZE_LIMIT
  {
    CeilingArgumentOdd(value);
    Pow2(HighBit(CeilingArgument(value)) - 1)
  }

  lemma Pow2Order(a: nat, b: nat)
    ensures Pow2(a) < Pow2(b) <==> a < b
    ensures Pow2(a) == Pow2(b) <==> a == b
  {
    Pow2Monotone(if a < b then a else b, if a < b then b else a);
  }

  lemma CeilingPow2Bounds(value: nat)
    requires 0 < value <= HALF_LIMIT
    ensures value <= CeilingPow2(value) < 2 * value
  {
    CeilingArgumentOdd(value);
    var h := HighBit(2 * value - 1);
    HighBitBounds(2 * value - 1);
    assert Pow2(h) == 2 * Pow2(h - 1);
  }

  /** Rounding up yields the least power of two at or above the value ... */
  lemma CeilingPow2Least(value: nat, e: nat)
    requires 0 < value <= HALF_LIMIT
    requires Pow2(e) >= value
    ensures value <= CeilingPow2(value) <= Pow2(e)
  {
    CeilingPow2Bounds(value);
    var c := HighBit(CeilingArgument(value)) - 1;
    if e < c { Pow2Monotone(e, c); }
    Pow2Order(c, e);
  }

  /** ... and it does so exactly up to 2^63: above, the doubling wraps. */
  lemma CeilingPow2Exact(value: nat)
    requires 0 < value < SIZE_LIMIT
    ensures CeilingPow2(value) >= value <==> value <= HALF_LIMIT
  {
    CeilingArgumentOdd(value);
    HighBitBounds(CeilingArgument(value));
    if value <= HALF_LIMIT { CeilingPow2Bounds(value); }
  }

  lemma CeilingOfPow2(e: nat)
    requires e < SIZE_BITS
    ensures Pow2(e) <= HALF_LIMIT && CeilingPow2(Pow2(e)) == Pow2(e)
  {
    LimitIsPow2();
    Pow2Monotone(e, 63);
    CeilingPow2Least(Pow2(e), e);
  }

  method CeilingPowerOfTwo(value: nat) returns (result: nat)
    requires value < SIZE_LIMIT
    ensures result == CeilingPow2(value)
    ensures 0 < value <= HALF_LIMIT ==> value <= result < 2 * value
  {
    CeilingArgumentOdd(value);
    var h := HighestBitPosition(CeilingArgument(value));
    result := Pow2(h - 1);
    if 0 < value <= HALF_LIMIT { CeilingPow2Bounds(value); }
  }

  /** The alignment test accepts the powers of two and nothing else (0 included). */
  method IsValidAlignment(alignment: nat) returns (valid: bool)
    requires alignment < SIZE_LIMIT
    ensures valid <==> exists e: nat :: alignment == Pow2(e)
  {
    var c := CeilingPowerOfTwo(alignment);
    valid := c == alignment;
    if exists e: nat :: alignment == Pow2(e) {
      var e: nat :| alignment == Pow2(e);
      LimitIsPow2();
      if e >= SIZE_BITS { Pow2Monotone(SIZE_BITS, e); }
      CeilingOfPow2(e);
    }
  }

  /** A memory of `memorySize` bytes in blocks of `alignment` gets the tree whose leaf row is
      the least power of two holding every block, if there are at most 2^63 blocks. */
  method TreeOrderForMemory(memorySize: nat, alignment: nat) returns (order: nat)
    requires 0 < alignment && memorySize < SIZE_LIMIT
    ensures 1 <= order <= SIZE_BITS && 0 <= memorySize / alignment <= memorySize
    ensures Pow2(order - 1) == CeilingPow2(memorySize / alignment)
    ensures 0 < memorySize / alignment <= HALF_LIMIT ==>
              memorySize / alignment <= Pow2(order - 1) < 2 * (memorySize / alignment)
  {
    var blocks, _ := DivParts(memorySize, alignment);
    QuotientAtMost(memorySize, alignment, blocks);
    order := OrderForBlocks(memorySize / alignment);
  }

  method OrderForBlocks(blocks: nat) returns (order: nat)
    requires blocks < SIZE_LIMIT
    ensures 1 <= order <= SIZE_BITS && Pow2(order - 1) == CeilingPow2(blocks)
    ensures 0 < blocks <= HALF_LIMIT ==> blocks <= Pow2(order - 1) < 2 * blocks
  {
    var c := CeilingPowerOfTwo(blocks);
    CeilingArgumentOdd(blocks);
    var e := HighBit(CeilingArgument(blocks)) - 1;
    HighBitAtMost(CeilingArgument(blocks));
    CeilingFits(blocks);
    HighBitOfPow2(e);
    order := HighestBitPosition(c);
  }

  lemma HighBitOfPow2(e: nat)
    ensures HighBit(Pow2(e)) == e + 1
  {
    assert Pow2(e + 1) == 2 * Pow2(e);
    HighBitUnique(Pow2(e), e + 1);
  }

  lemma CeilingFits(value: nat)
    requires value < SIZE_LIMIT
    ensures CeilingPow2(value) < SIZE_LIMIT
  {
    CeilingArgumentOdd(value);
    HighBitBounds(CeilingArgument(value));
  }

  lemma QuotientAtMost(v: nat, d: nat, q: nat)
    requires d > 0 && d * q <= v
    ensures q <= v
  {
    Distribute(q, d, 1);
    NonNegative(q, d - 1);
  }

  // ---- integer square root -----------------------------------------------------------------

  lemma SquareStep(root: nat, s: nat)
    ensures (root + s) * (root + s) == root * root + 2 * root * s + s * s
  {
  }

  lemma PowFour(k: nat)
    ensures Pow2(2 * k) == Pow2(k) * Pow2(k)
    ensures k > 0 ==> Pow2(2 * k) / 4 == Pow2(2 * (k - 1))
  {
    Pow2Add(k, k);
    if k > 0 {
      assert Pow2(2 * k) == 2 * Pow2(2 * k - 1) == 4 * Pow2(2 * k - 2);
    }
  }

  lemma HalfScale(root: nat, k: nat)
    requires k > 0
    ensures 2 * root * Pow2(k) / 2 == 2 * root * Pow2(k - 1)
    ensures 2 * Pow2(k - 1) == Pow2(k)
  {
    assert 2 * root * Pow2(k) == 2 * (root * Pow2(k));
    assert root * Pow2(k) == root * (2 * Pow2(k - 1)) == 2 * (root * Pow2(k - 1));
  }

  /** The bits of the root above position `k` have been found: `n` lies below the square of
      `root + 2^(k+1)`, `op` is what is left of it and `result` is the scaled partial root. */
  ghost predicate RootState(n: nat, root: nat, k: int, op: int, result: int)
  {
    && k >= -1
    && op == n - root * root >= 0
    && n < (root + Pow2(k + 1)) * (root + Pow2(k + 1))
    && result == if k == -1 then root else 2 * root * Pow2(k)
  }

  lemma DoubleProduct(root: nat, s: nat)
    ensures 2 * (root + s) * s == 2 * root * s + 2 * (s * s)
  {
    Distribute(2 * s, root, s);
  }

  /** The trial bit of the loop: 4^k, and 0 once the search is over. */
  function Cursor(k: int): nat
  {
    if k >= 0 then Pow2(2 * k) else 0
  }

  lemma CursorStep(k: nat)
    ensures Cursor(k) / 4 == Cursor(k - 1)
    ensures Cursor(k) == Pow2(k) * Pow2(k) > 0
  {
    PowFour(k);
  }

  lemma RootTaken(n: nat, root: nat, k: nat, op: int, result: int, cursor: nat)
    requires RootState(n, root, k, op, result) && cursor == Cursor(k) && op >= result + cursor
    ensures RootState(n, root + Pow2(k), k - 1, op - (result + cursor), (result + 2 * cursor) / 2)
  {
    var s := Pow2(k);
    assert Pow2(k + 1) == s + s;
    assert cursor == s * s by { PowFour(k); }
    SquareStep(root, s);
    DoubleProduct(root, s);
    assert root + Pow2(k + 1) == (root + s) + Pow2(k - 1 + 1);
    if k > 0 {
      HalfScale(root + s, k);
    } else {
      assert s == 1;
    }
  }

  lemma RootSkipped(n: nat, root: nat, k: nat, op: int, result: int, cursor: nat)
    requires RootState(n, root, k, op, result) && cursor == Cursor(k) && op < result + cursor
    ensures RootState(n, root, k - 1, op, result / 2)
  {
    PowFour(k);
    SquareStep(root, Pow2(k));
    if k > 0 { HalfScale(root, k); }
  }

  lemma RootStart(n: nat)
    requires n < SIZE_LIMIT
    ensures Cursor(31) == HALF_LIMIT / 2 && RootState(n, 0, 31, n, 0)
  {
    LimitIsPow2();
    PowFour(32);
  }

  lemma RootDone(n: nat, root: nat, k: int, op: int, result: int)
    requires RootState(n, root, k, op, result) && Cursor(k) == 0
    ensures result >= 0 && result * result <= n < (result + 1) * (result + 1)
  {
  }

  /** The highest power of four not above the argument (0 for 0). */
  method FirstTrial(n: nat) returns (cursor: nat, ghost k: int)
    requires n < SIZE_LIMIT
    ensures -1 <= k <= 31 && cursor == Cursor(k) <= n
    ensures RootState(n, 0, k, n, 0)
  {
    RootStart(n);
    cursor, k := HALF_LIMIT / 2, 31;
    while cursor > n
      invariant -1 <= k <= 31 && cursor == Cursor(k)
      invariant RootState(n, 0, k, n, 0)
      decreases k
    {
      CursorStep(k);
      RootSkipped(n, 0, k, n, 0, cursor);
      cursor, k := cursor / 4, k - 1;
    }
  }

  /** The digit-by-digit loop returns the integer square root of every 64-bit value. */
  method IntegerSquareRoot(n: nat) returns (r: nat)
    requires n < SIZE_LIMIT
    ensures r * r <= n < (r + 1) * (r + 1)
  {
    var op: int, result: int := n, 0;
    ghost var root: nat := 0;
    var cursor, k := FirstTrial(n);
    while cursor != 0
      invariant -1 <= k <= 31 && cursor == Cursor(k)
      invariant RootState(n, root, k, op, result)
      decreases k
    {
      CursorStep(k);
      if op >= result + cursor {
        RootTaken(n, root, k, op, result, cursor);
        op := op - (result + cursor);
        result := result + 2 * cursor;
        root := root + Pow2(k);
      } else {
        RootSkipped(n, root, k, op, result, cursor);
      }
      result := result / 2;
      cursor := cursor / 4;
      k := k - 1;
    }
    RootDone(n, root, k, op, result);
    r := result;
  }
}
