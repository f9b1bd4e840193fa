/** Growing the tree by one order: every row of slots moves to its place in the larger tree, where
    the old tree is the left subtree of a new root, with an empty right subtree beside it. */
module Growth {
  import opened Powers
  import opened Bitset
  import opened TreeLayout
  import opened Slots
  import opened Statuses
  import opened Repair
  import opened Coverage

  // ---- where a node goes -------------------------------------------------------------------

  /** The node of the larger tree that node `v` becomes. */
  function Embed(v: nat): nat
    requires v >= 1
  {
    v + Pow2(HighBit(v) - 1)
  }

  /** The node at the same place in the new right subtree. */
  function RightCopy(v: nat): nat
    requires v >= 1
  {
    v + Pow2(HighBit(v))
  }

  lemma NewNodes(n: nat, v: nat)
    requires IsNode(n, v)
    ensures IsNode(n + 1, Embed(v)) && HighBit(Embed(v)) == HighBit(v) + 1
    ensures IsNode(n + 1, RightCopy(v)) && HighBit(RightCopy(v)) == HighBit(v) + 1
    ensures SlotLength(n + 1, Embed(v)) == SlotLength(n, v) == SlotLength(n + 1, RightCopy(v))
  {
    NodeDepth(n, v);
    var d := HighBit(v);
    assert Pow2(d) == 2 * Pow2(d - 1) && Pow2(d + 1) == 2 * Pow2(d);
    HighBitUnique(Embed(v), d + 1);
    HighBitUnique(RightCopy(v), d + 1);
    Pow2Monotone(d + 1, n + 1);
  }

  /** Every node of the larger tree but the root is one or the other. */
  lemma NewNodeOrigin(n: nat, w: nat) returns (v: nat, left: bool)
    requires IsNode(n + 1, w) && w > 1
    ensures IsNode(n, v) && w == if left then Embed(v) else RightCopy(v)
  {
    var k := HighBit(w);
    NodeDepth(n + 1, w);
    assert Pow2(k) == 2 * Pow2(k - 1) && Pow2(k - 1) == 2 * Pow2(k - 2);
    left := w < Pow2(k - 1) + Pow2(k - 2);
    v := if left then w - Pow2(k - 2) else w - Pow2(k - 1);
    HighBitUnique(v, k - 1);
    Pow2Monotone(k - 1, n);
  }

  lemma CopiesDiffer(u: nat, v: nat)
    requires u >= 1 && v >= 1
    ensures Embed(u) != RightCopy(v)
    ensures Embed(u) == Embed(v) ==> u == v
  {
    HighBitBounds(u);
    HighBitBounds(v);
    CopyDepth(u);
    CopyDepth(v);
  }

  lemma CopyDepth(v: nat)
    requires v >= 1
    ensures HighBit(Embed(v)) == HighBit(v) + 1 == HighBit(RightCopy(v))
  {
    HighBitBounds(v);
    NewNodes(HighBit(v), v);
  }

  lemma CopyChildren(v: nat)
    requires v >= 1
    ensures Embed(2 * v) == 2 * Embed(v) && Embed(2 * v + 1) == 2 * Embed(v) + 1
    ensures RightCopy(2 * v) == 2 * RightCopy(v) && RightCopy(2 * v + 1) == 2 * RightCopy(v) + 1
  {
    assert (2 * v) / 2 == v && (2 * v + 1) / 2 == v;
    var d := HighBit(v);
    assert HighBit(2 * v) == d + 1 == HighBit(2 * v + 1);
    assert Pow2(d) == 2 * Pow2(d - 1);
  }

  lemma CopyParent(v: nat)
    requires v > 1
    ensures Embed(v) / 2 == Embed(v / 2) && RightCopy(v) / 2 == RightCopy(v / 2)
    ensures Embed(v) % 2 == v % 2
  {
    CopyChildren(v / 2);
    assert v == 2 * (v / 2) || v == 2 * (v / 2) + 1;
  }

  // ---- the rows ----------------------------------------------------------------------------

  lemma {:induction false} SizeAntitone(n: nat, a: nat, b: nat)
    requires a <= b <= n
    ensures SizeForOrder(n, b) <= SizeForOrder(n, a)
    decreases b
  {
    if a < b {
      RowStep(n, b);
      NonNegative(b, Pow2(n - b));
      SizeAntitone(n, a, b - 1);
    }
  }

  lemma MultipleFits(len: nat, i: nat, count: nat)
    requires i < count
    ensures 0 <= len * i && len * i + len <= len * count
  {
    Distribute(len, i, 1);
    Distribute(len, count, i + 1);
    NonNegative(len, i);
    NonNegative(len, count - i - 1);
  }

  lemma RowFirst(n: nat, d: nat)
    requires 1 <= d <= n
    ensures IsNode(n, Pow2(d - 1)) && HighBit(Pow2(d - 1)) == d
    ensures SlotStart(n, Pow2(d - 1)) == SizeForOrder(n, n - d + 1)
  {
    assert Pow2(d) == 2 * Pow2(d - 1);
    HighBitUnique(Pow2(d - 1), d);
    Pow2Monotone(d, n);
    StartInRow(n, Pow2(d - 1), n - d + 1, 0);
  }

  lemma RowLower(n: nat, v: nat, d: nat, first: nat)
    requires IsNode(n, v) && d == HighBit(v) && 1 <= d <= n && first == Pow2(d - 1)
    ensures SizeForOrder(n, n - d + 1) <= SlotStart(n, v)
  {
    NodeDepth(n, v);
    RowFirst(n, d);
    if first < v { SlotsDisjoint(n, first, v); } else { assert first == v; }
  }

  lemma RowUpper(n: nat, v: nat, d: nat, next: nat)
    requires IsNode(n, v) && d == HighBit(v) && 1 <= d <= n && next == Pow2(d)
    ensures SlotStart(n, v) + SlotLength(n, v) <= SizeForOrder(n, n - d)
  {
    NodeDepth(n, v);
    if d < n {
      RowFirst(n, d + 1);
      assert SlotStart(n, v) + SlotLength(n, v) <= SlotStart(n, next) by { SlotsDisjoint(n, v, next); }
    } else {
      SlotWithin(n, v);
    }
  }

  lemma TimesZero(a: int, b: int)
    requires b == 0
    ensures a * b == 0
  {
  }

  /** The slots of a row lie between the offset of the row and that of the next. */
  lemma RowBounds(n: nat, v: nat, d: nat)
    requires IsNode(n, v) && d == HighBit(v)
    ensures 1 <= d <= n
    ensures SizeForOrder(n, n - d + 1) <= SlotStart(n, v)
    ensures SlotStart(n, v) + SlotLength(n, v) <= SizeForOrder(n, n - d)
  {
    NodeDepth(n, v);
    RowLower(n, v, d, Pow2(d - 1));
    RowUpper(n, v, d, Pow2(d));
  }

  /** Bits of the row at depth `d` in a tree of order `n`. */
  function RowBits(n: nat, d: nat): (r: nat)
    requires 1 <= d <= n
    ensures r >= 1
  {
    MultipleFits(n - d + 1, 0, Pow2(d - 1));
    (n - d + 1) * Pow2(d - 1)
  }

  function RowFrom(n: nat, d: nat): nat
    requires 1 <= d <= n
  {
    SizeForOrder(n, n - d + 1)
  }

  lemma RowEnds(n: nat, d: nat)
    requires 1 <= d <= n
    ensures RowFrom(n, d) + RowBits(n, d) == SizeForOrder(n, n - d)
    ensures RowFrom(n + 1, d + 1) + 2 * RowBits(n, d) == SizeForOrder(n + 1, n - d)
  {
    RowStep(n, n - d + 1);
    RowStep(n + 1, n - d + 1);
    assert Pow2(d) == 2 * Pow2(d - 1);
    assert (n - d + 1) * (2 * Pow2(d - 1)) == 2 * ((n - d + 1) * Pow2(d - 1));
  }

  lemma SizeMonotone(a: nat, b: nat)
    requires a <= b
    ensures SizeForOrder(a, 0) <= SizeForOrder(b, 0)
  {
    TotalBits(a);
    TotalBits(b);
    PowGap(a, b);
  }

  lemma {:induction false} PowGap(a: nat, b: nat)
    requires a <= b
    ensures Pow2(b + 1) - b >= Pow2(a + 1) - a
    decreases b
  {
    if a < b { PowGap(a, b - 1); }
  }

  lemma {:induction false} SizeGrows(n: nat, to: nat)
    requires to <= n
    ensures SizeForOrder(n + 1, to) > SizeForOrder(n, to)
  {
    if to < n { SizeGrows(n - 1, to); }
  }

  /** Every row moves towards the end, and stays within the bits of the larger tree. */
  lemma RowDistance(n: nat, d: nat)
    requires 1 <= d <= n
    ensures RowFrom(n + 1, d + 1) > RowFrom(n, d)
    ensures RowFrom(n + 1, d + 1) + 2 * RowBits(n, d) <= SizeForOrder(n + 1, 0)
  {
    SizeGrows(n, n - d + 1);
    RowEnds(n, d);
    SizeAntitone(n + 1, 0, n - d);
  }

  /** Within a row, all slots move by the same distance ... */
  lemma NewStart(n: nat, v: nat, d: nat)
    requires IsNode(n, v) && d == HighBit(v)
    ensures 1 <= d <= n && IsNode(n + 1, Embed(v))
    ensures SlotStart(n + 1, Embed(v)) - SlotStart(n, v) == RowFrom(n + 1, d + 1) - RowFrom(n, d)
  {
    NodeDepth(n, v);
    NewNodes(n, v);
    var len, i := SlotLength(n, v), v - Pow2(d - 1);
    StartInRow(n, v, len, i);
    StartInRow(n + 1, Embed(v), len, i);
  }

  /** ... and the right copies of a row follow it. */
  lemma RightStart(n: nat, v: nat, d: nat)
    requires IsNode(n, v) && d == HighBit(v)
    ensures 1 <= d <= n && IsNode(n + 1, Embed(v)) && IsNode(n + 1, RightCopy(v))
    ensures SlotStart(n + 1, RightCopy(v)) == SlotStart(n + 1, Embed(v)) + RowBits(n, d)
  {
    NodeDepth(n, v);
    NewNodes(n, v);
    var len := SlotLength(n, v);
    var i, count := v - Pow2(d - 1), Pow2(d - 1);
    assert RightCopy(v) - Pow2(d) == i + count by { assert Pow2(d) == 2 * Pow2(d - 1); }
    StartInRow(n + 1, Embed(v), len, i);
    StartInRow(n + 1, RightCopy(v), len, i + count);
    Distribute(len, i, count);
  }

  // ---- moving the rows ---------------------------------------------------------------------

  /** Rows below depth `d` are in their new place, with zeros in the right subtree; rows down to
      depth `d` are still in their old place. */
  ghost predicate RowsMoved(view: seq<bool>, n: nat, st: seq<nat>, d: nat)
  {
    && |st| == Pow2(n) && SizeForOrder(n + 1, 0) <= |view|
    && forall v: nat {:trigger st[v]} :: IsNode(n, v) ==> NodeMoved(view, n, st, d, v)
  }

  ghost predicate NodeMoved(view: seq<bool>, n: nat, st: seq<nat>, d: nat, v: nat)
    requires IsNode(n, v) && |st| == Pow2(n)
  {
    NewNodes(n, v);
    if HighBit(v) <= d then
      SlotHolds(view, SlotStart(n, v), SlotLength(n, v), st[v])
    else
      && SlotHolds(view, SlotStart(n + 1, Embed(v)), SlotLength(n, v), st[v])
      && SlotHolds(view, SlotStart(n + 1, RightCopy(v)), SlotLength(n, v), 0)
  }

  /** Before the first move, every row is in its old place. */
  lemma EncodedRows(view: seq<bool>, n: nat, st: seq<nat>)
    requires Encoded(view, n, st) && SizeForOrder(n + 1, 0) <= |view|
    ensures RowsMoved(view, n, st, n)
  {
    forall v: nat | IsNode(n, v) ensures NodeMoved(view, n, st, n, v) {
      NodeDepth(n, v);
      assert st[v] >= 0;
    }
  }

  /** The effect of moving one row: shift it to its new place, then clear the right half. */
  ghost predicate RowMove(before: seq<bool>, shifted: seq<bool>, after: seq<bool>, from: nat, next: nat, bits: nat)
  {
    && from < next && bits >= 1
    && Shifted(before, shifted, from, from + bits, next - from)
    && Filled(shifted, after, next + bits, next + 2 * bits - 1, false)
  }

  /** A slot before the row, or behind its right copies, is not touched. */
  lemma SlotUntouched(before: seq<bool>, shifted: seq<bool>, after: seq<bool>, from: nat, next: nat, bits: nat,
                      at: nat, len: nat, value: nat)
    requires RowMove(before, shifted, after, from, next, bits) && SlotHolds(before, at, len, value)
    requires at + len <= from || next + 2 * bits <= at
    ensures SlotHolds(after, at, len, value)
  {
  }

  /** A slot of the row arrives at its new place. */
  lemma SlotMoved(before: seq<bool>, shifted: seq<bool>, after: seq<bool>, from: nat, next: nat, bits: nat,
                  at: nat, to: nat, len: nat, value: nat)
    requires RowMove(before, shifted, after, from, next, bits) && SlotHolds(before, at, len, value)
    requires from <= at && at + len <= from + bits && to == at + next - from
    ensures SlotHolds(after, to, len, value)
  {
    var dist := next - from;
    forall k | at + dist <= k < at + dist + len ensures after[k] <==> k < at + dist + value {
      assert after[k] == shifted[k] == before[k - dist];
    }
  }

  /** A slot of the right half of the new row is cleared. */
  lemma SlotCleared(before: seq<bool>, shifted: seq<bool>, after: seq<bool>, from: nat, next: nat, bits: nat,
                    at: nat, len: nat)
    requires RowMove(before, shifted, after, from, next, bits) && at + len <= |before|
    requires next + bits <= at && at + len <= next + 2 * bits
    ensures SlotHolds(after, at, len, 0)
  {
  }

  /** Old and new slots of a node of the row, relative to the ends of the row. */
  lemma RowSlots(n: nat, d: nat, v: nat)
    requires 1 <= d <= n && IsNode(n, v) && HighBit(v) == d
    ensures IsNode(n + 1, Embed(v))
    ensures RowFrom(n, d) <= SlotStart(n, v) && SlotStart(n, v) + SlotLength(n, v) <= RowFrom(n, d) + RowBits(n, d)
    ensures SlotStart(n + 1, Embed(v)) == SlotStart(n, v) + RowFrom(n + 1, d + 1) - RowFrom(n, d)
  {
    NewStart(n, v, d);
    RowBounds(n, v, d);
    RowEnds(n, d);
  }

  lemma RightSlots(n: nat, d: nat, v: nat)
    requires 1 <= d <= n && IsNode(n, v) && HighBit(v) == d
    ensures IsNode(n + 1, Embed(v)) && IsNode(n + 1, RightCopy(v))
    ensures SlotStart(n + 1, RightCopy(v)) == SlotStart(n + 1, Embed(v)) + RowBits(n, d)
    ensures SlotStart(n + 1, RightCopy(v)) + SlotLength(n, v) <= SizeForOrder(n + 1, 0)
  {
    NewNodes(n, v);
    RightStart(n, v, d);
    SlotWithin(n + 1, RightCopy(v));
  }

  lemma MovedRow(before: seq<bool>, shifted: seq<bool>, after: seq<bool>, n: nat, st: seq<nat>, d: nat, v: nat,
              from: nat, next: nat, bits: nat)
    requires 1 <= d <= n && from == RowFrom(n, d) && next == RowFrom(n + 1, d + 1) && bits == RowBits(n, d)
    requires RowMove(before, shifted, after, from, next, bits)
    requires |st| == Pow2(n) && SizeForOrder(n + 1, 0) <= |before| && IsNode(n, v)
    requires HighBit(v) == d && NodeMoved(before, n, st, d, v)
    ensures NodeMoved(after, n, st, d - 1, v)
  {
    NewNodes(n, v);
    assert NodeMoved(before, n, st, d, v);
    MovedLeft(before, shifted, after, n, d, v, from, next, bits, st[v]);
    ClearedRight(before, shifted, after, n, d, v, from, next, bits);
  }

  lemma MovedLeft(before: seq<bool>, shifted: seq<bool>, after: seq<bool>, n: nat, d: nat, v: nat,
                  from: nat, next: nat, bits: nat, value: nat)
    requires 1 <= d <= n && from == RowFrom(n, d) && next == RowFrom(n + 1, d + 1) && bits == RowBits(n, d)
    requires RowMove(before, shifted, after, from, next, bits)
    requires IsNode(n, v) && IsNode(n + 1, Embed(v)) && HighBit(v) == d
    requires SlotHolds(before, SlotStart(n, v), SlotLength(n, v), value)
    ensures SlotHolds(after, SlotStart(n + 1, Embed(v)), SlotLength(n, v), value)
  {
    RowSlots(n, d, v);
    SlotMoved(before, shifted, after, from, next, bits, SlotStart(n, v), SlotStart(n + 1, Embed(v)), SlotLength(n, v),
              value);
  }

  lemma ClearedRight(before: seq<bool>, shifted: seq<bool>, after: seq<bool>, n: nat, d: nat, v: nat,
                     from: nat, next: nat, bits: nat)
    requires 1 <= d <= n && from == RowFrom(n, d) && next == RowFrom(n + 1, d + 1) && bits == RowBits(n, d)
    requires RowMove(before, shifted, after, from, next, bits) && SizeForOrder(n + 1, 0) <= |before|
    requires IsNode(n, v) && IsNode(n + 1, RightCopy(v)) && HighBit(v) == d
    ensures SlotHolds(after, SlotStart(n + 1, RightCopy(v)), SlotLength(n, v), 0)
  {
    RowSlots(n, d, v);
    RightSlots(n, d, v);
    SlotCleared(before, shifted, after, from, next, bits, SlotStart(n + 1, RightCopy(v)), SlotLength(n, v));
  }

  lemma OldSlotBefore(n: nat, d: nat, v: nat)
    requires 1 <= d <= n && IsNode(n, v) && HighBit(v) < d
    ensures SlotStart(n, v) + SlotLength(n, v) <= RowFrom(n, d)
  {
    RowBounds(n, v, HighBit(v));
    SizeAntitone(n, n - d + 1, n - HighBit(v));
  }

  lemma RowAbove(before: seq<bool>, shifted: seq<bool>, after: seq<bool>, n: nat, st: seq<nat>, d: nat, v: nat,
              from: nat, next: nat, bits: nat)
    requires 1 <= d <= n && from == RowFrom(n, d) && next == RowFrom(n + 1, d + 1) && bits == RowBits(n, d)
    requires RowMove(before, shifted, after, from, next, bits)
    requires |st| == Pow2(n) && IsNode(n, v) && HighBit(v) < d && NodeMoved(before, n, st, d, v)
    ensures NodeMoved(after, n, st, d - 1, v)
  {
    OldSlotBefore(n, d, v);
    SlotUntouched(before, shifted, after, from, next, bits, SlotStart(n, v), SlotLength(n, v), st[v]);
  }

  lemma NewSlotsBehind(n: nat, d: nat, v: nat)
    requires 1 <= d <= n && IsNode(n, v) && HighBit(v) > d
    ensures IsNode(n + 1, Embed(v)) && IsNode(n + 1, RightCopy(v))
    ensures RowFrom(n + 1, d + 1) + 2 * RowBits(n, d) <= SlotStart(n + 1, Embed(v))
    ensures RowFrom(n + 1, d + 1) + 2 * RowBits(n, d) <= SlotStart(n + 1, RightCopy(v))
  {
    NodeDepth(n, v);
    NewNodes(n, v);
    var e := HighBit(v) + 1;
    RowBounds(n + 1, Embed(v), e);
    RowBounds(n + 1, RightCopy(v), e);
    RowEnds(n, d);
    SizeAntitone(n + 1, n + 1 - e + 1, n - d);
  }

  lemma RowBelow(before: seq<bool>, shifted: seq<bool>, after: seq<bool>, n: nat, st: seq<nat>, d: nat, v: nat,
              from: nat, next: nat, bits: nat)
    requires 1 <= d <= n && from == RowFrom(n, d) && next == RowFrom(n + 1, d + 1) && bits == RowBits(n, d)
    requires RowMove(before, shifted, after, from, next, bits)
    requires |st| == Pow2(n) && IsNode(n, v) && HighBit(v) > d && NodeMoved(before, n, st, d, v)
    ensures NodeMoved(after, n, st, d - 1, v)
  {
    NewSlotsBehind(n, d, v);
    var left, right := SlotStart(n + 1, Embed(v)), SlotStart(n + 1, RightCopy(v));
    SlotUntouched(before, shifted, after, from, next, bits, left, SlotLength(n, v), st[v]);
    SlotUntouched(before, shifted, after, from, next, bits, right, SlotLength(n, v), 0);
  }

  lemma FirstRow(n: nat)
    requires n >= 1
    ensures RowFrom(n, 1) == 0 && RowFrom(n + 1, 2) == n + 1
  {
    assert SizeForOrder(n + 1, n) == n + 1 + 2 * SizeForOrder(n, n);
  }

  lemma RowsMovedStep(before: seq<bool>, shifted: seq<bool>, after: seq<bool>, n: nat, st: seq<nat>, d: nat,
                      from: nat, next: nat, bits: nat)
    requires 1 <= d <= n && from == RowFrom(n, d) && next == RowFrom(n + 1, d + 1) && bits == RowBits(n, d)
    requires RowMove(before, shifted, after, from, next, bits)
    requires RowsMoved(before, n, st, d)
    ensures RowsMoved(after, n, st, d - 1)
    ensures d == 1 ==> SlotHolds(after, 0, n + 1, 0)
  {
    forall v: nat | IsNode(n, v) ensures NodeMoved(after, n, st, d - 1, v) {
      assert st[v] >= 0;
      if HighBit(v) == d {
        MovedRow(before, shifted, after, n, st, d, v, from, next, bits);
      } else if HighBit(v) < d {
        RowAbove(before, shifted, after, n, st, d, v, from, next, bits);
      } else {
        RowBelow(before, shifted, after, n, st, d, v, from, next, bits);
      }
    }
    if d == 1 { FirstRow(n); }
  }

  // ---- the grown statuses ------------------------------------------------------------------

  /** Statuses after the rows have moved: the old ones on the left, 0 on the right, and a root
      that still has to be repaired. */
  ghost predicate GrownFrom(n: nat, st: seq<nat>, grown: seq<nat>)
  {
    && |st| == Pow2(n) && |grown| == Pow2(n + 1)
    && grown[1] == 0
    && forall v: nat {:trigger st[v]} :: IsNode(n, v) ==> GrownNode(n, st, grown, v)
  }

  ghost predicate GrownNode(n: nat, st: seq<nat>, grown: seq<nat>, v: nat)
    requires IsNode(n, v) && |st| == Pow2(n) && |grown| == Pow2(n + 1)
  {
    NewNodes(n, v);
    grown[Embed(v)] == st[v] && grown[RightCopy(v)] == 0
  }

  ghost function GrownStatus(n: nat, st: seq<nat>, w: nat): nat
    requires |st| == Pow2(n)
  {
    var k := HighBit(w);
    if k < 2 then 0
    else if w < Pow2(k - 1) + Pow2(k - 2) && Pow2(k - 2) <= w < Pow2(n) + Pow2(k - 2) then st[w - Pow2(k - 2)]
    else 0
  }

  ghost function Grown(n: nat, st: seq<nat>): (grown: seq<nat>)
    requires |st| == Pow2(n)
    ensures |grown| == Pow2(n + 1)
    ensures forall w :: 0 <= w < Pow2(n + 1) ==> grown[w] == GrownStatus(n, st, w)
  {
    seq(Pow2(n + 1), (w: nat) => GrownStatus(n, st, w))
  }

  lemma GrownStatusOfCopies(n: nat, st: seq<nat>, v: nat)
    requires |st| == Pow2(n) && IsNode(n, v)
    ensures GrownStatus(n, st, Embed(v)) == st[v] && GrownStatus(n, st, RightCopy(v)) == 0
  {
    NewNodes(n, v);
    NodeDepth(n, v);
    var d := HighBit(v);
    assert Pow2(d) == 2 * Pow2(d - 1);
  }

  lemma GrownIsGrown(n: nat, st: seq<nat>)
    requires |st| == Pow2(n)
    ensures GrownFrom(n, st, Grown(n, st))
  {
    var grown := Grown(n, st);
    forall v: nat | IsNode(n, v) ensures GrownNode(n, st, grown, v) {
      NewNodes(n, v);
      GrownStatusOfCopies(n, st, v);
    }
    RootSlot(n + 1);
  }

  /** Once every row has moved, the bitset stores the grown statuses. */
  lemma GrownEncoded(view: seq<bool>, n: nat, st: seq<nat>, grown: seq<nat>)
    requires n >= 1 && RowsMoved(view, n, st, 0) && SlotHolds(view, 0, n + 1, 0) && GrownFrom(n, st, grown)
    ensures Encoded(view, n + 1, grown)
  {
    forall w: nat | IsNode(n + 1, w)
      ensures SlotHolds(view, SlotStart(n + 1, w), SlotLength(n + 1, w), grown[w])
    {
      if w == 1 {
        RootSlot(n + 1);
      } else {
        var v, left := NewNodeOrigin(n, w);
        NewNodes(n, v);
        NodeDepth(n, v);
        assert st[v] >= 0 && NodeMoved(view, n, st, 0, v) && GrownNode(n, st, grown, v);
      }
    }
  }

  // ---- the grown allocation ----------------------------------------------------------------

  ghost function EmbedSet(A: set<nat>): (B: set<nat>)
    requires forall a :: a in A ==> a >= 1
    ensures forall v: nat :: v >= 1 ==> (Embed(v) in B <==> v in A)
  {
    forall u: nat, v: nat | u >= 1 && v >= 1 && Embed(u) == Embed(v) ensures u == v { CopiesDiffer(u, v); }
    set a | a in A :: Embed(a)
  }

  lemma {:induction false} EmbedAbove(u: nat, v: nat)
    requires u >= 1 && v >= 1
    ensures Above(Embed(u), Embed(v)) <==> Above(u, v)
    ensures !Above(RightCopy(v), Embed(u))
    decreases v
  {
    EmbedUnderTwo(u);
    RightUnderThree(v);
    if Above(RightCopy(v), Embed(u)) {
      AboveTransitive(3, RightCopy(v), Embed(u));
      SiblingsApart(1, Embed(u));
    }
    CopiesDiffer(u, v);
    CopiesDiffer(v, u);
    if v > 1 {
      CopyParent(v);
      EmbedAbove(u, v / 2);
      EmbedOrder(u, v);
    } else {
      assert Embed(1) == 2;
      AboveTwo(Embed(u));
    }
  }

  lemma AboveTwo(w: nat)
    requires w >= 2
    ensures Above(w, 2) <==> w == 2
  {
  }

  lemma {:induction false} EmbedUnderTwo(v: nat)
    requires v >= 1
    ensures Above(2, Embed(v)) && Embed(v) >= 2
    decreases v
  {
    if v > 1 {
      CopyParent(v);
      EmbedUnderTwo(v / 2);
    }
  }

  lemma {:induction false} RightUnderThree(v: nat)
    requires v >= 1
    ensures Above(3, RightCopy(v)) && RightCopy(v) >= 3
    decreases v
  {
    if v > 1 {
      CopyParent(v);
      RightUnderThree(v / 2);
    }
  }

  lemma EmbedOrder(u: nat, v: nat)
    requires u >= 1 && v >= 1
    ensures u < v <==> Embed(u) < Embed(v)
  {
    HighBitBounds(u);
    HighBitBounds(v);
    if HighBit(u) < HighBit(v) { Pow2Monotone(HighBit(u), HighBit(v) - 1); }
    if HighBit(v) < HighBit(u) { Pow2Monotone(HighBit(v), HighBit(u) - 1); }
  }

  lemma EmbeddedAllocation(n: nat, A: set<nat>)
    requires Allocation(n, A)
    ensures Allocation(n + 1, EmbedSet(A))
    ensures forall b :: b in EmbedSet(A) ==> exists a :: a in A && b == Embed(a)
  {
    var B := EmbedSet(A);
    forall b | b in B ensures IsNode(n + 1, b) {
      var a :| a in A && b == Embed(a);
      NewNodes(n, a);
    }
    forall b, c | b in B && c in B && Above(b, c) ensures b == c {
      var a :| a in A && b == Embed(a);
      var d :| d in A && c == Embed(d);
      EmbedAbove(a, d);
    }
  }

  lemma EmbeddedChildren(n: nat, v: nat)
    requires IsNode(n, v)
    ensures IsNode(n + 1, Embed(v)) && SlotLength(n + 1, Embed(v)) == SlotLength(n, v)
    ensures IsNode(n, 2 * v) <==> IsNode(n + 1, 2 * Embed(v))
    ensures IsNode(n, 2 * v) ==> IsNode(n, 2 * v + 1) && IsNode(n + 1, 2 * Embed(v) + 1)
    ensures Embed(2 * v) == 2 * Embed(v) && Embed(2 * v + 1) == 2 * Embed(v) + 1
  {
    NewNodes(n, v);
    ChildDepth(n, v);
    ChildDepth(n + 1, Embed(v));
    CopyChildren(v);
  }

  /** On the left, `B` holds the copies of the nodes in `A`. */
  ghost predicate CopyOf(A: set<nat>, B: set<nat>)
  {
    forall u: nat {:trigger Embed(u)} :: u >= 1 ==> (Embed(u) in B <==> u in A)
  }

  /** The left subtree has the statuses of the old tree ... */
  lemma {:induction false} EmbeddedStatus(n: nat, A: set<nat>, B: set<nat>, v: nat, w: nat)
    requires IsNode(n, v) && w == Embed(v) && CopyOf(A, B)
    ensures IsNode(n + 1, w) && Status(n + 1, B, w) == Status(n, A, v)
    decreases Pow2(n) - v, 1
  {
    EmbeddedChildren(n, v);
    if v !in A && IsNode(n, 2 * v) {
      EmbeddedInner(n, A, B, v, w);
    } else {
      SameEnd(n, A, B, v, w);
    }
  }

  lemma {:induction false} EmbeddedInner(n: nat, A: set<nat>, B: set<nat>, v: nat, w: nat)
    requires IsNode(n, v) && w == Embed(v) && CopyOf(A, B) && v !in A && IsNode(n, 2 * v)
    ensures IsNode(n + 1, w) && Status(n + 1, B, w) == Status(n, A, v)
    decreases Pow2(n) - v, 0
  {
    var l, r := CopiedChildren(n, A, B, v, w);
    EmbeddedStatus(n, A, B, l, 2 * w);
    EmbeddedStatus(n, A, B, r, 2 * w + 1);
    SameStatus(n, A, B, v, w);
  }

  lemma CopiedChildren(n: nat, A: set<nat>, B: set<nat>, v: nat, w: nat) returns (l: nat, r: nat)
    requires IsNode(n, v) && w == Embed(v) && CopyOf(A, B) && v !in A && IsNode(n, 2 * v)
    ensures l == 2 * v && r == 2 * v + 1 && IsNode(n, r) && Embed(l) == 2 * w && Embed(r) == 2 * w + 1
    ensures IsNode(n + 1, w) && IsNode(n + 1, 2 * w) && IsNode(n + 1, 2 * w + 1) && w !in B
  {
    l, r := 2 * v, 2 * v + 1;
    EmbeddedChildren(n, v);
  }

  lemma SameEnd(n: nat, A: set<nat>, B: set<nat>, v: nat, w: nat)
    requires IsNode(n, v) && IsNode(n + 1, w) && SlotLength(n + 1, w) == SlotLength(n, v) && (w in B <==> v in A)
    requires v in A || (!IsNode(n, 2 * v) && !IsNode(n + 1, 2 * w))
    ensures Status(n + 1, B, w) == Status(n, A, v)
  {
  }

  lemma SameStatus(n: nat, A: set<nat>, B: set<nat>, v: nat, w: nat)
    requires IsNode(n, v) && IsNode(n + 1, w) && w !in B && v !in A
    requires IsNode(n, 2 * v) && IsNode(n, 2 * v + 1) && IsNode(n + 1, 2 * w) && IsNode(n + 1, 2 * w + 1)
    requires Status(n + 1, B, 2 * w) == Status(n, A, 2 * v) && Status(n + 1, B, 2 * w + 1) == Status(n, A, 2 * v + 1)
    ensures Status(n + 1, B, w) == Status(n, A, v)
  {
    StatusOfParent(n, A, v);
    StatusOfParent(n + 1, B, w);
  }

  /** ... and the right one is empty. */
  lemma EmptyRight(n: nat, A: set<nat>, v: nat)
    requires Allocation(n, A) && IsNode(n, v)
    ensures IsNode(n + 1, RightCopy(v)) && Status(n + 1, EmbedSet(A), RightCopy(v)) == 0
  {
    NewNodes(n, v);
    EmbeddedAllocation(n, A);
    StatusZero(n + 1, EmbedSet(A), RightCopy(v));
    forall b | b in EmbedSet(A) ensures !Above(RightCopy(v), b) {
      var a :| a in A && b == Embed(a);
      EmbedAbove(a, v);
    }
  }

  /** Only the root is left to repair. */
  lemma GrownNeedsRootOnly(n: nat, st: seq<nat>, grown: seq<nat>, A: set<nat>)
    requires n >= 1 && Refines(n, st, A) && GrownFrom(n, st, grown)
    ensures IsNode(n + 1, 3) && RepairedUpTo(n + 1, grown, grown, EmbedSet(A), 3)
    ensures grown[3] == 0 && RightAbove(n + 1, grown, EmbedSet(A), 3)
    ensures NoneProperlyAbove(EmbedSet(A), 3)
  {
    RootSlot(n);
    NewNodes(n, 1);
    assert Embed(1) == 2 && RightCopy(1) == 3;
    var B := EmbedSet(A);
    assert GrownNode(n, st, grown, 1) by { assert st[1] >= 0; }
    forall w: nat | IsNode(n + 1, w) && w != 1 ensures grown[w] == Status(n + 1, B, w) {
      var v, left := NewNodeOrigin(n, w);
      NewNodes(n, v);
      assert st[v] >= 0 && GrownNode(n, st, grown, v);
      if left { EmbeddedStatus(n, A, B, v, w); } else { EmptyRight(n, A, v); }
    }
    EmbeddedAllocation(n, A);
    forall a | a in A ensures Embed(a) != 1 { EmbedUnderTwo(a); }
    forall w: nat | w >= 1 && Above(w, 3) && w != 3 ensures w == 1 && w !in B { }
    forall q: nat | IsNode(n + 1, q) && Above(q, 3) && q != 3 && grown[q] == Status(n + 1, B, q)
      ensures RightFrom(n + 1, grown, B, q) { }
  }

  /** The bitset stores the statuses of `B` with the right child of the root empty and the root,
      which alone may be wrong, still to repair. */
  ghost predicate RootPending(view: seq<bool>, n: nat, st: seq<nat>, B: set<nat>)
  {
    && Encoded(view, n, st) && Allocation(n, B) && NoneProperlyAbove(B, 3) && IsNode(n, 3) && st[3] == 0
    && RepairedUpTo(n, st, st, B, 3) && RightAbove(n, st, B, 3)
  }

  /** All rows moved: the bitset stores statuses of which only the root may be wrong. */
  lemma GrowthComplete(view: seq<bool>, n: nat, st: seq<nat>, A: set<nat>)
    requires n >= 1 && Refines(n, st, A) && RowsMoved(view, n, st, 0) && SlotHolds(view, 0, n + 1, 0)
    ensures RootPending(view, n + 1, Grown(n, st), EmbedSet(A))
  {
    GrownIsGrown(n, st);
    GrownEncoded(view, n, st, Grown(n, st));
    GrownNeedsRootOnly(n, st, Grown(n, st), A);
    EmbeddedAllocation(n, A);
  }

  // ---- memory of a node --------------------------------------------------------------------

  /** An embedded node keeps its place and size in the arena. */
  lemma {:induction false} EmbeddedInterval(n: nat, v: nat)
    requires IsNode(n, v)
    ensures IsNode(n + 1, Embed(v))
    ensures Width(n + 1, Embed(v)) == Width(n, v) && Lo(n + 1, Embed(v)) == Lo(n, v)
    decreases v
  {
    NewNodes(n, v);
    NodeDepth(n, v);
    if v > 1 {
      ParentDepth(n, v);
      CopyParent(v);
      EmbedUnderTwo(v);
      EmbeddedInterval(n, v / 2);
    } else {
      assert Embed(1) == 2;
    }
  }

  // ---- several orders at once --------------------------------------------------------------

  /** Where a node goes when the tree grows by `k` orders. */
  function EmbedBy(v: nat, k: nat): (w: nat)
    requires v >= 1
    ensures w >= 1
  {
    if k == 0 then v else Embed(EmbedBy(v, k - 1))
  }

  ghost function EmbedSetBy(A: set<nat>, k: nat): set<nat>
    requires forall a :: a in A ==> a >= 1
  {
    set a | a in A :: EmbedBy(a, k)
  }

  lemma EmbedSetByUp(A: set<nat>, k: nat, a: nat)
    requires (forall a :: a in A ==> a >= 1) && a in A
    ensures EmbedBy(a, k) in EmbedSetBy(A, k)
  {
  }

  lemma EmbedSetByStep(A: set<nat>, k: nat)
    requires forall a :: a in A ==> a >= 1
    ensures forall b :: b in EmbedSetBy(A, k) ==> b >= 1
    ensures EmbedSet(EmbedSetBy(A, k)) == EmbedSetBy(A, k + 1)
  {
    var B := EmbedSetBy(A, k);
    assert EmbedSet(B) <= EmbedSetBy(A, k + 1) by {
      forall b | b in B ensures Embed(b) in EmbedSetBy(A, k + 1) {
        var a :| a in A && b == EmbedBy(a, k);
        EmbedSetByUp(A, k + 1, a);
      }
    }
    assert EmbedSetBy(A, k + 1) <= EmbedSet(B) by {
      forall a | a in A ensures EmbedBy(a, k + 1) in EmbedSet(B) {
        EmbedSetByUp(A, k, a);
        assert EmbedBy(a, k + 1) == Embed(EmbedBy(a, k));
      }
    }
  }

  /** A grown tree gives every node the same memory as before. */
  lemma {:induction false} EmbeddedIntervalBy(n: nat, v: nat, k: nat)
    requires IsNode(n, v)
    ensures IsNode(n + k, EmbedBy(v, k))
    ensures Width(n + k, EmbedBy(v, k)) == Width(n, v) && Lo(n + k, EmbedBy(v, k)) == Lo(n, v)
  {
    if k > 0 {
      EmbeddedIntervalBy(n, v, k - 1);
      EmbeddedInterval(n + k - 1, EmbedBy(v, k - 1));
    }
  }
}
