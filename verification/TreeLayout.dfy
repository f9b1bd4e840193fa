/** Where the buddy tree keeps the status of each node: node positions, the row offsets, the
    slot of a node, and the proof that the slots tile the bitset without gap or overlap. */
module TreeLayout {
  import opened Powers

  // ---- positions ---------------------------------------------------------------------------

  /** Node 1 is the root; node v has children 2v and 2v + 1. The depth of the root is 1. */
  datatype Pos = Pos(index: nat, depth: nat)

  const INVALID_POS := Pos(0, 0)

  function Root(): Pos { Pos(1, 1) }

  function LeftChild(p: Pos): Pos { Pos(p.index * 2, p.depth + 1) }

  function RightChild(p: Pos): Pos { Pos(p.index * 2 + 1, p.depth + 1) }

  /** Flips the lowest bit of the index. */
  function Sibling(p: Pos): Pos
  {
    Pos(if p.index % 2 == 0 then p.index + 1 else p.index - 1, p.depth)
  }

  function Parent(p: Pos): Pos
    requires p.depth >= 1
  {
    Pos(p.index / 2, p.depth - 1)
  }

  /** The next position in the row; none behind the last one, whose index is all ones. */
  function RightAdjacent(p: Pos): Pos
  {
    if p.index + 1 == Pow2(HighBit(p.index)) then INVALID_POS else Pos(p.index + 1, p.depth)
  }

  lemma LeftChildHasNeighbour(p: Pos)
    requires p.index >= 2 && p.index % 2 == 0
    ensures RightAdjacent(p) == Pos(p.index + 1, p.depth)
  {
    assert Pow2(HighBit(p.index)) == 2 * Pow2(HighBit(p.index) - 1);
  }

  lemma SiblingOfLeft(p: Pos)
    ensures Sibling(LeftChild(p)) == RightChild(p)
  {
    assert (p.index * 2) % 2 == 0;
  }

  function LeftmostChild(order: nat): Pos
    requires order >= 1
  {
    Pos(Pow2(order - 1), order)
  }

  lemma LeftmostParent(order: nat)
    requires order >= 1
    ensures Parent(LeftmostChild(order + 1)) == LeftmostChild(order)
    ensures order > 1 ==> Parent(LeftmostChild(order)) == LeftmostChild(order - 1)
  {
    assert Pow2(order) == 2 * Pow2(order - 1);
  }

  /** The index of the node in its row, counted from 0: the highest bit of the index dropped. */
  function RowIndex(p: Pos): nat
    requires PosOk(p)
  {
    HighBitBounds(p.index);
    p.index - Pow2(p.depth - 1)
  }

  /** A position whose depth agrees with its index. */
  predicate PosOk(p: Pos)
  {
    p.index >= 1 && p.depth == HighBit(p.index)
  }

  /** A node of the tree of the given order. */
  predicate IsNode(n: nat, v: nat)
  {
    1 <= v < Pow2(n)
  }

  lemma NodeDepth(n: nat, v: nat)
    requires IsNode(n, v)
    ensures 1 <= HighBit(v) <= n
    ensures Pow2(HighBit(v) - 1) <= v < Pow2(HighBit(v))
  {
    HighBitBounds(v);
    if HighBit(v) > n { Pow2Monotone(n, HighBit(v) - 1); }
  }

  /** Children are one row deeper, and exist exactly above the last row. */
  lemma ChildDepth(n: nat, v: nat)
    requires IsNode(n, v)
    ensures HighBit(2 * v) == HighBit(v) + 1 == HighBit(2 * v + 1)
    ensures HighBit(v) < n <==> IsNode(n, 2 * v)
    ensures HighBit(v) < n <==> IsNode(n, 2 * v + 1)
  {
    NodeDepth(n, v);
    var d := HighBit(v);
    assert (2 * v) / 2 == v && (2 * v + 1) / 2 == v;
    assert 2 * Pow2(d - 1) == Pow2(d) && 2 * Pow2(d) == Pow2(d + 1);
    if d < n { Pow2Monotone(d + 1, n); }
  }

  lemma DepthInRange(n: nat, p: Pos)
    requires PosOk(p) && IsNode(n, p.index)
    ensures 1 <= p.depth <= n
  {
    NodeDepth(n, p.index);
  }

  lemma ThirdNode()
    ensures RightChild(Root()) == Pos(3, 2) && PosOk(Pos(3, 2))
  {
    assert HighBit(3) == 1 + HighBit(1) == 2 + HighBit(0);
  }

  /** The same for positions. */
  lemma ChildPositions(n: nat, p: Pos)
    requires PosOk(p) && IsNode(n, p.index)
    ensures 1 <= p.depth <= n
    ensures PosOk(LeftChild(p)) && PosOk(RightChild(p))
    ensures p.depth < n <==> IsNode(n, 2 * p.index + 1)
    ensures p.depth < n <==> IsNode(n, 2 * p.index)
  {
    NodeDepth(n, p.index);
    ChildDepth(n, p.index);
  }

  lemma ParentDepth(n: nat, v: nat)
    requires IsNode(n, v) && v > 1
    ensures IsNode(n, v / 2) && HighBit(v) == HighBit(v / 2) + 1
  {
  }

  // ---- row offsets -------------------------------------------------------------------------

  /** Bits used by the rows whose slots are longer than `to`, in a tree of the given order. */
  function SizeForOrder(order: nat, to: nat): nat
    requires to <= order
  {
    if order == to then 0 else order + 2 * SizeForOrder(order - 1, to)
  }

  /** The loop of the source sums rows from the root down; the definition recurses on the order. */
  method ComputeSizeForOrder(order: nat, to: nat) returns (result: nat)
    requires to <= order
    ensures result == SizeForOrder(order, to)
  {
    result := 0;
    var multi: nat, o: nat := 1, order;
    while o != to
      invariant to <= o <= order
      invariant result + multi * SizeForOrder(o, to) == SizeForOrder(order, to)
    {
      Distribute(multi, o, 2 * SizeForOrder(o - 1, to));
      assert multi * (2 * SizeForOrder(o - 1, to)) == (multi * 2) * SizeForOrder(o - 1, to);
      NonNegative(o, multi);
      result := result + o * multi;
      o := o - 1;
      multi := multi * 2;
    }
  }

  /** Row after row: the row of slots of length `to` holds 2^(order - to) of them. */
  lemma {:induction false} RowStep(order: nat, to: nat)
    requires 1 <= to <= order
    ensures SizeForOrder(order, to - 1) == SizeForOrder(order, to) + to * Pow2(order - to)
  {
    if order == to {
      assert SizeForOrder(to, to - 1) == to + 2 * SizeForOrder(to - 1, to - 1);
    } else {
      RowStep(order - 1, to);
      assert Pow2(order - to) == 2 * Pow2(order - 1 - to);
      assert to * (2 * Pow2(order - 1 - to)) == 2 * (to * Pow2(order - 1 - to));
    }
  }

  /** The whole bitset of a tree of order n has 2^(n+1) - n - 2 bits. */
  lemma {:induction false} TotalBits(n: nat)
    ensures SizeForOrder(n, 0) == Pow2(n + 1) - n - 2
  {
    if n > 0 {
      TotalBits(n - 1);
    }
  }

  // ---- slots -------------------------------------------------------------------------------

  /** Length of the slot of node `v`: the number of rows from its own down. */
  function SlotLength(n: nat, v: nat): (r: nat)
    requires IsNode(n, v)
    ensures 1 <= r <= n
  {
    NodeDepth(n, v);
    n - HighBit(v) + 1
  }

  /** First bit of the slot of node `v`: the slots follow each other in index order. */
  function SlotStart(n: nat, v: nat): (r: nat)
    requires IsNode(n, v)
  {
    if v == 1 then 0 else SlotStart(n, v - 1) + SlotLength(n, v - 1)
  }

  lemma RootSlot(n: nat)
    requires n >= 1
    ensures IsNode(n, 1) && SlotStart(n, 1) == 0 && SlotLength(n, 1) == n
  {
    Pow2Monotone(1, n);
    assert HighBit(1) == 1 + HighBit(0);
  }

  /** The position the code computes: the offset of the row plus a multiple of the slot length. */
  function ComputedStart(n: nat, v: nat): int
    requires IsNode(n, v)
  {
    NodeDepth(n, v);
    SizeForOrder(n, SlotLength(n, v)) + SlotLength(n, v) * (v - Pow2(HighBit(v) - 1))
  }

  lemma ComputedNextInRow(n: nat, v: nat)
    requires IsNode(n, v) && v + 1 < Pow2(HighBit(v))
    ensures IsNode(n, v + 1) && ComputedStart(n, v + 1) == ComputedStart(n, v) + SlotLength(n, v)
  {
    NodeDepth(n, v);
    var d := HighBit(v);
    HighBitUnique(v + 1, d);
    Pow2Monotone(d, n);
    var len, i := SlotLength(n, v), v - Pow2(d - 1);
    ComputedStartAt(n, v, len, i);
    ComputedStartAt(n, v + 1, len, i + 1);
    Distribute(len, i, 1);
  }

  lemma ComputedStartAt(n: nat, v: nat, len: nat, i: int)
    requires IsNode(n, v) && len == SlotLength(n, v) && HighBit(v) >= 1 && i == v - Pow2(HighBit(v) - 1)
    ensures len <= n && ComputedStart(n, v) == SizeForOrder(n, len) + len * i
  {
  }

  lemma ComputedRowEnd(n: nat, v: nat)
    requires IsNode(n, v) && v + 1 == Pow2(HighBit(v))
    ensures ComputedStart(n, v) + SlotLength(n, v) == SizeForOrder(n, SlotLength(n, v) - 1)
  {
    NodeDepth(n, v);
    var d := HighBit(v);
    var len := SlotLength(n, v);
    assert Pow2(d) == 2 * Pow2(d - 1);
    Distribute(len, v - Pow2(d - 1), 1);
    RowStep(n, len);
  }

  lemma ComputedRowStart(n: nat, v: nat)
    requires IsNode(n, v) && v + 1 == Pow2(HighBit(v)) && HighBit(v) < n
    ensures IsNode(n, v + 1) && ComputedStart(n, v + 1) == SizeForOrder(n, SlotLength(n, v) - 1)
  {
    var d, len := HighBit(v), SlotLength(n, v);
    Pow2Monotone(d + 1, n);
    HighBitUnique(v + 1, d + 1);
    assert SlotLength(n, v + 1) == len - 1;
    assert ComputedStart(n, v + 1) == SizeForOrder(n, len - 1) + (len - 1) * 0;
  }

  lemma ComputedNext(n: nat, v: nat)
    requires IsNode(n, v) && IsNode(n, v + 1)
    ensures ComputedStart(n, v + 1) == ComputedStart(n, v) + SlotLength(n, v)
  {
    NodeDepth(n, v);
    NodeDepth(n, v + 1);
    if v + 1 < Pow2(HighBit(v)) {
      ComputedNextInRow(n, v);
    } else {
      HighBitUnique(v + 1, HighBit(v) + 1);
      ComputedRowEnd(n, v);
      ComputedRowStart(n, v);
    }
  }

  /** The computed position is the back-to-back one. */
  lemma {:induction false} StartIsComputed(n: nat, v: nat)
    requires IsNode(n, v)
    ensures SlotStart(n, v) == ComputedStart(n, v)
  {
    if v == 1 {
      RootSlot(n);
      assert Pow2(0) == 1;
    } else {
      StartIsComputed(n, v - 1);
      ComputedNext(n, v - 1);
    }
  }

  lemma StartInRow(n: nat, v: nat, len: nat, i: int)
    requires IsNode(n, v) && len == SlotLength(n, v) && i == v - Pow2(HighBit(v) - 1)
    ensures SlotStart(n, v) == SizeForOrder(n, len) + len * i
    ensures 0 <= i < Pow2(HighBit(v) - 1)
  {
    StartIsComputed(n, v);
    NodeDepth(n, v);
  }

  lemma LastNode(n: nat)
    requires n >= 1
    ensures IsNode(n, Pow2(n) - 1) && HighBit(Pow2(n) - 1) == n
  {
    assert Pow2(n) == 2 * Pow2(n - 1);
    HighBitUnique(Pow2(n) - 1, n);
  }

  /** The last slot ends where the bitset ends. */
  lemma LastSlot(n: nat, v: nat)
    requires n >= 1 && v == Pow2(n) - 1
    ensures IsNode(n, v) && SlotStart(n, v) + SlotLength(n, v) == SizeForOrder(n, 0)
  {
    LastNode(n);
    StartIsComputed(n, v);
    ComputedRowEnd(n, v);
  }

  /** Different nodes never share a bit ... */
  lemma {:induction false} SlotsDisjoint(n: nat, u: nat, v: nat)
    requires IsNode(n, u) && IsNode(n, v) && u < v
    ensures SlotStart(n, u) + SlotLength(n, u) <= SlotStart(n, v)
    decreases v
  {
    if u < v - 1 {
      SlotsDisjoint(n, u, v - 1);
    }
  }

  lemma SlotBeforeLast(n: nat, v: nat, last: nat)
    requires n >= 1 && IsNode(n, v) && last == Pow2(n) - 1
    ensures SlotStart(n, v) + SlotLength(n, v) <= SizeForOrder(n, 0)
  {
    LastSlot(n, last);
    var end := SlotStart(n, last) + SlotLength(n, last);
    assert SlotStart(n, v) + SlotLength(n, v) <= end by {
      if v < last { SlotsDisjoint(n, v, last); } else { assert v == last; }
    }
  }

  /** ... and every slot ends within the bitset. */
  lemma SlotWithin(n: nat, v: nat)
    requires IsNode(n, v)
    ensures SlotStart(n, v) + SlotLength(n, v) <= SizeForOrder(n, 0)
  {
    NodeDepth(n, v);
    SlotBeforeLast(n, v, Pow2(n) - 1);
  }

  /** No gap either: every bit of the bitset lies in the slot of some node. */
  lemma {:induction false} SlotsTile(n: nat, k: nat, last: nat) returns (v: nat)
    requires IsNode(n, last) && k < SlotStart(n, last) + SlotLength(n, last)
    ensures IsNode(n, v) && v <= last && SlotStart(n, v) <= k < SlotStart(n, v) + SlotLength(n, v)
  {
    RootSlot(n);
    if SlotStart(n, last) <= k {
      v := last;
    } else {
      v := SlotsTile(n, k, last - 1);
    }
  }

  lemma EveryBitOwned(n: nat, k: nat) returns (v: nat)
    requires k < SizeForOrder(n, 0)
    ensures IsNode(n, v) && SlotStart(n, v) <= k < SlotStart(n, v) + SlotLength(n, v)
  {
    if n >= 1 {
      LastSlot(n, Pow2(n) - 1);
      v := SlotsTile(n, k, Pow2(n) - 1);
    }
  }

  // ---- size of the tree and its offset table -----------------------------------------------

  const SIZEOF_SIZE_T: nat := 8
  const SIZEOF_BUDDY_TREE: nat := 24

  function BitsetSizeof(elements: nat): nat
  {
    (elements + 7) / 8
  }

  /** The padding of the source: the remainder is added, not what is missing to the next word. */
  function PaddedBitset(order: nat): nat
  {
    var size := BitsetSizeof(SizeForOrder(order, 0));
    size + size % SIZEOF_SIZE_T
  }

  function TreeSizeof(order: nat): nat
  {
    SIZEOF_BUDDY_TREE + PaddedBitset(order) + (order + 2) * SIZEOF_SIZE_T
  }

  /** First word of the offset table, counted in words from the start of the bitset. */
  function TableOffset(order: nat): nat
  {
    PaddedBitset(order) / SIZEOF_SIZE_T + 1
  }

  /** Although the padding need not reach a word boundary, the extra word makes the table start
      behind the last byte of the bitset, and it ends within the space the tree asks for. */
  lemma TableFits(order: nat)
    ensures SIZEOF_SIZE_T * TableOffset(order) >= BitsetSizeof(SizeForOrder(order, 0))
    ensures 8 * SIZEOF_SIZE_T * TableOffset(order) >= SizeForOrder(order, 0)
    ensures SIZEOF_BUDDY_TREE + SIZEOF_SIZE_T * (TableOffset(order) + order + 1) <= TreeSizeof(order)
    ensures var size := (Pow2(order + 1) - order - 2 + 7) / 8;
            TreeSizeof(order) == 24 + size + size % 8 + 8 * (order + 2) && TableOffset(order) == (size + size % 8) / 8 + 1
  {
    TotalBits(order);
  }
}
