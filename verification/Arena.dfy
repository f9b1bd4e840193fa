/** The memory behind the tree: nodes as blocks of bytes, blocks kept apart, and the leaves behind
    the end of the arena held by the masked nodes. */
module Arena {
  import opened Powers
  import opened BitMath
  import opened TreeLayout
  import opened Statuses
  import opened Search
  import opened Coverage
  import opened VirtualSlots

  datatype Block = Block(address: nat, size: nat)

  predicate Apart(b: Block, c: Block)
  {
    b.address + b.size <= c.address || c.address + c.size <= b.address
  }

  /** Bytes taken by a number of leaves. */
  function Span(alignment: nat, leaves: nat): nat
  {
    if leaves == 0 then 0 else Span(alignment, leaves - 1) + alignment
  }

  /** The bytes of a node: leaves are `alignment` bytes each, counted from `main`. */
  ghost function BlockOf(n: nat, main: nat, alignment: nat, v: nat): Block
    requires IsNode(n, v)
  {
    Block(main + Span(alignment, Lo(n, v)), Span(alignment, Width(n, v)))
  }

  ghost function BlocksOf(n: nat, main: nat, alignment: nat, A: set<nat>): set<Block>
    requires forall a :: a in A ==> IsNode(n, a)
  {
    set a | a in A :: BlockOf(n, main, alignment, a)
  }

  // ---- scaling -----------------------------------------------------------------------------

  lemma Scaled(alignment: nat, x: nat, y: nat)
    requires alignment > 0
    ensures x <= y <==> alignment * x <= alignment * y
    ensures x == y <==> alignment * x == alignment * y
  {
    if x < y {
      Distribute(alignment, y, x);
      NonNegative(alignment, y - x - 1);
      Distribute(alignment, y - x, 1);
    } else if y < x {
      Distribute(alignment, x, y);
      NonNegative(alignment, x - y - 1);
      Distribute(alignment, x - y, 1);
    }
  }

  lemma {:induction false} SpanIs(alignment: nat, leaves: nat)
    ensures Span(alignment, leaves) == alignment * leaves
  {
    if leaves > 0 {
      SpanIs(alignment, leaves - 1);
      Distribute(alignment, leaves, 1);
    }
  }

  lemma SpanOrder(alignment: nat, x: nat, y: nat)
    requires alignment > 0
    ensures x <= y <==> Span(alignment, x) <= Span(alignment, y)
    ensures x == y <==> Span(alignment, x) == Span(alignment, y)
  {
    SpanIs(alignment, x);
    SpanIs(alignment, y);
    Scaled(alignment, x, y);
  }

  lemma Reassociate(a: int, b: int, c: int)
    ensures (a * b) * c == a * (c * b)
  {
  }

  lemma SpanTimes(alignment: nat, w: nat, k: nat, kw: nat)
    requires kw == k * w
    ensures Span(alignment, w) * k == Span(alignment, kw)
  {
    SpanIs(alignment, w);
    SpanIs(alignment, kw);
    Reassociate(alignment, w, k);
  }

  lemma {:induction false} SpanAdd(alignment: nat, x: nat, y: nat)
    ensures Span(alignment, x + y) == Span(alignment, x) + Span(alignment, y)
  {
    if y > 0 { SpanAdd(alignment, x, y - 1); }
  }

  lemma SpanSum(alignment: nat, x: nat, y: nat, sum: nat)
    requires sum == x + y
    ensures Span(alignment, sum) == Span(alignment, x) + Span(alignment, y)
  {
    SpanAdd(alignment, x, y);
  }

  lemma NodeAdded(n: nat, alignment: nat, leaves: nat, p: Pos, size: nat, leaves': nat)
    requires PosOk(p) && IsNode(n, p.index) && p.depth <= n && size == Span(alignment, Pow2(n - p.depth))
    requires leaves' == leaves + Width(n, p.index)
    ensures Span(alignment, leaves') == Span(alignment, leaves) + size
  {
    SpanAdd(alignment, leaves, Width(n, p.index));
  }

  lemma RowBlock(n: nat, main: nat, alignment: nat, p: Pos, size: nat)
    requires PosOk(p) && IsNode(n, p.index) && p.depth <= n && size == Span(alignment, Pow2(n - p.depth))
    ensures BlockOf(n, main, alignment, p.index).size == size
  {
  }

  lemma BlockEnd(n: nat, main: nat, alignment: nat, v: nat)
    requires IsNode(n, v)
    ensures var b := BlockOf(n, main, alignment, v); b.address + b.size == main + Span(alignment, Hi(n, v))
  {
    SpanAdd(alignment, Lo(n, v), Width(n, v));
  }

  /** Blocks are apart exactly when the leaf intervals are. */
  lemma ApartIsDisjoint(n: nat, main: nat, alignment: nat, u: nat, v: nat)
    requires alignment > 0 && IsNode(n, u) && IsNode(n, v)
    ensures Apart(BlockOf(n, main, alignment, u), BlockOf(n, main, alignment, v))
            <==> Hi(n, u) <= Lo(n, v) || Hi(n, v) <= Lo(n, u)
  {
    BlockEnd(n, main, alignment, u);
    BlockEnd(n, main, alignment, v);
    SpanOrder(alignment, Hi(n, u), Lo(n, v));
    SpanOrder(alignment, Hi(n, v), Lo(n, u));
  }

  // ---- sizes and depths --------------------------------------------------------------------

  lemma {:induction false} ShrPow2(e: nat, c: nat)
    requires c <= e
    ensures Shr(Pow2(e), c) == Pow2(e - c)
    decreases c
  {
    if c > 0 { ShrPow2(e - 1, c - 1); }
  }

  /** The arena of `blocks` leaves fits the tree of order `n` and more than half fills it. */
  ghost predicate Fits(n: nat, blocks: nat)
  {
    n >= 1 && blocks <= Pow2(n - 1) < 2 * blocks
  }

  /** Rounding the bytes up and rounding the blocks up is the same. */
  lemma EffectiveSize(ax: nat, alignment: nat, n: nat, blocks: nat, memorySize: nat)
    requires alignment == Pow2(ax) && Fits(n, blocks) && memorySize == Span(alignment, blocks) <= HALF_LIMIT
    ensures memorySize > 0 && CeilingPow2(memorySize) == Pow2(ax + n - 1) == Span(alignment, Pow2(n - 1))
  {
    SpanOrder(alignment, 1, blocks);
    SpanOrder(alignment, blocks, Pow2(n - 1));
    SpanOrder(alignment, 2 * blocks, Pow2(n - 1));
    SpanAdd(alignment, blocks, blocks);
    SpanOfPower(ax, n - 1);
    PowerBetween(memorySize, ax + n - 1);
  }

  lemma SpanOfPower(ax: nat, e: nat)
    ensures Span(Pow2(ax), Pow2(e)) == Pow2(ax + e)
  {
    SpanIs(Pow2(ax), Pow2(e));
    Pow2Add(ax, e);
  }

  /** The power of two between a value and its double is the one rounding up yields. */
  lemma PowerBetween(value: nat, e: nat)
    requires 0 < value <= HALF_LIMIT && value <= Pow2(e) < 2 * value
    ensures CeilingPow2(value) == Pow2(e)
  {
    CeilingArgumentOdd(value);
    CeilingPow2Bounds(value);
    var c := HighBit(CeilingArgument(value)) - 1;
    if c < e { Pow2Monotone(c, e); }
    if e < c { Pow2Monotone(e, c); }
  }

  /** The size the code computes for a depth is that of the nodes at that depth. */
  lemma SizeAtDepth(ax: nat, n: nat, effective: nat, depth: nat)
    requires 1 <= depth <= n && effective == Pow2(ax + n - 1)
    ensures Shr(effective, depth - 1) == Pow2(ax + n - depth) == Span(Pow2(ax), Pow2(n - depth))
  {
    ShrPow2(ax + n - 1, depth - 1);
    SpanOfPower(ax, n - depth);
  }

  /** The address the code computes: the row index times the size. */
  lemma AddressOfNode(n: nat, alignment: nat, v: nat, size: nat)
    requires IsNode(n, v) && size == Span(alignment, Width(n, v))
    ensures Pow2(HighBit(v) - 1) <= v && size * (v - Pow2(HighBit(v) - 1)) == Span(alignment, Lo(n, v))
  {
    LoIsRowTimesWidth(n, v);
    SpanTimes(alignment, Width(n, v), v - Pow2(HighBit(v) - 1), Lo(n, v));
  }

  // ---- live and masked nodes ---------------------------------------------------------------

  /** The allocated nodes are the live ones and the masked ones, without overlap. */
  ghost predicate Split(n: nat, blocks: nat, alloc: set<nat>, live: set<nat>)
  {
    && Fits(n, blocks) && Allocation(n, alloc)
    && alloc == live + Virtual(n, blocks) && live !! Virtual(n, blocks)
  }

  /** A node that nothing masked meets ends within the arena. */
  lemma EndsInside(n: nat, blocks: nat, v: nat)
    requires n >= 1 && blocks <= Pow2(n - 1) && IsNode(n, v)
    requires forall x :: x in Virtual(n, blocks) ==> x >= 1 && !Above(x, v) && !Above(v, x)
    ensures Hi(n, v) <= blocks
  {
    VirtualCovers(n, blocks);
    RootInterval(n);
    RootAboveAll(v);
    Nested(n, 1, v);
    if Hi(n, v) > blocks {
      var i := if Lo(n, v) <= blocks then blocks else Lo(n, v);
      assert Covered(n, Virtual(n, blocks), i);
      var x :| x in Virtual(n, blocks) && Lo(n, x) <= i < Hi(n, x);
      DisjointIntervals(n, x, v);
    }
  }

  lemma LiveInside(n: nat, blocks: nat, alloc: set<nat>, live: set<nat>, v: nat)
    requires Split(n, blocks, alloc, live) && v in live
    ensures IsNode(n, v) && Hi(n, v) <= blocks
  {
    EndsInside(n, blocks, v);
  }

  lemma FreeInside(n: nat, blocks: nat, alloc: set<nat>, live: set<nat>, v: nat)
    requires Split(n, blocks, alloc, live) && IsNode(n, v) && Free(n, alloc, v)
    ensures Hi(n, v) <= blocks
  {
    EndsInside(n, blocks, v);
  }

  lemma AllocatedInsideIsLive(n: nat, blocks: nat, alloc: set<nat>, live: set<nat>, v: nat)
    requires Split(n, blocks, alloc, live) && v in alloc && Lo(n, v) < blocks
    ensures v in live
  {
    VirtualCovers(n, blocks);
  }

  lemma MarkSplit(n: nat, blocks: nat, alloc: set<nat>, live: set<nat>, v: nat)
    requires Split(n, blocks, alloc, live) && IsNode(n, v) && Free(n, alloc, v)
    ensures Split(n, blocks, alloc + {v}, live + {v})
  {
    assert Above(v, v);
    MarkKeepsAllocation(n, alloc, v);
  }

  lemma ReleaseSplit(n: nat, blocks: nat, alloc: set<nat>, live: set<nat>, v: nat)
    requires Split(n, blocks, alloc, live) && v in live
    ensures Split(n, blocks, alloc - {v}, live - {v})
  {
  }

  /** Two allocations on either side of a leaf make one. */
  lemma JoinAllocations(n: nat, A: set<nat>, B: set<nat>, m: nat)
    requires Allocation(n, A) && Allocation(n, B)
    requires forall a :: a in A ==> Hi(n, a) <= m
    requires forall b :: b in B ==> m <= Lo(n, b)
    ensures Allocation(n, A + B) && A !! B
  {
    forall a, b | a in A && b in B ensures !Above(a, b) && !Above(b, a) {
      if Above(a, b) { Nested(n, a, b); }
      if Above(b, a) { Nested(n, b, a); }
    }
  }

  // ---- the set of live blocks --------------------------------------------------------------

  lemma InBlocks(n: nat, main: nat, alignment: nat, A: set<nat>, a: nat)
    requires (forall a :: a in A ==> IsNode(n, a)) && a in A
    ensures BlockOf(n, main, alignment, a) in BlocksOf(n, main, alignment, A)
  {
  }

  lemma AddBlock(n: nat, main: nat, alignment: nat, A: set<nat>, v: nat)
    requires (forall a :: a in A ==> IsNode(n, a)) && IsNode(n, v)
    ensures BlocksOf(n, main, alignment, A + {v})
            == BlocksOf(n, main, alignment, A) + {BlockOf(n, main, alignment, v)}
  {
    var A' := A + {v};
    forall a | a in A ensures BlockOf(n, main, alignment, a) in BlocksOf(n, main, alignment, A') {
      InBlocks(n, main, alignment, A', a);
    }
    InBlocks(n, main, alignment, A', v);
  }

  /** Allocated nodes have different addresses, so a block belongs to one of them only. */
  lemma BlockIdentifiesNode(n: nat, main: nat, alignment: nat, A: set<nat>, u: nat, v: nat)
    requires n >= 1 && alignment > 0 && Allocation(n, A) && u in A && v in A
    requires BlockOf(n, main, alignment, u).address == BlockOf(n, main, alignment, v).address
    ensures u == v
  {
    SpanOrder(alignment, Lo(n, u), Lo(n, v));
    if u != v { DisjointIntervals(n, u, v); }
  }

  lemma RemoveBlock(n: nat, main: nat, alignment: nat, A: set<nat>, v: nat)
    requires n >= 1 && alignment > 0 && Allocation(n, A) && v in A
    ensures BlocksOf(n, main, alignment, A - {v})
            == BlocksOf(n, main, alignment, A) - {BlockOf(n, main, alignment, v)}
  {
    var b := BlockOf(n, main, alignment, v);
    forall a | a in A && a != v ensures BlockOf(n, main, alignment, a) != b {
      if BlockOf(n, main, alignment, a) == b { BlockIdentifiesNode(n, main, alignment, A, a, v); }
    }
    forall c | c in BlocksOf(n, main, alignment, A) && c != b ensures c in BlocksOf(n, main, alignment, A - {v}) {
      var a :| a in A && c == BlockOf(n, main, alignment, a);
      InBlocks(n, main, alignment, A - {v}, a);
    }
  }

  /** The blocks of a set of nodes are apart from each other and lie inside the arena. */
  ghost predicate Orderly(B: set<Block>, main: nat, memorySize: nat, alignment: nat)
  {
    && (forall b :: b in B ==> b.size > 0 && main <= b.address && b.address + b.size <= main + memorySize)
    && (forall b, c :: b in B && c in B && b != c ==> Apart(b, c))
    && (forall b :: b in B ==> exists k: nat :: b.address == main + b.size * k)
    && (forall b :: b in B ==> exists e: nat :: b.size == Span(alignment, Pow2(e)))
  }

  lemma NodeBlock(n: nat, main: nat, alignment: nat, v: nat)
    requires alignment > 0 && IsNode(n, v)
    ensures BlockOf(n, main, alignment, v).size > 0
    ensures exists k: nat :: BlockOf(n, main, alignment, v).address == main + BlockOf(n, main, alignment, v).size * k
    ensures exists e: nat :: BlockOf(n, main, alignment, v).size == Span(alignment, Pow2(e))
  {
    var b := BlockOf(n, main, alignment, v);
    SpanOrder(alignment, 1, Width(n, v));
    AddressOfNode(n, alignment, v, b.size);
    var k := v - Pow2(HighBit(v) - 1);
    assert b.address == main + b.size * k;
    NodeDepth(n, v);
    var e := n - HighBit(v);
    assert b.size == Span(alignment, Pow2(e));
  }

  lemma LiveBlocksOrderly(n: nat, blocks: nat, alloc: set<nat>, live: set<nat>, main: nat, alignment: nat)
    requires Split(n, blocks, alloc, live) && alignment > 0
    ensures Orderly(BlocksOf(n, main, alignment, live), main, Span(alignment, blocks), alignment)
  {
    var B := BlocksOf(n, main, alignment, live);
    forall b | b in B
      ensures b.size > 0 && main <= b.address && b.address + b.size <= main + Span(alignment, blocks)
      ensures exists k: nat :: b.address == main + b.size * k
      ensures exists e: nat :: b.size == Span(alignment, Pow2(e))
    {
      var v :| v in live && b == BlockOf(n, main, alignment, v);
      LiveInside(n, blocks, alloc, live, v);
      BlockEnd(n, main, alignment, v);
      SpanOrder(alignment, Hi(n, v), blocks);
      NodeBlock(n, main, alignment, v);
    }
    forall b, c | b in B && c in B && b != c ensures Apart(b, c) {
      var u :| u in live && b == BlockOf(n, main, alignment, u);
      var v :| v in live && c == BlockOf(n, main, alignment, v);
      DisjointIntervals(n, u, v);
      ApartIsDisjoint(n, main, alignment, u, v);
    }
  }

  // ---- room for a request ------------------------------------------------------------------

  /** Some stretch of `size` bytes at a multiple of `size` lies in the arena, apart from all blocks. */
  ghost predicate Room(B: set<Block>, main: nat, memorySize: nat, size: nat)
  {
    exists k: nat :: RoomAt(B, main, memorySize, size, k)
  }

  ghost predicate RoomAt(B: set<Block>, main: nat, memorySize: nat, size: nat, k: nat)
  {
    && size * k + size <= memorySize
    && forall b :: b in B ==> Apart(b, Block(main + size * k, size))
  }

  /** There is room exactly if some multiple of the size will do. */
  lemma RoomThere(B: set<Block>, main: nat, memorySize: nat, size: nat, k: nat)
    requires size * k + size <= memorySize
    requires forall b :: b in B ==> b.address + b.size <= main + size * k || main + size * k + size <= b.address
    ensures Room(B, main, memorySize, size)
  {
    assert RoomAt(B, main, memorySize, size, k);
  }

  lemma RoomWhere(B: set<Block>, main: nat, memorySize: nat, size: nat) returns (k: nat)
    requires Room(B, main, memorySize, size)
    ensures size * k + size <= memorySize
    ensures forall b :: b in B ==> b.address + b.size <= main + size * k || main + size * k + size <= b.address
  {
    k :| RoomAt(B, main, memorySize, size, k);
  }

  /** A node is free exactly when its leaves lie in the arena and meet no live node. */
  lemma FreeIsDisjoint(n: nat, blocks: nat, alloc: set<nat>, live: set<nat>, v: nat)
    requires Split(n, blocks, alloc, live) && IsNode(n, v)
    ensures Free(n, alloc, v) <==>
            Hi(n, v) <= blocks && forall a :: a in live ==> Hi(n, a) <= Lo(n, v) || Hi(n, v) <= Lo(n, a)
  {
    if Free(n, alloc, v) {
      FreeInside(n, blocks, alloc, live, v);
      forall a | a in live ensures Hi(n, a) <= Lo(n, v) || Hi(n, v) <= Lo(n, a) {
        DisjointIntervals(n, a, v);
      }
    }
    if Hi(n, v) <= blocks && forall a :: a in live ==> Hi(n, a) <= Lo(n, v) || Hi(n, v) <= Lo(n, a) {
      VirtualCovers(n, blocks);
      forall a | a in alloc ensures !Above(a, v) && !Above(v, a) {
        if Above(a, v) { Nested(n, a, v); }
        if Above(v, a) { Nested(n, v, a); }
      }
    }
  }

  lemma BlocksApart(n: nat, main: nat, alignment: nat, live: set<nat>, v: nat)
    requires alignment > 0 && IsNode(n, v) && forall a :: a in live ==> IsNode(n, a)
    ensures (forall a :: a in live ==> Hi(n, a) <= Lo(n, v) || Hi(n, v) <= Lo(n, a)) <==>
            (forall b :: b in BlocksOf(n, main, alignment, live) ==> Apart(b, BlockOf(n, main, alignment, v)))
  {
    var B, c := BlocksOf(n, main, alignment, live), BlockOf(n, main, alignment, v);
    forall a | a in live
      ensures BlockOf(n, main, alignment, a) in B
      ensures Apart(BlockOf(n, main, alignment, a), c) <==> Hi(n, a) <= Lo(n, v) || Hi(n, v) <= Lo(n, a)
    {
      InBlocks(n, main, alignment, live, a);
      ApartIsDisjoint(n, main, alignment, a, v);
    }
  }

  /** A node is free exactly when its bytes lie in the arena and meet no live block. */
  lemma FreeIsRoom(n: nat, blocks: nat, alloc: set<nat>, live: set<nat>, main: nat, alignment: nat, v: nat,
                   size: nat, k: nat)
    requires Split(n, blocks, alloc, live) && alignment > 0 && IsNode(n, v) && size == Span(alignment, Width(n, v))
    requires Pow2(HighBit(v) - 1) <= v && k == v - Pow2(HighBit(v) - 1)
    ensures Free(n, alloc, v) <==>
            RoomAt(BlocksOf(n, main, alignment, live), main, Span(alignment, blocks), size, k)
  {
    AddressOfNode(n, alignment, v, size);
    assert BlockOf(n, main, alignment, v) == Block(main + size * k, size);
    BlockEnd(n, main, alignment, v);
    SpanOrder(alignment, Hi(n, v), blocks);
    FreeIsDisjoint(n, blocks, alloc, live, v);
    BlocksApart(n, main, alignment, live, v);
  }

  lemma FreeGivesRoom(n: nat, blocks: nat, alloc: set<nat>, live: set<nat>, main: nat, alignment: nat, depth: nat,
                      size: nat)
    requires Split(n, blocks, alloc, live) && alignment > 0 && 1 <= depth <= n && size == Span(alignment, Pow2(n - depth))
    requires HasFree(n, alloc, 1, depth)
    ensures Room(BlocksOf(n, main, alignment, live), main, Span(alignment, blocks), size)
  {
    var u: nat :| IsNode(n, u) && HighBit(u) == depth && Above(1, u) && Free(n, alloc, u);
    NodeDepth(n, u);
    FreeIsRoom(n, blocks, alloc, live, main, alignment, u, size, u - Pow2(depth - 1));
  }

  lemma RoomGivesFree(n: nat, blocks: nat, alloc: set<nat>, live: set<nat>, main: nat, alignment: nat, depth: nat,
                      size: nat)
    requires Split(n, blocks, alloc, live) && alignment > 0 && 1 <= depth <= n && size == Span(alignment, Pow2(n - depth))
    requires Room(BlocksOf(n, main, alignment, live), main, Span(alignment, blocks), size)
    ensures HasFree(n, alloc, 1, depth)
  {
    var k: nat :| RoomAt(BlocksOf(n, main, alignment, live), main, Span(alignment, blocks), size, k);
    var v := RowNode(n, alignment, blocks, depth, size, k);
    FreeIsRoom(n, blocks, alloc, live, main, alignment, v, size, k);
    RootAboveAll(v);
  }

  /** The tree has a free node at a depth exactly when the arena has room for its size. */
  lemma HasFreeIsRoom(n: nat, blocks: nat, alloc: set<nat>, live: set<nat>, main: nat, alignment: nat, depth: nat,
                      size: nat)
    requires Split(n, blocks, alloc, live) && alignment > 0 && 1 <= depth <= n && size == Span(alignment, Pow2(n - depth))
    ensures HasFree(n, alloc, 1, depth) <==> Room(BlocksOf(n, main, alignment, live), main, Span(alignment, blocks), size)
  {
    if HasFree(n, alloc, 1, depth) { FreeGivesRoom(n, blocks, alloc, live, main, alignment, depth, size); }
    if Room(BlocksOf(n, main, alignment, live), main, Span(alignment, blocks), size) {
      RoomGivesFree(n, blocks, alloc, live, main, alignment, depth, size);
    }
  }

  /** A stretch in the arena is that of a node of its row. */
  lemma RowNode(n: nat, alignment: nat, blocks: nat, depth: nat, size: nat, k: nat) returns (v: nat)
    requires Fits(n, blocks) && alignment > 0 && 1 <= depth <= n && size == Span(alignment, Pow2(n - depth))
    requires size * k + size <= Span(alignment, blocks)
    ensures IsNode(n, v) && HighBit(v) == depth && v == Pow2(depth - 1) + k
  {
    v := Pow2(depth - 1) + k;
    RowRoom(alignment, Pow2(n - depth), blocks, k, size);
    Pow2Add(n - depth, depth - 1);
    assert Pow2(depth) == 2 * Pow2(depth - 1);
    Pow2Monotone(depth, n);
    RowFits(Pow2(n - depth), Pow2(depth - 1), k);
    HighBitUnique(v, depth);
  }

  lemma RowRoom(alignment: nat, w: nat, blocks: nat, k: nat, size: nat)
    requires alignment > 0 && size == Span(alignment, w) && size * k + size <= Span(alignment, blocks)
    ensures w * (k + 1) <= blocks
  {
    Distribute(size, k, 1);
    Distribute(w, k, 1);
    NonNegative(w, k + 1);
    assert (k + 1) * w == w * (k + 1);
    SpanTimes(alignment, w, k + 1, w * (k + 1));
    SpanOrder(alignment, w * (k + 1), blocks);
  }

  lemma RowFits(w: nat, row: nat, k: nat)
    requires w > 0 && w * (k + 1) <= w * row
    ensures k + 1 <= row
  {
    Scaled(w, k + 1, row);
  }

  // ---- conservation ------------------------------------------------------------------------

  /** Total size of a set of blocks. */
  ghost function TotalSize(B: set<Block>): nat
  {
    if B == {} then 0 else
      var b :| b in B;
      b.size + TotalSize(B - {b})
  }

  lemma {:induction false} TotalSizePick(B: set<Block>, c: Block)
    requires c in B
    ensures TotalSize(B) == c.size + TotalSize(B - {c})
    decreases B
  {
    var b :| b in B && TotalSize(B) == b.size + TotalSize(B - {b});
    if b != c {
      TotalSizePick(B - {b}, c);
      TotalSizePick(B - {c}, b);
      assert B - {b} - {c} == B - {c} - {b};
    }
  }

  lemma TotalSizeStep(n: nat, main: nat, alignment: nat, A: set<nat>, v: nat)
    requires n >= 1 && alignment > 0 && Allocation(n, A) && v in A
    ensures TotalSize(BlocksOf(n, main, alignment, A))
            == Span(alignment, Width(n, v)) + TotalSize(BlocksOf(n, main, alignment, A - {v}))
  {
    RemoveBlock(n, main, alignment, A, v);
    InBlocks(n, main, alignment, A, v);
    TotalSizePick(BlocksOf(n, main, alignment, A), BlockOf(n, main, alignment, v));
  }

  lemma NoBlocks(n: nat, main: nat, alignment: nat)
    ensures TotalSize(BlocksOf(n, main, alignment, {})) == 0
  {
    assert BlocksOf(n, main, alignment, {}) == {};
  }

  lemma {:induction false} TotalSizeOfNodes(n: nat, main: nat, alignment: nat, A: set<nat>)
    requires n >= 1 && alignment > 0 && Allocation(n, A)
    ensures TotalSize(BlocksOf(n, main, alignment, A)) == Span(alignment, TotalWidth(n, A))
    decreases A
  {
    if A == {} {
      NoBlocks(n, main, alignment);
    } else {
      var v :| v in A;
      TotalSizeStep(n, main, alignment, A, v);
      TotalWidthPick(n, A, v);
      TotalSizeOfNodes(n, main, alignment, A - {v});
      SpanSum(alignment, Width(n, v), TotalWidth(n, A - {v}), TotalWidth(n, A));
    }
  }

  /** Free leaves and live leaves make up the arena. */
  lemma FreeAndLive(n: nat, blocks: nat, alloc: set<nat>, live: set<nat>)
    requires Split(n, blocks, alloc, live)
    ensures FreeLeaves(n, alloc, Pow2(n - 1)) + TotalWidth(n, live) == blocks
  {
    var all := Pow2(n - 1);
    var V := Virtual(n, blocks);
    VirtualCovers(n, blocks);
    forall i: nat ensures Covered(n, alloc, i) <==> Covered(n, live, i) || Covered(n, V, i) {
      if Covered(n, live, i) { var a :| a in live && Lo(n, a) <= i < Hi(n, a); assert a in alloc; }
      if Covered(n, V, i) { var a :| a in V && Lo(n, a) <= i < Hi(n, a); assert a in alloc; }
    }
    forall i: nat | blocks <= i ensures !Covered(n, live, i) {
      forall a | a in live ensures !(Lo(n, a) <= i < Hi(n, a)) { LiveInside(n, blocks, alloc, live, a); }
    }
    SameLeaves(n, alloc, live, 0, blocks);
    CoveredStretch(n, alloc, blocks, all);
    FreeStretch(n, live, blocks, all);
    Conservation(n, live);
  }

  /** The same in bytes. */
  lemma FreeAndLiveBytes(n: nat, blocks: nat, alloc: set<nat>, live: set<nat>, main: nat, alignment: nat)
    requires Split(n, blocks, alloc, live) && alignment > 0
    ensures Span(alignment, FreeLeaves(n, alloc, Pow2(n - 1))) + TotalSize(BlocksOf(n, main, alignment, live))
            == Span(alignment, blocks)
  {
    FreeAndLive(n, blocks, alloc, live);
    SpanAdd(alignment, FreeLeaves(n, alloc, Pow2(n - 1)), TotalWidth(n, live));
    TotalSizeOfNodes(n, main, alignment, live);
  }
}
