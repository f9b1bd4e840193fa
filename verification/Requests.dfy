/** From requests to blocks: the size a request gets, the climb from an address to its owner, and
    the bookkeeping of the masking loop. */
module Requests {
  import opened Powers
  import opened BitMath
  import opened TreeLayout
  import opened Statuses
  import opened Search
  import opened Coverage
  import opened Growth
  import opened VirtualSlots
  import opened Arena

  // ---- sizes -------------------------------------------------------------------------------

  /** The first of `size`, 2 `size`, 4 `size`, ... that holds the request. */
  function FittingSize(size: nat, request: nat): (r: nat)
    requires size > 0
    ensures r >= request
    decreases if size < request then request - size else 0
  {
    if size >= request then size else FittingSize(2 * size, request)
  }

  /** The fitting size wastes less than half, unless the request is below the smallest block. */
  lemma {:induction false} FittingSizeTight(size: nat, request: nat)
    requires size > 0
    ensures FittingSize(size, request) < 2 * (if request < size then size else request)
    decreases if size < request then request - size else 0
  {
    if size < request { FittingSizeTight(2 * size, request); }
  }

  /** A request that exceeds the arena has no room. */
  lemma NoRoomBeyond(B: set<Block>, main: nat, memorySize: nat, alignment: nat, request: nat)
    requires alignment > 0 && request > memorySize
    ensures !Room(B, main, memorySize, FittingSize(alignment, request))
  {
    var size := FittingSize(alignment, request);
    forall k: nat ensures !RoomAt(B, main, memorySize, size, k) { NonNegative(size, k); }
  }

  /** Where a new block lies: inside the arena, at a multiple of its size, apart from all others; and
      how large it is: a power of two of smallest blocks that holds the request and wastes less
      than half, unless the request is below the smallest block. */
  lemma NewBlockPlaced(B: set<Block>, p: nat, size: nat, main: nat, memorySize: nat, alignment: nat, request: nat)
    requires alignment > 0 && Orderly(B + {Block(p, size)}, main, memorySize, alignment) && Block(p, size) !in B
    requires size == FittingSize(alignment, request)
    ensures request <= size < 2 * (if request < alignment then alignment else request)
    ensures exists e: nat :: size == alignment * Pow2(e)
    ensures main <= p && p + size <= main + memorySize && exists k: nat :: p == main + size * k
    ensures forall b :: b in B ==> b.address + b.size <= p || p + size <= b.address
  {
    FittingSizeTight(alignment, request);
    var b := Block(p, size);
    assert b in B + {b};
    var e: nat :| b.size == Span(alignment, Pow2(e));
    SpanIs(alignment, Pow2(e));
    forall c | c in B ensures c.address + c.size <= p || p + size <= c.address {
      assert c in B + {b} && Apart(c, b);
    }
  }

  lemma {:induction false} FittingSizeIs(alignment: nat, request: nat, e: nat)
    requires alignment > 0
    requires request <= Span(alignment, Pow2(e)) < 2 * (if request < alignment then alignment else request)
    ensures FittingSize(alignment, request) == Span(alignment, Pow2(e))
    decreases e
  {
    if e == 0 {
      assert Span(alignment, 1) == Span(alignment, 0) + alignment;
    } else {
      SpanDoubled(alignment, e);
      SpanOrder(2 * alignment, 1, Pow2(e - 1));
      assert Span(2 * alignment, 1) == Span(2 * alignment, 0) + 2 * alignment;
      FittingSizeIs(2 * alignment, request, e - 1);
    }
  }

  lemma SpanDoubled(alignment: nat, e: nat)
    requires e > 0
    ensures Span(alignment, Pow2(e)) == Span(2 * alignment, Pow2(e - 1))
  {
    SpanIs(alignment, Pow2(e));
    SpanIs(2 * alignment, Pow2(e - 1));
    assert alignment * (2 * Pow2(e - 1)) == (2 * alignment) * Pow2(e - 1);
  }

  /** The loop test of the depth search: another halving still holds the request. */
  lemma HalvedQuotient(effective: nat, size: nat)
    requires size > 0
    ensures Shr(effective / size, 1) != 0 <==> effective >= 2 * size
    ensures effective >= 2 * size && effective % 2 == 0 ==> effective / 2 >= size
  {
    var q, r := effective / size, effective % size;
    assert effective == size * q + r;
    assert Shr(q, 1) == Shr(q / 2, 0) == q / 2;
    if q >= 2 { Scaled(size, 2, q); } else { Scaled(size, q, 1); }
  }

  lemma OneBlockFits(alignment: nat, blocks: nat)
    requires blocks >= 1
    ensures Span(alignment, blocks) >= alignment
  {
  }

  lemma QuotientBelow(offset: nat, alignment: nat, blocks: nat)
    requires alignment > 0 && offset < Span(alignment, blocks)
    ensures 0 <= offset / alignment < blocks
    ensures offset % alignment == 0 ==> offset == Span(alignment, offset / alignment)
  {
    var q, r := DivParts(offset, alignment);
    SpanIs(alignment, q);
    SpanOrder(alignment, blocks, q);
  }

  /** Trimming drops what does not fill a block. */
  lemma TrimmedSize(size: nat, align: nat, trimmed: int)
    requires align > 0 && trimmed == size - size % align
    ensures 0 <= size / align <= size && trimmed == Span(align, size / align)
    ensures trimmed / align == size / align && trimmed % align == 0
    ensures trimmed < align <==> size < align
    ensures trimmed >= align ==> size / align > 0
  {
    var q, r := DivParts(size, align);
    DivUnique(trimmed, align, q, 0);
    QuotientAtMost(size, align, q);
    SpanIs(align, q);
    Scaled(align, 1, q);
  }

  lemma AddressOfPos(n: nat, main: nat, alignment: nat, pos: Pos, size: nat)
    requires PosOk(pos) && IsNode(n, pos.index) && size == Span(alignment, Width(n, pos.index))
    ensures main + size * RowIndex(pos) == BlockOf(n, main, alignment, pos.index).address
  {
    AddressOfNode(n, alignment, pos.index, size);
  }

  // ---- from an address to its owner --------------------------------------------------------

  lemma SpanAligned(alignment: nat, leaves: nat)
    requires alignment > 0
    ensures Span(alignment, leaves) % alignment == 0
  {
    SpanIs(alignment, leaves);
    DivUnique(Span(alignment, leaves), alignment, leaves, 0);
  }

  lemma NoBlockUnaligned(n: nat, main: nat, alignment: nat, A: set<nat>, addr: nat)
    requires alignment > 0 && main <= addr && (addr - main) % alignment != 0
    requires forall a :: a in A ==> IsNode(n, a)
    ensures forall a :: a in A ==> BlockOf(n, main, alignment, a).address != addr
  {
    forall a | a in A ensures BlockOf(n, main, alignment, a).address != addr {
      SpanAligned(alignment, Lo(n, a));
    }
  }

  /** The climb from a leaf: everything below `pos` on the way had status 0. */
  ghost predicate LeafClimb(n: nat, A: set<nat>, pos: Pos, leaf: nat)
  {
    && IsNode(n, leaf) && PosOk(pos) && IsNode(n, pos.index) && Above(pos.index, leaf)
    && ZeroBelow(n, A, pos.index, leaf)
  }

  lemma LeafClimbStart(n: nat, A: set<nat>, i: nat)
    requires n >= 1 && i < Pow2(n - 1)
    ensures LeafClimb(n, A, Pos(Leaf(n, i), n), Leaf(n, i))
  {
    LeafInterval(n, i);
    var v := Leaf(n, i);
    forall w: nat | w >= 1 && Above(w, v) ensures w <= v { AboveDepth(w, v); }
  }

  /** One step up; past the root, the leaf turns out free. */
  lemma LeafClimbStep(n: nat, A: set<nat>, pos: Pos, leaf: nat)
    requires LeafClimb(n, A, pos, leaf) && Status(n, A, pos.index) == 0 && Allocation(n, A)
    ensures pos.index > 1 ==> LeafClimb(n, A, Parent(pos), leaf)
    ensures pos.index == 1 ==> Parent(pos) == INVALID_POS && Free(n, A, leaf)
    ensures Parent(pos).index < Pow2(n)
  {
    ZeroStep(n, A, pos, leaf);
    if pos.index == 1 { AllZeroFree(n, A, leaf); }
  }

  lemma NothingAtLeaf(n: nat, blocks: nat, A: set<nat>, live: set<nat>, main: nat, alignment: nat, i: nat, addr: nat)
    requires Split(n, blocks, A, live) && alignment > 0 && i < blocks && addr == main + Span(alignment, i)
    requires IsNode(n, Leaf(n, i)) && Free(n, A, Leaf(n, i))
    ensures forall v :: v in live ==> BlockOf(n, main, alignment, v).address != addr
  {
    forall v | v in live ensures BlockOf(n, main, alignment, v).address != addr {
      SpanOrder(alignment, Lo(n, v), i);
      AboveLeaf(n, v, i);
    }
  }

  /** Where the climb stops is the owner of the leaf, or a node that is only partly used. */
  lemma FirstUsed(n: nat, A: set<nat>, pos: Pos, leaf: nat)
    requires LeafClimb(n, A, pos, leaf) && Allocation(n, A) && Status(n, A, pos.index) != 0
    requires HighBit(leaf) == n
    ensures pos.index in A <==> Status(n, A, pos.index) == SlotLength(n, pos.index)
    ensures forall a :: a in A && Above(a, leaf) ==> a == pos.index
  {
    var p := pos.index;
    ChildDepth(n, leaf);
    if p == leaf {
      assert p in A;
    } else {
      FirstNonZero(n, A, p, leaf);
    }
    forall a | a in A && Above(a, leaf) ensures a == p {
      assert Status(n, A, a) == SlotLength(n, a);
      AboveChain(a, p, leaf);
      AboveDepth(a, leaf);
      if a < p { AboveChain(a, p, leaf); StatusUnderAllocated(n, A, a, p); }
    }
  }

  lemma OwnerFound(n: nat, blocks: nat, A: set<nat>, live: set<nat>, main: nat, alignment: nat, pos: Pos, i: nat,
                   addr: nat)
    requires Split(n, blocks, A, live) && alignment > 0 && i < blocks && addr == main + Span(alignment, i)
    requires LeafClimb(n, A, pos, Leaf(n, i)) && Status(n, A, pos.index) != 0
    ensures pos.index in live || (pos.index !in A && Status(n, A, pos.index) < SlotLength(n, pos.index))
    ensures forall v :: v in live && BlockOf(n, main, alignment, v).address == addr ==> v == pos.index
  {
    LeafInterval(n, i);
    FirstUsed(n, A, pos, Leaf(n, i));
    AboveLeaf(n, pos.index, i);
    if pos.index in A { AllocatedInsideIsLive(n, blocks, A, live, pos.index); }
    forall v | v in live && BlockOf(n, main, alignment, v).address == addr ensures v == pos.index {
      SpanOrder(alignment, Lo(n, v), i);
      AboveLeaf(n, v, i);
    }
  }

  // ---- the masking loop --------------------------------------------------------------------

  ghost function Toggled(A: set<nat>, V: set<nat>, state: bool): set<nat>
  {
    if state then A + V else A - V
  }

  /** Masking needs room next to what is allocated; unmasking needs the masked nodes allocated. */
  ghost predicate CanToggle(n: nat, A: set<nat>, V: set<nat>, state: bool)
  {
    if state then Allocation(n, A + V) && A !! V else Allocation(n, A) && V <= A
  }

  /** A fresh tree can be masked, and then no block is live. */
  lemma FreshSplit(n: nat, blocks: nat)
    requires Fits(n, blocks)
    ensures CanToggle(n, {}, Virtual(n, blocks), true)
    ensures Split(n, blocks, Toggled({}, Virtual(n, blocks), true), {})
  {
    VirtualCovers(n, blocks);
    assert {} + Virtual(n, blocks) == Virtual(n, blocks);
  }

  /** `done` has been toggled; the last `leaves` leaves below `v` remain. */
  ghost predicate Masking(n: nat, V: set<nat>, done: set<nat>, v: nat, leaves: nat)
    requires IsNode(n, v)
  {
    && leaves <= Width(n, v)
    && V == done + VirtualFrom(n, v, leaves) && done !! VirtualFrom(n, v, leaves)
  }

  /** Masking starts at the right child of the root, with all of the masked leaves to do. */
  lemma MaskingStart(n: nat, alignment: nat, blocks: nat, memorySize: nat, effective: nat)
    requires Fits(n, blocks) && alignment > 0 && memorySize == Span(alignment, blocks) && effective == Span(alignment, Pow2(n - 1))
    ensures effective >= memorySize && effective - memorySize == Span(alignment, Pow2(n - 1) - blocks)
    ensures effective == memorySize ==> Virtual(n, blocks) == {}
    ensures effective > memorySize ==>
              PosOk(RightChild(Root())) && IsNode(n, 3) && Masking(n, Virtual(n, blocks), {}, 3, Pow2(n - 1) - blocks)
  {
    SpanOrder(alignment, blocks, Pow2(n - 1));
    SpanAdd(alignment, Pow2(n - 1) - blocks, blocks);
    RootInterval(n);
    if effective == memorySize {
      assert VirtualFrom(n, 1, 0) == {};
    } else {
      VirtualStartsRight(n, blocks);
      assert HighBit(3) == 1 + HighBit(1) == 2 + HighBit(0);
    }
  }

  /** Comparing bytes compares leaves. */
  lemma MaskingSizes(n: nat, alignment: nat, v: nat, leaves: nat, size: nat)
    requires IsNode(n, v) && alignment > 0 && leaves <= Width(n, v) && size == Span(alignment, Width(n, v))
    requires Span(alignment, leaves) > 0
    ensures 0 < leaves && (Span(alignment, leaves) == size <==> leaves == Width(n, v))
    ensures leaves < Width(n, v) ==>
              IsNode(n, 2 * v + 1) && size / 2 == Span(alignment, Width(n, 2 * v + 1))
              && (Span(alignment, leaves) <= size / 2 <==> 2 * leaves <= Width(n, v))
              && (2 * leaves > Width(n, v) ==>
                    leaves >= Width(n, 2 * v + 1)
                    && Span(alignment, leaves) - size / 2 == Span(alignment, leaves - Width(n, 2 * v + 1)))
  {
    SpanOrder(alignment, leaves, Width(n, v));
    if 0 < leaves < Width(n, v) {
      InnerNode(n, v, leaves);
      var half := Width(n, 2 * v + 1);
      SpanAdd(alignment, half, half);
      SpanOrder(alignment, leaves, half);
      if leaves >= half { SpanAdd(alignment, leaves - half, half); }
    }
  }

  /** A masked node not yet toggled can be. */
  lemma MaskOne(n: nat, A: set<nat>, V: set<nat>, done: set<nat>, x: nat, state: bool)
    requires CanToggle(n, A, V, state) && done <= V && x in V && x !in done && IsNode(n, x)
    requires Allocation(n, Toggled(A, done, state))
    ensures if state then Free(n, Toggled(A, done, state), x) else x in Toggled(A, done, state)
    ensures Toggled(A, done + {x}, state)
            == if state then Toggled(A, done, state) + {x} else Toggled(A, done, state) - {x}
  {
    if state {
      forall a | a in A + done ensures !Above(a, x) && !Above(x, a) {
        assert a in A + V && x in A + V && a != x;
      }
    }
  }

  lemma MaskRight(n: nat, V: set<nat>, done: set<nat>, v: nat, leaves: nat)
    requires IsNode(n, v) && Masking(n, V, done, v, leaves) && 0 < leaves && 2 * leaves <= Width(n, v)
    ensures IsNode(n, 2 * v + 1) && Masking(n, V, done, 2 * v + 1, leaves)
  {
    VirtualRight(n, v, leaves);
  }

  lemma RightNotLeft(n: nat, v: nat, rest: nat)
    requires n >= 1 && IsNode(n, v) && IsNode(n, 2 * v) && rest <= Width(n, 2 * v)
    ensures 2 * v + 1 !in VirtualFrom(n, 2 * v, rest)
  {
    VirtualFromCovers(n, 2 * v, rest);
    if 2 * v + 1 in VirtualFrom(n, 2 * v, rest) { AboveDepth(2 * v, 2 * v + 1); ChildDepth(n, v); }
  }

  lemma MaskBoth(n: nat, V: set<nat>, done: set<nat>, v: nat, leaves: nat)
    requires n >= 1 && IsNode(n, v) && Masking(n, V, done, v, leaves)
    requires Width(n, v) < 2 * leaves && leaves < Width(n, v)
    ensures IsNode(n, 2 * v) && IsNode(n, 2 * v + 1) && leaves > Width(n, 2 * v + 1)
    ensures done <= V && 2 * v + 1 in V && 2 * v + 1 !in done
    ensures Masking(n, V, done + {2 * v + 1}, 2 * v, leaves - Width(n, 2 * v + 1))
  {
    VirtualBoth(n, v, leaves);
    var rest := leaves - Width(n, 2 * v + 1);
    RightNotLeft(n, v, rest);
  }

  /** The remaining leaves are all of those below `v`: masking it is the last step. */
  lemma MaskWhole(n: nat, V: set<nat>, done: set<nat>, v: nat, leaves: nat)
    requires IsNode(n, v) && Masking(n, V, done, v, leaves) && leaves == Width(n, v)
    ensures V == done + {v} && v !in done
  {
    assert VirtualFrom(n, v, leaves) == {v};
  }

  /** The three cases of a round, in bytes as the code compares them. */
  lemma MaskingRound(n: nat, alignment: nat, V: set<nat>, done: set<nat>, v: nat, leaves: nat, size: nat, delta: nat)
    returns (done': set<nat>, leaves': nat)
    requires n >= 1 && IsNode(n, v) && Masking(n, V, done, v, leaves) && alignment > 0
    requires size == Span(alignment, Width(n, v)) && delta == Span(alignment, leaves) > 0
    ensures delta == size ==> done' == done + {v} == V && v in V && done <= V && v !in done
    ensures delta != size ==> IsNode(n, 2 * v) && IsNode(n, 2 * v + 1)
    ensures delta != size && delta <= size / 2 ==>
              done' == done && leaves' == leaves && Masking(n, V, done', 2 * v + 1, leaves')
    ensures delta != size && delta > size / 2 ==>
              done' == done + {2 * v + 1} && done <= V && 2 * v + 1 in V && 2 * v + 1 !in done
              && Masking(n, V, done', 2 * v, leaves') && 0 < delta - size / 2 == Span(alignment, leaves')
  {
    done', leaves' := done, leaves;
    MaskingSizes(n, alignment, v, leaves, size);
    if leaves == Width(n, v) {
      MaskWhole(n, V, done, v, leaves);
      done' := done + {v};
    } else {
      InnerNode(n, v, leaves);
      if 2 * leaves <= Width(n, v) {
        MaskRight(n, V, done, v, leaves);
      } else {
        MaskBoth(n, V, done, v, leaves);
        done', leaves' := done + {2 * v + 1}, leaves - Width(n, 2 * v + 1);
        OneBlockFits(alignment, leaves');
      }
    }
  }

  // ---- taking and giving back --------------------------------------------------------------

  /** Marking a free node of a row adds its block, which was not there, to the live ones. */
  lemma BlockTaken(n: nat, blocks: nat, alloc: set<nat>, live: set<nat>, main: nat, alignment: nat, v: nat)
    requires Split(n, blocks, alloc, live) && alignment > 0 && IsNode(n, v) && Free(n, alloc, v)
    ensures Split(n, blocks, alloc + {v}, live + {v})
    ensures BlockOf(n, main, alignment, v) !in BlocksOf(n, main, alignment, live)
    ensures BlocksOf(n, main, alignment, live + {v})
            == BlocksOf(n, main, alignment, live) + {BlockOf(n, main, alignment, v)}
  {
    MarkSplit(n, blocks, alloc, live, v);
    AddBlock(n, main, alignment, live, v);
    assert Above(v, v);
    if BlockOf(n, main, alignment, v) in BlocksOf(n, main, alignment, live) {
      var a :| a in live && BlockOf(n, main, alignment, v) == BlockOf(n, main, alignment, a);
      BlockIdentifiesNode(n, main, alignment, live + {v}, a, v);
    }
  }

  lemma BlockGiven(n: nat, blocks: nat, alloc: set<nat>, live: set<nat>, main: nat, alignment: nat, v: nat)
    requires Split(n, blocks, alloc, live) && alignment > 0 && v in live
    ensures Split(n, blocks, alloc - {v}, live - {v})
    ensures BlocksOf(n, main, alignment, live - {v})
            == BlocksOf(n, main, alignment, live) - {BlockOf(n, main, alignment, v)}
  {
    ReleaseSplit(n, blocks, alloc, live, v);
    RemoveBlock(n, main, alignment, live, v);
  }

  /** The node of a live block. */
  lemma NodeOfBlock(n: nat, main: nat, alignment: nat, A: set<nat>, b: Block) returns (v: nat)
    requires (forall a :: a in A ==> IsNode(n, a)) && b in BlocksOf(n, main, alignment, A)
    ensures v in A && b == BlockOf(n, main, alignment, v)
  {
    v :| v in A && b == BlockOf(n, main, alignment, v);
  }

  /** A block lies in the arena. */
  lemma BlockInside(n: nat, blocks: nat, alloc: set<nat>, live: set<nat>, main: nat, alignment: nat, v: nat)
    requires Split(n, blocks, alloc, live) && alignment > 0 && v in live
    ensures var b := BlockOf(n, main, alignment, v);
            b.size > 0 && main <= b.address && b.address + b.size <= main + Span(alignment, blocks)
  {
    LiveInside(n, blocks, alloc, live, v);
    BlockEnd(n, main, alignment, v);
    SpanOrder(alignment, Hi(n, v), blocks);
    SpanOrder(alignment, 1, Width(n, v));
  }

  lemma FreeBlockInside(n: nat, blocks: nat, alloc: set<nat>, live: set<nat>, main: nat, alignment: nat, v: nat)
    requires Split(n, blocks, alloc, live) && alignment > 0 && IsNode(n, v) && Free(n, alloc, v)
    ensures var b := BlockOf(n, main, alignment, v); b.address + b.size <= main + Span(alignment, blocks)
  {
    FreeInside(n, blocks, alloc, live, v);
    BlockEnd(n, main, alignment, v);
    SpanOrder(alignment, Hi(n, v), blocks);
  }

  /** The deeper of two nodes has the smaller block. */
  lemma DeeperIsSmaller(n: nat, main: nat, alignment: nat, u: nat, v: nat)
    requires alignment > 0 && IsNode(n, u) && IsNode(n, v)
    ensures var d := if HighBit(u) > HighBit(v) then HighBit(u) else HighBit(v);
            var s, t := BlockOf(n, main, alignment, u).size, BlockOf(n, main, alignment, v).size;
            1 <= d <= n && Span(alignment, Pow2(n - d)) == if s < t then s else t
  {
    NodeDepth(n, u);
    NodeDepth(n, v);
    WidthOrder(n, u, v);
    SpanOrder(alignment, Width(n, u), Width(n, v));
  }

  lemma WidthOrder(n: nat, u: nat, v: nat)
    requires IsNode(n, u) && IsNode(n, v) && HighBit(u) <= n && HighBit(v) <= n
    ensures Width(n, u) < Width(n, v) <==> HighBit(v) < HighBit(u)
  {
    Pow2Order(n - HighBit(u), n - HighBit(v));
  }

  /** A block is live exactly when the node found for its address is, and has its size. */
  lemma LiveAt(n: nat, main: nat, alignment: nat, live: set<nat>, v: nat, ptr: nat, size: nat)
    requires (forall a :: a in live ==> IsNode(n, a)) && IsNode(n, v)
    requires v in live ==> BlockOf(n, main, alignment, v).address == ptr
    requires forall u :: u in live && BlockOf(n, main, alignment, u).address == ptr ==> u == v
    ensures Block(ptr, size) in BlocksOf(n, main, alignment, live) <==>
            v in live && BlockOf(n, main, alignment, v).size == size
  {
    if v in live { InBlocks(n, main, alignment, live, v); }
    if Block(ptr, size) in BlocksOf(n, main, alignment, live) {
      var u := NodeOfBlock(n, main, alignment, live, Block(ptr, size));
    }
  }

  /** The root has the maximal status exactly when no leaf is free. */
  lemma FullRoot(n: nat, A: set<nat>)
    requires n >= 1 && Allocation(n, A) && IsNode(n, 1)
    ensures Status(n, A, 1) == n <==> !HasFree(n, A, 1, n)
  {
    RootSlot(n);
    if NoneAbove(A, 1) { StatusDecides(n, A, 1, n); }
    if HasFree(n, A, 1, n) {
      var u: nat :| IsNode(n, u) && HighBit(u) == n && Above(1, u) && Free(n, A, u);
      assert 1 !in A;
    }
  }

  lemma SpanOfOne(alignment: nat)
    ensures Span(alignment, Pow2(0)) == alignment
  {
    assert Span(alignment, 1) == Span(alignment, 0) + alignment;
  }

  /** The size test of the checked release accepts exactly the requests the block would have
      been chosen for. */
  lemma SizeMatches(alignment: nat, e: nat, request: nat, size: nat)
    requires alignment > 0 && size == Span(alignment, Pow2(e))
    ensures var floor := if request < alignment then alignment else request;
            (floor <= size && floor > size / 2) <==> size == FittingSize(alignment, request)
  {
    var floor := if request < alignment then alignment else request;
    OneBlockFits(alignment, Pow2(e));
    FittingSizeTight(alignment, request);
    if floor <= size && floor > size / 2 { FittingSizeIs(alignment, request, e); }
  }

  // ---- growing the arena -------------------------------------------------------------------

  /** A grown tree holds the same blocks ... */
  lemma GrownBlocks(n: nat, k: nat, main: nat, alignment: nat, A: set<nat>)
    requires forall a :: a in A ==> a >= 1 && IsNode(n, a)
    ensures forall b :: b in EmbedSetBy(A, k) ==> IsNode(n + k, b)
    ensures BlocksOf(n + k, main, alignment, EmbedSetBy(A, k)) == BlocksOf(n, main, alignment, A)
  {
    var B := EmbedSetBy(A, k);
    forall b | b in B ensures IsNode(n + k, b) {
      var a :| a in A && b == EmbedBy(a, k);
      EmbeddedIntervalBy(n, a, k);
    }
    forall a | a in A
      ensures EmbedBy(a, k) in B && IsNode(n + k, EmbedBy(a, k))
      ensures BlockOf(n + k, main, alignment, EmbedBy(a, k)) == BlockOf(n, main, alignment, a)
    {
      EmbedSetByUp(A, k, a);
      EmbeddedIntervalBy(n, a, k);
    }
    forall c | c in BlocksOf(n, main, alignment, A) ensures c in BlocksOf(n + k, main, alignment, B) {
      var a :| a in A && c == BlockOf(n, main, alignment, a);
      InBlocks(n + k, main, alignment, B, EmbedBy(a, k));
    }
  }

  /** ... and leaves the masked nodes of the larger arena free. */
  lemma GrownSplit(n: nat, k: nat, blocks: nat, blocks': nat, alloc: set<nat>, live: set<nat>)
    requires Split(n, blocks, alloc, live) && blocks <= blocks' && Fits(n + k, blocks')
    requires Allocation(n + k, EmbedSetBy(live, k))
    ensures Split(n + k, blocks', EmbedSetBy(live, k) + Virtual(n + k, blocks'), EmbedSetBy(live, k))
  {
    var B := EmbedSetBy(live, k);
    forall b | b in B ensures Hi(n + k, b) <= blocks' {
      var a :| a in live && b == EmbedBy(a, k);
      EmbeddedIntervalBy(n, a, k);
      LiveInside(n, blocks, alloc, live, a);
    }
    VirtualCovers(n + k, blocks');
    JoinAllocations(n + k, B, Virtual(n + k, blocks'), blocks');
  }

  /** A larger arena never needs a smaller tree. */
  lemma OrderGrows(n: nat, n': nat, blocks: nat, blocks': nat)
    requires Fits(n, blocks) && Fits(n', blocks') && blocks <= blocks'
    ensures n <= n'
  {
    if n' < n { Pow2Monotone(n', n - 1); }
  }

  function VirtualSlotCount(alignment: nat, memorySize: nat, effective: nat): nat
    requires alignment > 0 && memorySize <= effective
  {
    QuotientMonotone(alignment, 0, effective - memorySize);
    if effective == memorySize then 0 else (effective - memorySize) / alignment
  }

  /** Last leaf the emptiness test of a resize looks at, as the code computes it. */
  function ScanEnd(alignment: nat, effective: nat, slots: nat): int
    requires alignment > 0
  {
    (effective - alignment * (if slots != 0 then slots else 1)) / alignment
  }

  lemma SpanQuotient(alignment: nat, leaves: nat)
    requires alignment > 0
    ensures Span(alignment, leaves) / alignment == leaves
  {
    SpanIs(alignment, leaves);
    DivUnique(Span(alignment, leaves), alignment, leaves, 0);
  }

  lemma QuotientMonotone(d: nat, a: nat, b: nat)
    requires d > 0 && a <= b
    ensures a / d <= b / d
  {
    var p, q := a / d, b / d;
    assert a == d * p + a % d && b == d * q + b % d;
    if q < p {
      Distribute(d, p, q);
      Distribute(d, p - q, 1);
      NonNegative(d, p - q - 1);
    }
  }

  lemma ScanEndAt(alignment: nat, all: nat, slots: nat)
    requires alignment > 0 && all >= (if slots != 0 then slots else 1)
    ensures ScanEnd(alignment, Span(alignment, all), slots) == all - if slots != 0 then slots else 1
  {
    var s := if slots != 0 then slots else 1;
    SpanAdd(alignment, all - s, s);
    SpanIs(alignment, s);
    SpanQuotient(alignment, all - s);
  }

  /** When the arena grows, the emptiness test starts where it ends and has nothing to scan. */
  lemma GrowingScansNothing(alignment: nat, blocks: nat, memorySize: nat, all: nat, effective: nat, newSize: nat)
    requires alignment > 0 && memorySize == Span(alignment, blocks) && effective == Span(alignment, all)
    requires 1 <= blocks <= all && newSize >= memorySize
    ensures memorySize <= effective
    ensures ScanEnd(alignment, effective, VirtualSlotCount(alignment, memorySize, effective)) <= newSize / alignment
  {
    SpanOrder(alignment, blocks, all);
    SpanQuotient(alignment, blocks);
    QuotientMonotone(alignment, memorySize, newSize);
    SpanAdd(alignment, blocks, all - blocks);
    SpanQuotient(alignment, all - blocks);
    ScanEndAt(alignment, all, all - blocks);
  }

  lemma OrderFor(order: nat, blocks: nat)
    requires 1 <= order && blocks <= Pow2(order - 1) < 2 * blocks <= HALF_LIMIT
    ensures Fits(order, blocks) && order <= 63
  {
    LimitIsPow2();
    Pow2Order(order - 1, 63);
  }

  // ---- arrays of members -------------------------------------------------------------------

  function Product(count: nat, size: nat): (r: nat)
    ensures r < SIZE_LIMIT
  {
    (count * size) % SIZE_LIMIT
  }

  /** Where member `k` of an array begins. */
  function MemberStart(p: nat, size: nat, k: nat): (start: nat)
    ensures start == p + k * size
  {
    p + k * size
  }

  /** The members lie one behind the other within the array. */
  lemma MemberInside(p: nat, count: nat, size: nat, k: nat)
    requires k < count
    ensures p <= MemberStart(p, size, k) && MemberStart(p, size, k) + size <= p + count * size
  {
    NonNegative(k, size);
    NonNegative(count - k - 1, size);
    assert count * size == k * size + size + (count - k - 1) * size;
  }

  /** No byte and one byte are served with the same size. */
  lemma FittingNothing(alignment: nat)
    requires alignment > 0
    ensures FittingSize(alignment, 0) == FittingSize(alignment, 1) == alignment
  {
  }

  lemma NonZeroTimes(count: nat, size: nat)
    requires count > 0 && size > 0
    ensures count * size > 0
  {
    NonNegative(count - 1, size);
    assert count * size == size + (count - 1) * size;
  }

  lemma ZeroTimes(count: nat, size: nat)
    requires count == 0 || size == 0
    ensures count * size == 0
  {
  }

  /** Dividing the 64-bit product by one factor gives back the other exactly when it did not wrap. */
  lemma OverflowTest(count: nat, size: nat)
    requires 0 < count < SIZE_LIMIT && 0 < size < SIZE_LIMIT
    ensures Product(count, size) / count == size <==> count * size < SIZE_LIMIT
    ensures count * size < SIZE_LIMIT ==> Product(count, size) == count * size
  {
    var full := count * size;
    if full < SIZE_LIMIT {
      DivUnique(full, count, size, 0);
    } else {
      var p := Product(count, size);
      var q := p / count;
      assert p < SIZE_LIMIT <= full;
      assert p == count * q + p % count;
      if q >= size { Scaled(count, size, q); }
    }
  }
}
