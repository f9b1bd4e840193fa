/** The buddy allocator: a tree of statuses over an arena of bytes. Its abstract state is the set of
    live blocks, and every operation is described by what it does to that set. */
module BuddyAllocator {
  import opened Powers
  import opened BitMath
  import opened Bitset
  import opened TreeLayout
  import opened Statuses
  import opened Repair
  import opened Coverage
  import opened PreOrder
  import opened Growth
  import opened VirtualSlots
  import opened BuddyTrees
  import opened Arena
  import opened Requests
  import opened Memcopy
  import opened Memmove

  datatype SafeFreeStatus = SafeFreeSuccess | InvalidAddress | SizeMismatch

  /** Two bitsets agree on the bits of a tree of the given order. */
  ghost predicate SameBits(s: seq<bv8>, t: seq<bv8>, order: nat)
  {
    && SizeForOrder(order, 0) <= 8 * |s| && SizeForOrder(order, 0) <= 8 * |t|
    && BitsOf(s)[..SizeForOrder(order, 0)] == BitsOf(t)[..SizeForOrder(order, 0)]
  }

  function KeptBytes(before: nat, after: nat): (kept: nat)
    ensures kept == if before < after then before else after
  {
    if before < after then before else after
  }

  /** The blocks next to the one that is being resized. */
  ghost function Others(B: set<Block>, ptr: nat, b: Block): set<Block>
  {
    if ptr == 0 then B else B - {b}
  }

  /** Blocks apart from the new one keep their bytes through the copy. */
  lemma OthersKept(m: seq<bv8>, m': seq<bv8>, rest: set<Block>, ptr: nat, r: nat, size: nat, kept: nat,
                   ignoreData: bool,
                   main: nat, memorySize: nat, alignment: nat)
    requires Orderly(rest + {Block(r, size)}, main, memorySize, alignment) && Block(r, size) !in rest
    requires kept <= size && r + kept <= |m| && ptr + kept <= |m| && main + memorySize <= |m|
    requires m' == if ignoreData then m else Copy(m, r, ptr, kept)
    ensures |m'| == |m|
    ensures forall c :: c in rest ==> c.address + c.size <= |m| && forall i :: c.address <= i < c.address + c.size ==> m'[i] == m[i]
    ensures !ignoreData ==> m'[r..r + kept] == m[ptr..ptr + kept]
  {
    if !ignoreData {
      CopyInside(m, r, ptr, kept);
    }
    forall c | c in rest
      ensures c.address + c.size <= |m| && forall i :: c.address <= i < c.address + c.size ==> m'[i] == m[i]
    {
      assert c in rest + {Block(r, size)} && Apart(c, Block(r, size));
      if !ignoreData { CopyAt(m, r, ptr, kept); }
    }
  }

  class Buddy {
    const alignment: nat
    const main: nat
    const mem: array<bv8>
    const tree: BuddyTree
    var memorySize: nat

    ghost const ax: nat
    /** The arena counted in blocks of `alignment` bytes. */
    ghost var blocks: nat
    /** The nodes handed out and not yet freed. */
    ghost var live: set<nat>

    ghost predicate Layout()
      reads `memorySize, `blocks, tree`order, tree`upperPosBound, tree`sizeForOrder
    {
      && alignment == Pow2(ax) && memorySize == Span(alignment, blocks) <= HALF_LIMIT
      && main > 0 && main + memorySize <= mem.Length && Memory(mem.Length)
      && tree.Shape() && Fits(tree.order, blocks) && tree.bits != mem
    }

    ghost predicate Valid()
      reads this, tree, tree.bits
    {
      Layout() && tree.Valid() && Split(tree.order, blocks, tree.alloc, live)
    }

    /** The abstract state: the live blocks. */
    ghost function Blocks(): set<Block>
      reads this, tree
      requires tree.order >= 1 && forall v :: v in live ==> IsNode(tree.order, v)
    {
      BlocksOf(tree.order, main, alignment, live)
    }

    // ---- initialisation ------------------------------------------------------------------

    constructor (storage: array<bv8>, mainAddress: nat, memory: array<bv8>, size: nat, align: nat, treeOrder: nat,
                 ghost e: nat, ghost count: nat)
      requires align == Pow2(e) && size == Span(align, count) <= HALF_LIMIT
      requires Fits(treeOrder, count) && treeOrder <= MAX_ORDER && SizeForOrder(treeOrder, 0) <= 8 * storage.Length
      requires mainAddress > 0 && mainAddress + size <= memory.Length && Memory(memory.Length)
      requires storage != memory
      modifies storage
      ensures Valid() && Blocks() == {}
      ensures main == mainAddress && mem == memory && alignment == align && memorySize == size
      ensures tree.bits == storage && fresh(tree)
    {
      main, mem, alignment, memorySize := mainAddress, memory, align, size;
      ax, blocks, live := e, count, {};
      tree := new BuddyTree(storage, treeOrder);
      new;
      FreshSplit(treeOrder, count);
      ToggleVirtualSlots(true);
    }

    /** Sets up an allocator for the given memory: refused are a null or unaligned arena, an
        alignment that is no power of two, and a memory smaller than one block. */
    static method Init(storage: array<bv8>, mainAddress: nat, memory: array<bv8>, size: nat, align: nat)
      returns (buddy: Buddy?)
      requires align < SIZE_LIMIT && size <= HALF_LIMIT
      requires align > 0 ==> size / align <= HALF_LIMIT / 2
      requires align > 0 ==> forall n: nat :: Fits(n, size / align) ==> SizeForOrder(n, 0) <= 8 * storage.Length
      requires mainAddress + size <= memory.Length && Memory(memory.Length) && storage != memory
      modifies storage
      ensures buddy == null <==> mainAddress == 0 || mainAddress % 8 != 0 || !(exists e: nat :: align == Pow2(e)) || size < align
      ensures buddy != null ==>
                && fresh(buddy) && fresh(buddy.tree) && buddy.Valid() && buddy.Blocks() == {}
                && buddy.main == mainAddress && buddy.mem == memory && buddy.alignment == align
                && buddy.memorySize == size - size % align && buddy.tree.bits == storage
    {
      if mainAddress == 0 {
        return null;
      }
      var validAlignment := IsValidAlignment(align);
      if !validAlignment || mainAddress % 8 != 0 {
        return null;
      }
      ghost var e: nat :| align == Pow2(e);
      var trimmed := Trim(size, align);
      if trimmed < align {
        return null;
      }
      var treeOrder, count := OrderOf(trimmed, align, size);
      buddy := new Buddy(storage, mainAddress, memory, trimmed, align, treeOrder, e, count);
    }

    /** Drops what does not fill a block. */
    static method Trim(size: nat, align: nat) returns (trimmed: nat)
      requires align > 0
      ensures trimmed == size - size % align && (trimmed < align <==> size < align)
    {
      TrimmedSize(size, align, size - size % align);
      trimmed := if size % align != 0 then size - size % align else size;
    }

    /** The order of the tree for a trimmed size. */
    static method OrderOf(trimmed: nat, align: nat, ghost size: nat) returns (treeOrder: nat, ghost count: nat)
      requires align > 0 && align <= trimmed == size - size % align && size < SIZE_LIMIT && size / align <= HALF_LIMIT / 2
      ensures count == size / align && trimmed == Span(align, count) && Fits(treeOrder, count) && treeOrder <= MAX_ORDER
    {
      TrimmedSize(size, align, trimmed);
      treeOrder := TreeOrderForMemory(trimmed, align);
      count := size / align;
      OrderFor(treeOrder, count);
    }

    // ---- sizes and addresses -------------------------------------------------------------

    method EffectiveMemorySize() returns (size: nat)
      requires Layout()
      ensures size == Pow2(ax + tree.order - 1) == Span(alignment, Pow2(tree.order - 1))
      ensures memorySize <= size < 2 * memorySize
    {
      EffectiveSize(ax, alignment, tree.order, blocks, memorySize);
      size := CeilingPowerOfTwo(memorySize);
    }

    method SizeForDepth(depth: nat) returns (size: nat)
      requires Layout() && 1 <= depth <= tree.order
      ensures size == Span(alignment, Pow2(tree.order - depth))
    {
      var effective := EffectiveMemorySize();
      SizeAtDepth(ax, tree.order, effective, depth);
      size := Shr(effective, depth - 1);
    }

    /** Halves the arena while the half still holds the request. */
    static method HalvingDepth(effectiveSize: nat, size: nat, ghost ax: nat, ghost n: nat) returns (depth: nat)
      requires n >= 1 && effectiveSize == Pow2(ax + n - 1) >= size >= Pow2(ax)
      ensures 1 <= depth <= n && size <= Pow2(ax + n - depth) < 2 * size
    {
      depth := 1;
      var effective := effectiveSize;
      while Shr(effective / size, 1) != 0
        invariant 1 <= depth <= n && effective == Pow2(ax + n - depth) >= size
        decreases n - depth
      {
        HalvedQuotient(effective, size);
        depth := depth + 1;
        effective := effective / 2;
      }
      HalvedQuotient(effective, size);
    }

    /** The deepest row whose nodes hold the request. */
    method DepthForSize(requestedSize: nat) returns (depth: nat)
      requires Layout() && requestedSize <= memorySize
      ensures 1 <= depth <= tree.order
      ensures Span(alignment, Pow2(tree.order - depth)) == FittingSize(alignment, requestedSize)
    {
      var size := if requestedSize < alignment then alignment else requestedSize;
      var effective := EffectiveMemorySize();
      OneBlockFits(alignment, blocks);
      depth := HalvingDepth(effective, size, ax, tree.order);
      SpanOfPower(ax, tree.order - depth);
      FittingSizeIs(alignment, requestedSize, tree.order - depth);
    }

    method AddressForPosition(pos: Pos) returns (addr: nat)
      requires Layout() && PosOk(pos) && IsNode(tree.order, pos.index)
      ensures addr == BlockOf(tree.order, main, alignment, pos.index).address
    {
      NodeDepth(tree.order, pos.index);
      var size := SizeForDepth(pos.depth);
      AddressOfPos(tree.order, main, alignment, pos, size);
      addr := main + size * RowIndex(pos);
    }

    method DeepestPositionForOffset(offset: nat) returns (pos: Pos)
      requires Layout() && offset < memorySize
      ensures pos == Pos(Leaf(tree.order, offset / alignment), tree.order)
      ensures offset / alignment < blocks
      ensures offset % alignment == 0 ==> offset == Span(alignment, offset / alignment)
    {
      QuotientBelow(offset, alignment, blocks);
      var index := offset / alignment;
      pos := LeftmostChild(tree.order);
      pos := pos.(index := pos.index + index);
    }

    /** The position whose block starts at `addr`, if there is one. A position that is partly used
        may be found instead; it is none of the allocated ones. */
    method PositionForAddress(addr: nat) returns (pos: Pos)
      requires Valid() && main <= addr < main + memorySize
      ensures pos == INVALID_POS || (PosOk(pos) && IsNode(tree.order, pos.index))
      ensures tree.ValidPos(pos) <==> pos != INVALID_POS
      ensures (addr - main) % alignment != 0 ==> pos == INVALID_POS
      ensures pos != INVALID_POS ==>
                (pos.index in live && BlockOf(tree.order, main, alignment, pos.index).address == addr)
                || (pos.index !in tree.alloc && tree.st[pos.index] < SlotLength(tree.order, pos.index))
      ensures forall v :: v in live && BlockOf(tree.order, main, alignment, v).address == addr ==>
                pos == Pos(v, HighBit(v))
    {
      ghost var n := tree.order;
      var offset := addr - main;
      if offset % alignment != 0 {
        NoBlockUnaligned(n, main, alignment, live, addr);
        return INVALID_POS;
      }
      pos := DeepestPositionForOffset(offset);
      ghost var i := offset / alignment;
      ghost var leaf := pos.index;
      LeafInterval(n, i);
      LeafClimbStart(n, tree.alloc, i);
      var status := tree.Status(pos);
      while status == 0
        invariant LeafClimb(n, tree.alloc, pos, leaf) && status == tree.st[pos.index]
        decreases pos.index
      {
        LeafClimbStep(n, tree.alloc, pos, leaf);
        pos := Parent(pos);
        if !tree.ValidPos(pos) {
          NothingAtLeaf(n, blocks, tree.alloc, live, main, alignment, i, addr);
          return INVALID_POS;
        }
        status := tree.Status(pos);
      }
      OwnerFound(n, blocks, tree.alloc, live, main, alignment, pos, i, addr);
      var start := AddressForPosition(pos);
      if start != addr {
        return INVALID_POS;
      }
    }

    // ---- masking -------------------------------------------------------------------------

    /** Toggles one masked node that has not been toggled yet. */
    method Toggle(pos: Pos, state: bool, ghost A: set<nat>, ghost V: set<nat>, ghost done: set<nat>)
      requires tree.Valid() && PosOk(pos) && IsNode(tree.order, pos.index)
      requires CanToggle(tree.order, A, V, state) && tree.alloc == Toggled(A, done, state)
      requires done <= V && pos.index in V && pos.index !in done
      modifies tree.bits, tree`st, tree`alloc
      ensures tree.Valid() && tree.alloc == Toggled(A, done + {pos.index}, state)
    {
      MaskOne(tree.order, A, V, done, pos.index, state);
      if state {
        tree.Mark(pos);
      } else {
        var _ := tree.Release(pos);
      }
    }

    /** One round of the masking loop: mask the whole node, or go on to its right child, or mask
        that child and go on to the left one. `target` is the node to mask, if any. */
    method MaskingStep(pos: Pos, delta: nat, ghost V: set<nat>, ghost done: set<nat>, ghost leaves: nat)
      returns (target: Pos, next: Pos, rest: nat, ghost done': set<nat>, ghost leaves': nat)
      requires Layout() && PosOk(pos) && IsNode(tree.order, pos.index)
      requires Masking(tree.order, V, done, pos.index, leaves) && 0 < delta == Span(alignment, leaves)
      ensures target == INVALID_POS ==> done' == done
      ensures target != INVALID_POS ==>
                PosOk(target) && IsNode(tree.order, target.index) && done' == done + {target.index}
                && done <= V && target.index in V && target.index !in done
      ensures rest == 0 ==> done' == V
      ensures rest > 0 ==> PosOk(next) && next.depth == pos.depth + 1 && IsNode(tree.order, next.index)
      ensures rest > 0 ==> Masking(tree.order, V, done', next.index, leaves') && rest == Span(alignment, leaves')
    {
      ChildPositions(tree.order, pos);
      var size := SizeForDepth(pos.depth);
      done', leaves' := MaskingRound(tree.order, alignment, V, done, pos.index, leaves, size, delta);
      if delta == size {
        target, next, rest := pos, pos, 0;
      } else if delta <= size / 2 {
        target, next, rest := INVALID_POS, RightChild(pos), delta;
      } else {
        target, next, rest := RightChild(pos), LeftChild(pos), delta - size / 2;
      }
    }

    /** Unmasking undoes masking, bit by bit. */
    method MaskAndUnmask()
      requires Layout() && tree.Valid() && CanToggle(tree.order, tree.alloc, Virtual(tree.order, blocks), true)
      modifies tree.bits, tree`st, tree`alloc
      ensures tree.Valid() && tree.alloc == old(tree.alloc) && SameBits(old(tree.bits[..]), tree.bits[..], tree.order)
    {
      ToggleVirtualSlots(true);
      ToggleVirtualSlots(false);
      assert tree.alloc == old(tree.alloc);
      BitsRestored();
    }

    /** Marks (or releases) exactly the masked nodes, each of them free (or allocated) before. */
    method ToggleVirtualSlots(state: bool)
      requires Layout() && tree.Valid()
      requires CanToggle(tree.order, tree.alloc, Virtual(tree.order, blocks), state)
      modifies tree.bits, tree`st, tree`alloc
      ensures tree.Valid()
      ensures tree.alloc == Toggled(old(tree.alloc), Virtual(tree.order, blocks), state)
    {
      ghost var A, V, n := tree.alloc, Virtual(tree.order, blocks), tree.order;
      var effective := EffectiveMemorySize();
      MaskingStart(n, alignment, blocks, memorySize, effective);
      if effective == memorySize {
        return;
      }
      var delta: nat := effective - memorySize;
      var pos := RightChild(Root());
      ghost var leaves: nat, done: set<nat> := Pow2(n - 1) - blocks, {};
      while delta != 0
        invariant delta == 0 ==> done == V
        invariant delta > 0 ==> PosOk(pos) && IsNode(n, pos.index) && Masking(n, V, done, pos.index, leaves)
        invariant delta > 0 ==> delta == Span(alignment, leaves)
        invariant tree.Valid() && tree.alloc == Toggled(A, done, state)
        decreases if delta == 0 then 0 else n + 1 - pos.depth
      {
        NodeDepth(n, pos.index);
        var target;
        ghost var before := done;
        target, pos, delta, done, leaves := MaskingStep(pos, delta, V, done, leaves);
        if target != INVALID_POS {
          Toggle(target, state, A, V, before);
        }
        if delta > 0 { NodeDepth(n, pos.index); }
      }
    }

    // ---- allocation and release ----------------------------------------------------------

    /** The tree is as it was, down to the last bit. */
    twostate predicate TreeUnchanged()
      reads this, tree, tree.bits
    {
      live == old(live) && tree.alloc == old(tree.alloc) && tree.bits[..] == old(tree.bits[..])
    }

    /** Searches the row for a size; fails only if the arena has no room for a block of that size. */
    method FindRoom(depth: nat, ghost size: nat) returns (pos: Pos)
      requires Valid() && 1 <= depth <= tree.order && size == Span(alignment, Pow2(tree.order - depth))
      ensures tree.ValidPos(pos) <==> Room(Blocks(), main, memorySize, size)
      ensures tree.ValidPos(pos) ==>
                PosOk(pos) && IsNode(tree.order, pos.index) && Statuses.Free(tree.order, tree.alloc, pos.index)
                && BlockOf(tree.order, main, alignment, pos.index).size == size
    {
      HasFreeIsRoom(tree.order, blocks, tree.alloc, live, main, alignment, depth, size);
      pos := tree.FindFree(depth);
      if tree.ValidPos(pos) { RowBlock(tree.order, main, alignment, pos, size); }
    }

    /** Marks a free node and adds its block to the live ones. */
    method Take(pos: Pos)
      requires Valid() && PosOk(pos) && IsNode(tree.order, pos.index)
      requires Statuses.Free(tree.order, tree.alloc, pos.index)
      modifies `live, tree.bits, tree`st, tree`alloc
      ensures Valid()
      ensures live == old(live) + {pos.index} && tree.alloc == old(tree.alloc) + {pos.index}
      ensures BlockOf(tree.order, main, alignment, pos.index) !in old(Blocks())
      ensures Blocks() == old(Blocks()) + {BlockOf(tree.order, main, alignment, pos.index)}
    {
      BlockTaken(tree.order, blocks, tree.alloc, live, main, alignment, pos.index);
      tree.Mark(pos);
      live := live + {pos.index};
    }

    /** Releases a node found for an address: a live one loses its block, any other stays as it is. */
    method GiveBack(pos: Pos) returns (status: ReleaseStatus)
      requires Valid() && PosOk(pos) && IsNode(tree.order, pos.index)
      requires pos.index in live
               || (pos.index !in tree.alloc && tree.st[pos.index] < SlotLength(tree.order, pos.index))
      modifies `live, tree.bits, tree`st, tree`alloc
      ensures Valid()
      ensures status == Success <==> pos.index in old(live)
      ensures status == Success ==> live == old(live) - {pos.index} && tree.alloc == old(tree.alloc) - {pos.index}
      ensures status == Success ==> Blocks() == old(Blocks()) - {BlockOf(tree.order, main, alignment, pos.index)}
      ensures status != Success ==> TreeUnchanged()
    {
      if pos.index in live { BlockGiven(tree.order, blocks, tree.alloc, live, main, alignment, pos.index); }
      status := tree.Release(pos);
      if status == Success { live := live - {pos.index}; }
    }

    method Malloc(requestedSize: nat) returns (p: nat)
      requires Valid()
      modifies `live, tree.bits, tree`st, tree`alloc
      ensures Valid()
      ensures p != 0 <==> Room(old(Blocks()), main, memorySize, FittingSize(alignment, requestedSize))
      ensures p == 0 ==>
                TreeUnchanged() && Blocks() == old(Blocks()) && tree.bits[..] == old(tree.bits[..])
      ensures p != 0 ==> Block(p, FittingSize(alignment, requestedSize)) !in old(Blocks())
      ensures p != 0 ==> Blocks() == old(Blocks()) + {Block(p, FittingSize(alignment, requestedSize))}
      ensures p != 0 ==> var size := FittingSize(alignment, requestedSize);
                         && requestedSize <= size < 2 * (if requestedSize < alignment then alignment else requestedSize)
                         && (exists e: nat :: size == alignment * Pow2(e))
                         && main <= p && p + size <= main + memorySize && (exists k: nat :: p == main + size * k)
                         && forall b :: b in old(Blocks()) ==> b.address + b.size <= p || p + size <= b.address
    {
      OneBlockFits(alignment, blocks);
      var request := if requestedSize == 0 then 1 else requestedSize;
      if request > memorySize {
        NoRoomBeyond(Blocks(), main, memorySize, alignment, requestedSize);
        return 0;
      }
      var depth := DepthForSize(request);
      var pos := FindRoom(depth, FittingSize(alignment, request));
      if !tree.ValidPos(pos) {
        return 0;
      }
      Take(pos);
      p := AddressForPosition(pos);
      BlocksOrderly();
      NewBlockPlaced(old(Blocks()), p, FittingSize(alignment, requestedSize), main, memorySize, alignment, requestedSize);
    }

    /** Whatever the pointer: the live block that starts there is removed, and if there is none
        nothing changes. */
    method Free(ptr: nat)
      requires Valid()
      modifies `live, tree.bits, tree`st, tree`alloc
      ensures Valid()
      ensures forall b :: b in old(Blocks()) && b.address == ptr ==> Blocks() == old(Blocks()) - {b}
      ensures (forall b :: b in old(Blocks()) ==> b.address != ptr) ==>
                TreeUnchanged() && Blocks() == old(Blocks()) && tree.bits[..] == old(tree.bits[..])
    {
      NodesOfBlocks();
      if ptr == 0 {
        return;
      }
      if ptr < main || ptr >= main + memorySize {
        return;
      }
      var pos := PositionForAddress(ptr);
      if !tree.ValidPos(pos) {
        return;
      }
      if pos.index in live { InBlocks(tree.order, main, alignment, live, pos.index); }
      var _ := GiveBack(pos);
    }

    /** Frees only if the given size is one the block would have been chosen for. */
    method SafeFree(ptr: nat, requestedSize: nat) returns (status: SafeFreeStatus)
      requires Valid()
      modifies `live, tree.bits, tree`st, tree`alloc
      ensures Valid()
      ensures status == SafeFreeSuccess <==> Block(ptr, FittingSize(alignment, requestedSize)) in old(Blocks())
      ensures status == SafeFreeSuccess ==>
                Blocks() == old(Blocks()) - {Block(ptr, FittingSize(alignment, requestedSize))}
      ensures status != SafeFreeSuccess ==>
                TreeUnchanged() && Blocks() == old(Blocks()) && tree.bits[..] == old(tree.bits[..])
      ensures forall b :: b in old(Blocks()) && b.address == ptr ==> status != InvalidAddress
      ensures ptr == 0 || ptr < main || ptr >= main + memorySize || (ptr - main) % alignment != 0 ==>
                status == InvalidAddress
    {
      NodesOfBlocks();
      if ptr == 0 {
        return InvalidAddress;
      }
      if ptr < main || ptr >= main + memorySize {
        return InvalidAddress;
      }
      var pos := PositionForAddress(ptr);
      if !tree.ValidPos(pos) {
        return InvalidAddress;
      }
      LiveAt(tree.order, main, alignment, live, pos.index, ptr, FittingSize(alignment, requestedSize));
      var mismatch := SizeMismatched(pos, requestedSize);
      if mismatch {
        return SizeMismatch;
      }
      var released := GiveBack(pos);
      status := if released == Success then SafeFreeSuccess else InvalidAddress;
    }

    /** The size test: the block of a position has not the size the request would be served with. */
    method SizeMismatched(pos: Pos, requestedSize: nat) returns (mismatch: bool)
      requires Layout() && PosOk(pos) && IsNode(tree.order, pos.index)
      ensures mismatch <==> BlockOf(tree.order, main, alignment, pos.index).size != FittingSize(alignment, requestedSize)
    {
      NodeDepth(tree.order, pos.index);
      var size := SizeForDepth(pos.depth);
      SizeMatches(alignment, tree.order - pos.depth, requestedSize, size);
      var request := if requestedSize < alignment then alignment else requestedSize;
      mismatch := request > size || request <= size / 2;
    }

    twostate lemma BitsRestored()
      requires old(tree.Valid()) && tree.Valid() && tree.order == old(tree.order) && tree.alloc == old(tree.alloc)
      ensures SameBits(old(tree.bits[..]), tree.bits[..], tree.order)
    {
      AllocationDeterminesBits(tree.order, old(BitsOf(tree.bits[..])), BitsOf(tree.bits[..]), old(tree.st),
                               tree.st, tree.alloc);
    }

    /** Copies what fits of a released block to a free node and marks that node. */
    method Relocate(origin: Pos, newPos: Pos, ignoreData: bool) returns (destination: nat)
      requires Valid() && PosOk(origin) && IsNode(tree.order, origin.index)
      requires PosOk(newPos) && IsNode(tree.order, newPos.index) && Statuses.Free(tree.order, tree.alloc, newPos.index)
      requires Statuses.Free(tree.order, tree.alloc, origin.index)
      modifies `live, mem, tree.bits, tree`st, tree`alloc
      ensures Valid()
      ensures var b, c := BlockOf(tree.order, main, alignment, origin.index), BlockOf(tree.order, main, alignment, newPos.index);
              var kept := if b.size < c.size then b.size else c.size;
              && destination == c.address > 0 && c !in old(Blocks()) && Blocks() == old(Blocks()) + {c}
              && c.address + kept <= mem.Length && b.address + kept <= mem.Length
              && mem[..] == if ignoreData then old(mem[..]) else Copy(old(mem[..]), c.address, b.address, kept)
    {
      FreeBlockInside(tree.order, blocks, tree.alloc, live, main, alignment, origin.index);
      FreeBlockInside(tree.order, blocks, tree.alloc, live, main, alignment, newPos.index);
      DeeperIsSmaller(tree.order, main, alignment, origin.index, newPos.index);
      destination := AddressForPosition(newPos);
      if !ignoreData {
        var source := AddressForPosition(origin);
        var size := SizeForDepth(if origin.depth > newPos.depth then origin.depth else newPos.depth);
        var _ := Memmove.Memmove(mem, destination, source, size);
      }
      Take(newPos);
    }

    /** Releases a live block and looks for room for the new size, which may be the room just
        released; without room the block is marked again and every bit is as before. */
    method ReallocLive(origin: Pos, ptr: nat, requestedSize: nat, ignoreData: bool, ghost b: Block,
                       ghost size: nat, ghost kept: nat)
      returns (r: nat)
      requires Valid() && PosOk(origin) && origin.index in live && requestedSize <= memorySize
      requires b == BlockOf(tree.order, main, alignment, origin.index) && ptr == b.address
      requires size == FittingSize(alignment, requestedSize) && kept == if b.size < size then b.size else size
      modifies `live, mem, tree.bits, tree`st, tree`alloc
      ensures Valid()
      ensures r != 0 <==> Room(old(Blocks()) - {b}, main, memorySize, size)
      ensures r == 0 ==> live == old(live) && Blocks() == old(Blocks()) && mem[..] == old(mem[..])
      ensures r == 0 ==> SameBits(old(tree.bits[..]), tree.bits[..], tree.order)
      ensures r != 0 ==> Block(r, size) !in old(Blocks()) - {b} && Blocks() == old(Blocks()) - {b} + {Block(r, size)}
      ensures r != 0 ==> r + kept <= mem.Length && ptr + kept <= mem.Length
      ensures r != 0 ==> mem[..] == if ignoreData then old(mem[..]) else Copy(old(mem[..]), r, ptr, kept)
    {
      BlockInside(tree.order, blocks, tree.alloc, live, main, alignment, origin.index);
      InBlocks(tree.order, main, alignment, live, origin.index);
      var depth := DepthForSize(requestedSize);
      ReleaseKeepsAllocation(tree.order, tree.alloc, origin.index);
      var _ := GiveBack(origin);
      var newPos := FindRoom(depth, size);
      if !tree.ValidPos(newPos) {
        Take(origin);
        assert tree.alloc == old(tree.alloc);
        BitsRestored();
        return 0;
      }
      if origin.index == newPos.index {
        Take(origin);
        CopySelf(mem[..], ptr, kept);
        return ptr;
      }
      r := Relocate(origin, newPos, ignoreData);
    }

    /** Resizes a live block. The other live blocks keep their places and their bytes; the block
        keeps the bytes that fit; without room nothing changes. */
    method Realloc(ptr: nat, requestedSize: nat, ignoreData: bool, ghost b: Block) returns (r: nat)
      requires Valid() && (ptr != 0 ==> b in Blocks() && b.address == ptr)
      modifies `live, mem, tree.bits, tree`st, tree`alloc
      ensures Valid()
      ensures r != 0 <==> Room(Others(old(Blocks()), ptr, b), main, memorySize, FittingSize(alignment, requestedSize))
                          && (ptr == 0 || requestedSize != 0)
      ensures r != 0 ==> Block(r, FittingSize(alignment, requestedSize)) !in Others(old(Blocks()), ptr, b)
      ensures r != 0 ==>
                Blocks() == Others(old(Blocks()), ptr, b) + {Block(r, FittingSize(alignment, requestedSize))}
      ensures r == 0 && ptr != 0 && requestedSize == 0 ==> Blocks() == old(Blocks()) - {b}
      ensures r == 0 && (ptr == 0 || requestedSize != 0) ==>
                live == old(live) && Blocks() == old(Blocks()) && SameBits(old(tree.bits[..]), tree.bits[..], tree.order)
      ensures forall c :: c in Others(old(Blocks()), ptr, b) ==>
                            c.address + c.size <= mem.Length
                            && forall i :: c.address <= i < c.address + c.size ==> mem[i] == old(mem[..])[i]
      ensures r != 0 && ptr != 0 && !ignoreData ==>
                var kept := KeptBytes(b.size, FittingSize(alignment, requestedSize));
                && r + kept <= mem.Length && ptr + kept <= mem.Length
                && mem[..][r..r + kept] == old(mem[..])[ptr..ptr + kept]
      ensures r == 0 || ptr == 0 || ignoreData ==> mem[..] == old(mem[..])
    {
      NodesOfBlocks();
      if ptr == 0 {
        r := Malloc(requestedSize);
        return;
      }
      if requestedSize == 0 {
        Free(ptr);
        return 0;
      }
      r := ReallocBlock(ptr, requestedSize, ignoreData, b);
    }

    /** A live block gets a size that is not zero. */
    method ReallocBlock(ptr: nat, requestedSize: nat, ignoreData: bool, ghost b: Block) returns (r: nat)
      requires Valid() && b in Blocks() && b.address == ptr != 0 && requestedSize != 0
      modifies `live, mem, tree.bits, tree`st, tree`alloc
      ensures Valid()
      ensures r != 0 <==> Room(old(Blocks()) - {b}, main, memorySize, FittingSize(alignment, requestedSize))
      ensures r != 0 ==> Block(r, FittingSize(alignment, requestedSize)) !in old(Blocks()) - {b}
      ensures r != 0 ==> Blocks() == old(Blocks()) - {b} + {Block(r, FittingSize(alignment, requestedSize))}
      ensures r == 0 ==>
                live == old(live) && Blocks() == old(Blocks()) && SameBits(old(tree.bits[..]), tree.bits[..], tree.order)
      ensures forall c :: c in old(Blocks()) - {b} ==>
                            c.address + c.size <= mem.Length
                            && forall i :: c.address <= i < c.address + c.size ==> mem[i] == old(mem[..])[i]
      ensures r != 0 && !ignoreData ==>
                var kept := KeptBytes(b.size, FittingSize(alignment, requestedSize));
                && r + kept <= mem.Length && ptr + kept <= mem.Length
                && mem[..][r..r + kept] == old(mem[..])[ptr..ptr + kept]
      ensures r == 0 || ignoreData ==> mem[..] == old(mem[..])
    {
      NodesOfBlocks();
      if requestedSize > memorySize {
        NoRoomBeyond(Blocks() - {b}, main, memorySize, alignment, requestedSize);
        return 0;
      }
      var origin := PositionForAddress(ptr);
      LiveOrigin(origin, ptr, b);
      ghost var size := FittingSize(alignment, requestedSize);
      ghost var kept := KeptBytes(b.size, size);
      r := ReallocSized(origin, ptr, requestedSize, ignoreData, b, size, kept);
    }

    /** The same, byte by byte. */
    method ReallocSized(origin: Pos, ptr: nat, requestedSize: nat, ignoreData: bool, ghost b: Block,
                        ghost size: nat, ghost kept: nat)
      returns (r: nat)
      requires Valid() && PosOk(origin) && origin.index in live && requestedSize <= memorySize
      requires b == BlockOf(tree.order, main, alignment, origin.index) && ptr == b.address
      requires size == FittingSize(alignment, requestedSize) && kept == if b.size < size then b.size else size
      requires forall c :: c in Blocks() ==> c.address + c.size <= mem.Length
      modifies `live, mem, tree.bits, tree`st, tree`alloc
      ensures Valid()
      ensures r != 0 <==> Room(old(Blocks()) - {b}, main, memorySize, size)
      ensures r == 0 ==>
                live == old(live) && Blocks() == old(Blocks()) && SameBits(old(tree.bits[..]), tree.bits[..], tree.order)
      ensures r != 0 ==> Block(r, size) !in old(Blocks()) - {b} && Blocks() == old(Blocks()) - {b} + {Block(r, size)}
      ensures forall c :: c in old(Blocks()) - {b} ==>
                            c.address + c.size <= mem.Length
                            && forall i :: c.address <= i < c.address + c.size ==> mem[i] == old(mem[..])[i]
      ensures r != 0 && !ignoreData ==>
                r + kept <= mem.Length && ptr + kept <= mem.Length && mem[..][r..r + kept] == old(mem[..])[ptr..ptr + kept]
      ensures r == 0 || ignoreData ==> mem[..] == old(mem[..])
    {
      ghost var m, rest := mem[..], Blocks() - {b};
      r := ReallocLive(origin, ptr, requestedSize, ignoreData, b, size, kept);
      ghost var m' := mem[..];
      if r != 0 { OthersStay(m, m', rest, ptr, r, size, kept, ignoreData); }
      assert forall i :: 0 <= i < mem.Length ==> mem[i] == m'[i];
    }

    lemma OthersStay(m: seq<bv8>, m': seq<bv8>, rest: set<Block>, ptr: nat, r: nat, size: nat, kept: nat, ignoreData: bool)
      requires Valid() && Blocks() == rest + {Block(r, size)} && Block(r, size) !in rest
      requires kept <= size && r + kept <= |m| && ptr + kept <= |m| == mem.Length
      requires m' == if ignoreData then m else Copy(m, r, ptr, kept)
      ensures |m'| == |m|
      ensures forall c :: c in rest ==> c.address + c.size <= |m| && forall i :: c.address <= i < c.address + c.size ==> m'[i] == m[i]
      ensures !ignoreData ==> m'[r..r + kept] == m[ptr..ptr + kept]
    {
      BlocksOrderly();
      OthersKept(m, m', rest, ptr, r, size, kept, ignoreData, main, memorySize, alignment);
    }

    /** Allocates zeroed memory for an array, with one byte for an array of none; fails when the size
        of the array wraps. */
    method Calloc(membersCount: nat, memberSize: nat) returns (p: nat)
      requires Valid() && membersCount < SIZE_LIMIT && memberSize < SIZE_LIMIT
      modifies `live, mem, tree.bits, tree`st, tree`alloc
      ensures Valid()
      ensures membersCount * memberSize >= SIZE_LIMIT ==> p == 0
      ensures p != 0 <==> Room(old(Blocks()), main, memorySize, FittingSize(alignment, membersCount * memberSize))
      ensures p == 0 ==> TreeUnchanged() && Blocks() == old(Blocks()) && tree.bits[..] == old(tree.bits[..])
      ensures p == 0 ==> mem[..] == old(mem[..])
      ensures p != 0 ==> Block(p, FittingSize(alignment, membersCount * memberSize)) !in old(Blocks())
      ensures p != 0 ==> Blocks() == old(Blocks()) + {Block(p, FittingSize(alignment, membersCount * memberSize))}
      ensures p != 0 ==>
                && membersCount * memberSize <= FittingSize(alignment, membersCount * memberSize)
                && p + FittingSize(alignment, membersCount * memberSize) <= main + memorySize <= mem.Length
                && forall i :: p <= i < p + membersCount * memberSize ==> mem[i] == 0
      ensures p != 0 ==> forall k: nat {:trigger MemberStart(p, memberSize, k)} :: k < membersCount ==>
                var start := MemberStart(p, memberSize, k);
                && p <= start && start + memberSize <= p + FittingSize(alignment, membersCount * memberSize)
                && forall i :: start <= i < start + memberSize ==> mem[i] == 0
      ensures p != 0 ==>
                forall i :: 0 <= i < mem.Length && (i < p || i >= p + FittingSize(alignment, membersCount * memberSize)) ==>
                              mem[i] == old(mem[..])[i]
    {
      var wraps, total := ArrayBytes(membersCount, memberSize);
      ghost var product := membersCount * memberSize;
      if wraps {
        NoRoomBeyond(Blocks(), main, memorySize, alignment, product);
        return 0;
      }
      FittingNothing(alignment);
      p := Malloc(total);
      if p != 0 {
        ZeroFill(p, total);
        forall k: nat | k < membersCount
          ensures p <= MemberStart(p, memberSize, k) && MemberStart(p, memberSize, k) + memberSize <= p + product
        {
          MemberInside(p, membersCount, memberSize, k);
        }
      }
    }

    /** The bytes of an array, with one for an array of none, and the test for a product that wraps. */
    static method ArrayBytes(membersCount: nat, memberSize: nat) returns (wraps: bool, total: nat)
      requires membersCount < SIZE_LIMIT && memberSize < SIZE_LIMIT
      ensures wraps <==> membersCount * memberSize >= SIZE_LIMIT
      ensures !wraps ==> total == if membersCount * memberSize == 0 then 1 else membersCount * memberSize
    {
      var zero := membersCount == 0 || memberSize == 0;
      var count, size := if zero then 1 else membersCount, if zero then 1 else memberSize;
      if zero { ZeroTimes(membersCount, memberSize); } else { NonZeroTimes(membersCount, memberSize); }
      OverflowTest(count, size);
      total := Product(count, size);
      wraps := total / count != size;
    }

    method ZeroFill(p: nat, total: nat)
      requires p + total <= mem.Length
      modifies mem
      ensures forall i :: 0 <= i < mem.Length ==> mem[i] == if p <= i < p + total then 0 else old(mem[i])
    {
      forall i | p <= i < p + total { mem[i] := 0; }
    }

    /** Realloc for an array; fails, with nothing changed, when the size of the array wraps. An array
        of no bytes frees the block. */
    method ReallocArray(ptr: nat, membersCount: nat, memberSize: nat, ignoreData: bool, ghost b: Block) returns (r: nat)
      requires Valid() && (ptr != 0 ==> b in Blocks() && b.address == ptr)
      requires membersCount < SIZE_LIMIT && memberSize < SIZE_LIMIT
      modifies `live, mem, tree.bits, tree`st, tree`alloc
      ensures Valid()
      ensures membersCount * memberSize >= SIZE_LIMIT ==>
                r == 0 && Blocks() == old(Blocks()) && tree.bits[..] == old(tree.bits[..]) && mem[..] == old(mem[..])
      ensures r != 0 <==> Room(Others(old(Blocks()), ptr, b), main, memorySize,
                               FittingSize(alignment, membersCount * memberSize))
                          && (ptr == 0 || membersCount * memberSize != 0)
      ensures r != 0 ==> Block(r, FittingSize(alignment, membersCount * memberSize)) !in Others(old(Blocks()), ptr, b)
      ensures r != 0 ==> Blocks() == Others(old(Blocks()), ptr, b) + {Block(r, FittingSize(alignment, membersCount * memberSize))}
      ensures r == 0 && ptr != 0 && membersCount * memberSize == 0 ==> Blocks() == old(Blocks()) - {b}
      ensures r == 0 && (ptr == 0 || membersCount * memberSize != 0) ==>
                live == old(live) && Blocks() == old(Blocks()) && SameBits(old(tree.bits[..]), tree.bits[..], tree.order)
      ensures r == 0 || ptr == 0 || ignoreData ==> mem[..] == old(mem[..])
      ensures forall c :: c in Others(old(Blocks()), ptr, b) ==>
                            c.address + c.size <= mem.Length
                            && forall i :: c.address <= i < c.address + c.size ==> mem[i] == old(mem[..])[i]
      ensures r != 0 && ptr != 0 && !ignoreData ==>
                var kept := KeptBytes(b.size, FittingSize(alignment, membersCount * memberSize));
                && r + kept <= mem.Length && ptr + kept <= mem.Length
                && mem[..][r..r + kept] == old(mem[..])[ptr..ptr + kept]
    {
      NodesOfBlocks();
      if membersCount == 0 || memberSize == 0 {
        ZeroTimes(membersCount, memberSize);
        r := Realloc(ptr, 0, ignoreData, b);
        return;
      }
      OverflowTest(membersCount, memberSize);
      if Product(membersCount, memberSize) / membersCount != memberSize {
        NoRoomBeyond(Others(Blocks(), ptr, b), main, memorySize, alignment, membersCount * memberSize);
        return 0;
      }
      r := Realloc(ptr, Product(membersCount, memberSize), ignoreData, b);
    }

    /** The position found for the address of a live block is that of the block. */
    lemma LiveOrigin(origin: Pos, ptr: nat, b: Block)
      requires Valid() && b in Blocks() && b.address == ptr
      requires forall v :: v in live && BlockOf(tree.order, main, alignment, v).address == ptr ==>
                 origin == Pos(v, HighBit(v))
      ensures PosOk(origin) && origin.index in live && b == BlockOf(tree.order, main, alignment, origin.index)
    {
      var v := NodeOfBlock(tree.order, main, alignment, live, b);
    }

    /** The free bytes: a sweep over the tree that adds up the free nodes and skips below them and
        below full ones. Free bytes and live blocks make up the arena. */
    method ArenaFreeSize() returns (result: nat)
      requires Valid()
      ensures result + TotalSize(Blocks()) == memorySize
    {
      result := 0;
      var state := new WalkState();
      SweepStart(tree.order, tree.alloc);
      ghost var leaves: nat := 0;
      var more := true;
      InBounds(tree.order, state.currentPos);
      while more
        invariant state.startingPos == Root() && !state.goingUp && more == !state.walkDone && fresh(state)
        invariant PosOk(state.currentPos) && IsNode(tree.order, state.currentPos.index)
        invariant Lo(tree.order, state.currentPos.index) < Pow2(tree.order - 1)
        invariant HighBit(state.currentPos.index) <= tree.order
        invariant Sweeping(tree.order, tree.alloc, state.currentPos.index, more, leaves)
        invariant result == Span(alignment, leaves)
        decreases more, Pow2(tree.order - 1) - Lo(tree.order, state.currentPos.index),
                  tree.order - HighBit(state.currentPos.index)
      {
        result, leaves, more := SweepRound(state, result, leaves);
        InBounds(tree.order, state.currentPos);
      }
      FreeAndLiveBytes(tree.order, blocks, tree.alloc, live, main, alignment);
    }

    /** Adds the size of a free node; below a free or a full node nothing is visited. */
    method CountNode(state: WalkState, counted: nat, ghost leaves: nat)
      returns (result: nat, ghost status: nat, ghost leaves': nat)
      requires Valid() && PosOk(state.currentPos) && IsNode(tree.order, state.currentPos.index) && !state.goingUp
      requires counted == Span(alignment, leaves)
      modifies state`goingUp
      ensures status == Statuses.Status(tree.order, tree.alloc, state.currentPos.index)
      ensures state.goingUp <==> status == SlotLength(tree.order, state.currentPos.index) || status == 0
      ensures leaves' == leaves + FreeWidth(tree.order, status, state.currentPos.index)
      ensures result == Span(alignment, leaves')
    {
      DepthInRange(tree.order, state.currentPos);
      result, leaves' := counted, leaves;
      var s := tree.Status(state.currentPos);
      if s == tree.order - state.currentPos.depth + 1 {
        state.goingUp := true;
      } else if s == 0 {
        state.goingUp := true;
        var size := SizeForDepth(state.currentPos.depth);
        leaves' := leaves + Width(tree.order, state.currentPos.index);
        NodeAdded(tree.order, alignment, leaves, state.currentPos, size, leaves');
        result := counted + size;
      }
      status := s;
    }

    method SweepRound(state: WalkState, counted: nat, ghost leaves: nat) returns (result: nat, ghost leaves': nat,
                      more: bool)
      requires Valid() && state.startingPos == Root() && !state.goingUp && !state.walkDone
      requires PosOk(state.currentPos) && IsNode(tree.order, state.currentPos.index)
      requires Sweeping(tree.order, tree.alloc, state.currentPos.index, true, leaves)
      requires counted == Span(alignment, leaves)
      modifies state
      ensures state.startingPos == Root() && !state.goingUp && more == !state.walkDone
      ensures PosOk(state.currentPos) && IsNode(tree.order, state.currentPos.index)
      ensures Sweeping(tree.order, tree.alloc, state.currentPos.index, more, leaves')
      ensures result == Span(alignment, leaves')
      ensures more ==> Advances(tree.order, old(state.currentPos.index), state.currentPos.index)
    {
      ghost var c := state.currentPos.index;
      ghost var status;
      result, status, leaves' := CountNode(state, counted, leaves);
      ghost var skip := state.goingUp;
      more := tree.Walk(state);
      SweepStep(tree.order, tree.alloc, c, skip, more, state.currentPos.index, leaves, status);
    }

    /** The arena is full exactly when there is no room for even the smallest block. */
    method IsFull() returns (full: bool)
      requires Valid()
      ensures full <==> !Room(Blocks(), main, memorySize, alignment)
    {
      RootSlot(tree.order);
      var status := tree.Status(Root());
      full := status == tree.order;
      FullRoot(tree.order, tree.alloc);
      SpanOfOne(alignment);
      HasFreeIsRoom(tree.order, blocks, tree.alloc, live, main, alignment, tree.order, alignment);
    }

    // ---- growing -------------------------------------------------------------------------

    /** Gives the arena more memory behind its end. Every live block keeps its address and size. */
    method ResizeStandard(newMemorySize: nat)
      requires Valid() && newMemorySize - newMemorySize % alignment >= memorySize
      requires newMemorySize <= HALF_LIMIT && newMemorySize / alignment <= HALF_LIMIT / 2
      requires main + newMemorySize <= mem.Length
      requires forall n: nat :: Fits(n, newMemorySize / alignment) ==> SizeForOrder(n, 0) <= 8 * tree.bits.Length
      modifies this, tree, tree.bits
      ensures Valid() && memorySize == newMemorySize - newMemorySize % alignment
      ensures Blocks() == old(Blocks())
    {
      ghost var n := tree.order;
      var trimmed := Trim(newMemorySize, alignment);
      OneBlockFits(alignment, blocks);
      ToggleVirtualSlots(false);
      assert tree.alloc == live;
      var newOrder, blocks' := OrderOf(trimmed, alignment, newMemorySize);
      SpanOrder(alignment, blocks, blocks');
      OrderGrows(n, newOrder, blocks, blocks');
      GrowTree(newOrder, blocks');
      memorySize, blocks := trimmed, blocks';
      ToggleVirtualSlots(true);
    }

    /** The tree grows with the masked nodes released; the live nodes are found in it again. */
    method GrowTree(newOrder: nat, ghost blocks': nat)
      requires Layout() && tree.Valid() && tree.alloc == live && tree.order <= newOrder <= MAX_ORDER
      requires Split(tree.order, blocks, live + Virtual(tree.order, blocks), live)
      requires blocks <= blocks' && Fits(newOrder, blocks') && SizeForOrder(newOrder, 0) <= 8 * tree.bits.Length
      modifies `live, tree, tree.bits
      ensures tree.Valid() && tree.order == newOrder && tree.alloc == live
      ensures Split(newOrder, blocks', live + Virtual(newOrder, blocks'), live)
      ensures BlocksOf(newOrder, main, alignment, live) == old(BlocksOf(tree.order, main, alignment, live))
    {
      ghost var k := newOrder - tree.order;
      GrownBlocks(tree.order, k, main, alignment, live);
      tree.Grow(newOrder);
      GrownSplit(old(tree.order), k, blocks, blocks', live + Virtual(old(tree.order), blocks), live);
      live := EmbedSetBy(live, k);
    }

    /** Every live block comes from a live node and lies in the arena. */
    lemma NodesOfBlocks()
      requires Valid()
      ensures forall b :: b in Blocks() ==>
                b.size > 0 && main <= b.address && b.address + b.size <= main + memorySize
                && exists v :: v in live && b == BlockOf(tree.order, main, alignment, v)
    {
      forall b | b in Blocks()
        ensures b.size > 0 && main <= b.address && b.address + b.size <= main + memorySize
        ensures exists v :: v in live && b == BlockOf(tree.order, main, alignment, v)
      {
        var v := NodeOfBlock(tree.order, main, alignment, live, b);
        BlockInside(tree.order, blocks, tree.alloc, live, main, alignment, v);
      }
    }

    /** The live blocks lie in the arena, apart from each other, each at a multiple of its size. */
    lemma BlocksOrderly()
      requires Valid()
      ensures Orderly(Blocks(), main, memorySize, alignment)
    {
      LiveBlocksOrderly(tree.order, blocks, tree.alloc, live, main, alignment);
    }
  }
}
