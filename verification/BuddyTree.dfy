/** The buddy allocation tree: statuses packed in a bitset, updated in place. */
module BuddyTrees {
  import opened Powers
  import opened Bitset
  import opened TreeLayout
  import opened Slots
  import opened Statuses
  import opened Repair
  import opened Search
  import opened PreOrder
  import opened Growth

  /** Where a status lives: the length of its slot and the slot's first bit. */
  datatype InternalPosition = InternalPosition(localOffset: nat, bitsetLocation: nat)

  ghost predicate LocatesSlot(p: InternalPosition, n: nat, v: nat)
  {
    IsNode(n, v) && p.localOffset == SlotLength(n, v) && p.bitsetLocation == SlotStart(n, v)
  }

  datatype ReleaseStatus = Success | FailPartiallyUsed

  /** The bits follow from the allocated nodes: trees of one order that hold the same nodes agree
      on every bit of the bitset. */
  lemma AllocationDeterminesBits(n: nat, view: seq<bool>, view': seq<bool>, st: seq<nat>, st': seq<nat>, A: set<nat>)
    requires Encoded(view, n, st) && Encoded(view', n, st') && Refines(n, st, A) && Refines(n, st', A)
    requires SizeForOrder(n, 0) <= |view| && SizeForOrder(n, 0) <= |view'|
    ensures view[..SizeForOrder(n, 0)] == view'[..SizeForOrder(n, 0)]
  {
    forall k | 0 <= k < SizeForOrder(n, 0) ensures view[k] == view'[k] {
      var v := EveryBitOwned(n, k);
      assert st[v] == st'[v];
      assert SlotHolds(view, SlotStart(n, v), SlotLength(n, v), st[v]);
      assert SlotHolds(view', SlotStart(n, v), SlotLength(n, v), st'[v]);
    }
  }

  /** Largest order whose node indices fit a 64-bit word. */
  const MAX_ORDER: nat := 63

  class BuddyTree {
    var upperPosBound: nat
    var order: nat
    /** The memoised row offsets. */
    var sizeForOrder: seq<nat>
    const bits: array<bv8>

    /** The status of each node, as the bitset encodes it. */
    ghost var st: seq<nat>
    /** The allocated nodes. */
    ghost var alloc: set<nat>

    ghost predicate Shape()
      reads `order, `upperPosBound, `sizeForOrder
    {
      && 1 <= order <= MAX_ORDER
      && upperPosBound == Pow2(order)
      && |sizeForOrder| == order + 1
      && (forall i :: 0 <= i <= order ==> sizeForOrder[i] == SizeForOrder(order, i))
    }

    /** The bitset holds `st`. */
    ghost predicate Stored()
      reads this, bits
    {
      Shape() && SizeForOrder(order, 0) <= 8 * bits.Length && Encoded(BitsOf(bits[..]), order, st)
    }

    /** The statuses are those of the allocated set. */
    ghost predicate Valid()
      reads this, bits
    {
      Stored() && Refines(order, st, alloc)
    }

    // ---- initialisation ------------------------------------------------------------------

    /** A tree with nothing allocated, in storage that is zeroed first. */
    constructor (storage: array<bv8>, treeOrder: nat)
      requires 1 <= treeOrder <= MAX_ORDER && SizeForOrder(treeOrder, 0) <= 8 * storage.Length
      modifies storage
      ensures Valid() && bits == storage && order == treeOrder && alloc == {}
    {
      bits := storage;
      order := treeOrder;
      upperPosBound := Pow2(treeOrder);
      sizeForOrder := [];
      st := seq(Pow2(treeOrder), _ => 0);
      alloc := {};
      new;
      forall i | 0 <= i < bits.Length { bits[i] := 0; }
      PopulateSizeForOrder();
      ZeroBytes(bits[..]);
      ZeroEncoded(BitsOf(bits[..]), order, st);
      NothingAllocated(order, st);
    }

    /** Fills the table of row offsets. */
    method PopulateSizeForOrder()
      modifies `sizeForOrder
      ensures |sizeForOrder| == order + 1
      ensures forall i :: 0 <= i <= order ==> sizeForOrder[i] == SizeForOrder(order, i)
    {
      sizeForOrder := [];
      for i := 0 to order + 1
        invariant |sizeForOrder| == i
        invariant forall j :: 0 <= j < i ==> sizeForOrder[j] == SizeForOrder(order, j)
      {
        var offset := ComputeSizeForOrder(order, i);
        sizeForOrder := sizeForOrder + [offset];
      }
    }

    // ---- slots ---------------------------------------------------------------------------

    method InternalPositionTree(pos: Pos) returns (p: InternalPosition)
      requires Shape() && PosOk(pos) && IsNode(order, pos.index)
      ensures LocatesSlot(p, order, pos.index)
    {
      NodeDepth(order, pos.index);
      StartIsComputed(order, pos.index);
      var localOffset := order - pos.depth + 1;
      var totalOffset := sizeForOrder[localOffset];
      NonNegative(localOffset, RowIndex(pos));
      p := InternalPosition(localOffset, totalOffset + localOffset * RowIndex(pos));
    }

    method WriteInternal(pos: InternalPosition, value: nat, ghost v: nat)
      requires Stored() && LocatesSlot(pos, order, v) && value <= pos.localOffset
      modifies bits, `st
      ensures Stored() && st == old(st)[v := value]
    {
      SlotWithin(order, v);
      ghost var before := BitsOf(bits[..]);
      ClearRange(bits, pos.bitsetLocation, pos.bitsetLocation + pos.localOffset - 1);
      ghost var cleared := BitsOf(bits[..]);
      if value != 0 {
        SetRange(bits, pos.bitsetLocation, pos.bitsetLocation + value - 1);
      }
      WriteSlot(before, cleared, BitsOf(bits[..]), order, st, v, value);
      st := st[v := value];
    }

    method ReadInternal(pos: InternalPosition, ghost v: nat) returns (value: nat)
      requires Stored() && LocatesSlot(pos, order, v)
      ensures value == st[v] <= pos.localOffset
    {
      ghost var view := BitsOf(bits[..]);
      assert SlotHolds(view, pos.bitsetLocation, pos.localOffset, st[v]);
      var first := TestBit(bits, pos.bitsetLocation);
      if !first {
        return 0;
      }
      value := CountRange(bits, pos.bitsetLocation, pos.bitsetLocation + pos.localOffset - 1);
      CountUnary(view, pos.bitsetLocation, pos.localOffset, st[v], pos.localOffset);
    }

    /** One bit test compares a status with a value: the encoding is unary. */
    method CompareInternal(pos: InternalPosition, value: nat, ghost v: nat) returns (atLeast: bool)
      requires Stored() && LocatesSlot(pos, order, v) && 1 <= value <= pos.localOffset
      ensures atLeast <==> st[v] >= value
    {
      ghost var view := BitsOf(bits[..]);
      assert SlotHolds(view, pos.bitsetLocation, pos.localOffset, st[v]);
      atLeast := TestBit(bits, pos.bitsetLocation + value - 1);
    }

    method Status(pos: Pos) returns (s: nat)
      requires Stored() && PosOk(pos) && IsNode(order, pos.index)
      ensures s == st[pos.index] <= SlotLength(order, pos.index)
    {
      var p := InternalPositionTree(pos);
      s := ReadInternal(p, pos.index);
    }

    predicate ValidPos(pos: Pos)
      reads this
    {
      pos.index != 0 && pos.index < upperPosBound
    }

    // ---- mark and release ----------------------------------------------------------------

    /** One round of the repair loop: the parent of `child` gets the status its children call for;
        `done` reports that it already had it, and then every node is right. */
    method UpdateParent(child: Pos, childInternal: InternalPosition, size: nat,
                        ghost v: nat, ghost former: seq<nat>, ghost B: set<nat>)
      returns (done: bool, pos: Pos, internal: InternalPosition, target: nat)
      requires Stored() && PosOk(child) && LocatesSlot(childInternal, order, child.index) && child.index > 1
      requires IsNode(order, v) && Above(child.index, v) && size == st[child.index]
      requires Allocation(order, B) && NoneProperlyAbove(B, v)
      requires RepairedUpTo(order, st, former, B, child.index) && RightAbove(order, former, B, v)
      modifies bits, `st
      ensures Stored()
      ensures pos == Parent(child) && PosOk(pos) && LocatesSlot(internal, order, pos.index)
      ensures Above(pos.index, v) && target == st[pos.index]
      ensures done ==> Refines(order, st, B)
      ensures !done ==> RepairedUpTo(order, st, former, B, pos.index)
    {
      ghost var p := child.index;
      ParentTarget(order, st, former, B, v, p);
      ParentPos(order, child, v);
      var sibling := SiblingInternal(childInternal, child);
      var sizeSibling := ReadInternal(sibling, SiblingOf(p));
      pos := Parent(child);
      internal := InternalPositionTree(pos);
      var sizeParent := ReadInternal(internal, p / 2);
      target := Combine(size, sizeSibling);
      done := target == sizeParent;
      if done {
        RepairStops(order, st, former, B, v, p);
      } else {
        RepairStep(order, st, former, B, p);
        WriteInternal(internal, target, p / 2);
      }
    }

    /** Repairs the ancestors of `start` from the bottom up and stops at the first one whose
        status is already right. */
    method UpdateParentChain(start: Pos, startInternal: InternalPosition, startSize: nat,
                             ghost former: seq<nat>, ghost B: set<nat>)
      requires Stored() && PosOk(start) && LocatesSlot(startInternal, order, start.index)
      requires Allocation(order, B) && NoneProperlyAbove(B, start.index)
      requires RepairedUpTo(order, st, former, B, start.index) && startSize == st[start.index]
      requires RightAbove(order, former, B, start.index)
      modifies bits, `st
      ensures Stored() && Refines(order, st, B)
    {
      ghost var v := start.index;
      var pos, internal, sizeCurrent := start, startInternal, startSize;
      while pos.index != 1
        invariant Stored() && PosOk(pos) && LocatesSlot(internal, order, pos.index)
        invariant Above(pos.index, v) && sizeCurrent == st[pos.index]
        invariant RepairedUpTo(order, st, former, B, pos.index)
        decreases pos.index
      {
        var done;
        done, pos, internal, sizeCurrent := UpdateParent(pos, internal, sizeCurrent, v, former, B);
        if done {
          return;
        }
      }
      RepairDone(order, st, former, B);
    }

    /** The sibling's slot is the neighbouring one: one slot length up or down. */
    method SiblingInternal(p: InternalPosition, pos: Pos) returns (s: InternalPosition)
      requires Shape() && PosOk(pos) && pos.index > 1 && LocatesSlot(p, order, pos.index)
      ensures Sibling(pos).index == SiblingOf(pos.index)
      ensures PosOk(Sibling(pos)) && LocatesSlot(s, order, SiblingOf(pos.index)) && s.localOffset == p.localOffset
    {
      SiblingNodes(order, pos.index);
      if pos.index % 2 == 0 {
        s := p.(bitsetLocation := p.bitsetLocation + p.localOffset);
      } else {
        s := p.(bitsetLocation := p.bitsetLocation - p.localOffset);
      }
    }

    /** Marks a free node as allocated. */
    method Mark(pos: Pos)
      requires Valid() && PosOk(pos) && IsNode(order, pos.index)
      requires Free(order, alloc, pos.index)
      modifies bits, `st, `alloc
      ensures Valid() && alloc == old(alloc) + {pos.index} && pos.index !in old(alloc)
    {
      ghost var v := pos.index;
      ghost var B, former := alloc + {v}, st;
      MarkKeepsAllocation(order, alloc, v);
      var internal := InternalPositionTree(pos);
      RepairStart(order, st, alloc, B, v);
      WriteInternal(internal, internal.localOffset, v);
      UpdateParentChain(pos, internal, internal.localOffset, former, B);
      alloc := B;
    }

    /** Releases an allocated node; a node whose status is short of the maximum is left alone.
        (A node that is full through its children is not a node a caller may release.) */
    method Release(pos: Pos) returns (r: ReleaseStatus)
      requires Valid() && PosOk(pos) && IsNode(order, pos.index)
      requires pos.index in alloc || st[pos.index] < SlotLength(order, pos.index)
      modifies bits, `st, `alloc
      ensures Valid()
      ensures r == Success <==> pos.index in old(alloc)
      ensures r == Success ==> alloc == old(alloc) - {pos.index}
      ensures r == FailPartiallyUsed ==> alloc == old(alloc) && st == old(st) && bits[..] == old(bits[..])
    {
      ghost var v := pos.index;
      var internal := InternalPositionTree(pos);
      var status := ReadInternal(internal, v);
      if status != internal.localOffset {
        return FailPartiallyUsed;
      }
      ghost var B, former := alloc - {v}, st;
      ReleaseKeepsAllocation(order, alloc, v);
      RepairStart(order, st, alloc, B, v);
      WriteInternal(internal, 0, v);
      UpdateParentChain(pos, internal, 0, former, B);
      alloc := B;
      return Success;
    }

    // ---- search --------------------------------------------------------------------------

    /** The choice between two siblings, at least one of which has a status below `bound`. A busy
        child is never picked; of two candidates the busier one is, the left one on a tie. */
    method PreferLeft(left: InternalPosition, right: InternalPosition, bound: nat, ghost l: nat, ghost r: nat)
      returns (goLeft: bool)
      requires Stored() && LocatesSlot(left, order, l) && LocatesSlot(right, order, r)
      requires left.localOffset == right.localOffset && 1 <= bound <= left.localOffset
      requires st[l] < bound || st[r] < bound
      ensures if goLeft then st[l] < bound else st[r] < bound
      ensures st[l] < bound && st[r] < bound ==> (goLeft <==> st[l] >= st[r])
    {
      var leftBusy := CompareInternal(left, bound, l);
      if leftBusy {
        return false;
      }
      var rightBusy := CompareInternal(right, bound, r);
      if rightBusy {
        return true;
      }
      var rightStatus := ReadInternal(right, r);
      if rightStatus != 0 {
        goLeft := CompareInternal(left, rightStatus, l);
      } else {
        goLeft := true;
      }
    }

    /** One step down: the child to follow on the way to a free node `steps` rows below. */
    method PickChild(current: Pos, steps: nat, ghost goal: nat) returns (next: Pos)
      requires Valid() && steps >= 1 && OnTheWay(order, st, alloc, current, steps, goal)
      ensures next.depth == current.depth + 1 && OnTheWay(order, st, alloc, next, steps - 1, goal)
    {
      var left := LeftChild(current);
      var right := Sibling(left);
      PromisingChildren(order, st, alloc, current, steps, left, RightChild(current));
      var leftInternal := InternalPositionTree(left);
      var rightInternal := SiblingInternal(leftInternal, left);
      var goLeft := PreferLeft(leftInternal, rightInternal, steps, left.index, right.index);
      next := if goLeft then left else right;
      Picked(order, st, alloc, current, steps, goal, left, right, goLeft);
    }

    /** The way down from the root to a free node of the target depth. */
    method Descend(targetDepth: nat) returns (pos: Pos)
      requires Valid() && 1 <= targetDepth <= order && Promising(order, st, alloc, 1, targetDepth)
      ensures PosOk(pos) && pos.depth == targetDepth && Promising(order, st, alloc, pos.index, targetDepth)
      ensures pos.index == TightestFit(st, 1, targetDepth - 1)
    {
      RootSlot(order);
      pos := Root();
      var steps := targetDepth - 1;
      ghost var goal := TightestFit(st, 1, steps);
      while steps != 0
        invariant pos.depth + steps == targetDepth && steps >= 0 && OnTheWay(order, st, alloc, pos, steps, goal)
        decreases steps
      {
        pos := PickChild(pos, steps, goal);
        steps := steps - 1;
      }
    }

    /** Finds a free node at the target depth; fails only if the whole tree has none there. */
    method FindFree(targetDepth: nat) returns (pos: Pos)
      requires Valid() && 1 <= targetDepth <= order
      ensures pos == INVALID_POS || (PosOk(pos) && pos.depth == targetDepth && IsNode(order, pos.index)
                                     && Free(order, alloc, pos.index))
      ensures pos == INVALID_POS <==> !HasFree(order, alloc, 1, targetDepth)
      ensures pos != INVALID_POS ==> pos.index == TightestFit(st, 1, targetDepth - 1)
      ensures ValidPos(pos) <==> pos != INVALID_POS
    {
      RootSlot(order);
      var rootStatus := Status(Root());
      RootDecides(order, st, alloc, targetDepth);
      if rootStatus > targetDepth - 1 {
        return INVALID_POS;
      }
      pos := Descend(targetDepth);
      PromisingFree(order, st, alloc, pos.index, targetDepth);
      RootAboveAll(pos.index);
    }

    /** Tests whether a node can be allocated, by its own status and its nearest used ancestor. */
    method IsFree(start: Pos) returns (free: bool)
      requires Valid() && PosOk(start) && IsNode(order, start.index)
      ensures free <==> Free(order, alloc, start.index)
    {
      ghost var v := start.index;
      FreeIsStatusZero(order, alloc, v);
      var s := Status(start);
      if s != 0 {
        return false;
      }
      AscendingStart(order, alloc, start);
      var pos := Parent(start);
      while ValidPos(pos)
        invariant Ascending(order, alloc, pos, v)
        decreases pos.index
      {
        var value := Status(pos);
        if value != 0 {
          FirstNonZero(order, alloc, pos.index, v);
          return value != order - pos.depth + 1;
        }
        AscendingStep(order, alloc, pos, v);
        pos := Parent(pos);
      }
      AllZeroFree(order, alloc, v);
      return true;
    }

    // ---- walk ----------------------------------------------------------------------------

    /** One round of the climb: up from a right child, over from a left child, done at the root. */
    method ClimbRound(state: WalkState, ghost c: nat, ghost skip: bool)
      requires Shape() && IsNode(order, c)
      requires state.startingPos == Root() && !state.walkDone && state.goingUp
      requires PosOk(state.currentPos) && Climbing(order, c, skip, state.currentPos.index)
      modifies state
      ensures state.startingPos == Root() && PosOk(state.currentPos) && IsNode(order, state.currentPos.index)
      ensures state.goingUp ==> !state.walkDone && Climbing(order, c, skip, state.currentPos.index)
      ensures state.goingUp ==> state.currentPos.index < old(state.currentPos.index)
      ensures !state.goingUp ==> Follows(order, c, skip, !state.walkDone, state.currentPos.index)
    {
      if state.currentPos.index == state.startingPos.index {
        WalkEnds(order, c, skip);
        state.walkDone := true;
        state.goingUp := false;
      } else if state.currentPos.index % 2 == 1 {
        ClimbFromRight(order, state.currentPos, c, skip);
        state.currentPos := Parent(state.currentPos);
      } else {
        TurnRight(order, state.currentPos, c, skip);
        state.currentPos := RightAdjacent(state.currentPos);
        state.goingUp := false;
      }
    }

    /** Moves to the next position in pre-order; with `goingUp` set on entry, the subtree of the
        current position is skipped. Returns whether there is a next position. */
    method Walk(state: WalkState) returns (more: bool)
      requires Shape() && state.startingPos == Root() && !state.walkDone
      requires PosOk(state.currentPos) && IsNode(order, state.currentPos.index)
      modifies state
      ensures state.startingPos == Root() && !state.goingUp && more == !state.walkDone
      ensures PosOk(state.currentPos) && IsNode(order, state.currentPos.index)
      ensures Follows(order, old(state.currentPos.index), old(state.goingUp), more, state.currentPos.index)
    {
      ghost var c := state.currentPos.index;
      ghost var skip := state.goingUp;
      assert Above(c, c);
      var again := true;
      while again
        invariant state.startingPos == Root() && PosOk(state.currentPos) && IsNode(order, state.currentPos.index)
        invariant !again ==> !state.goingUp && Follows(order, c, skip, !state.walkDone, state.currentPos.index)
        invariant again ==> !state.walkDone
        invariant again && !state.goingUp ==> state.currentPos.index == c && !skip
        invariant again && state.goingUp ==> Climbing(order, c, skip, state.currentPos.index)
        decreases again, !state.goingUp, state.currentPos.index
      {
        if state.goingUp {
          ClimbRound(state, c, skip);
        } else {
          ChildDepth(order, c);
          if ValidPos(LeftChild(state.currentPos)) {
            state.currentPos := LeftChild(state.currentPos);
          } else {
            state.goingUp := true;
          }
        }
        again := state.goingUp;
      }
      more := !state.walkDone;
    }

    // ---- growth --------------------------------------------------------------------------

    /** Slot of the leftmost node of a row, with the offset computed rather than looked up. */
    static method LeftmostInternal(treeOrder: nat, pos: Pos) returns (p: InternalPosition)
      requires 1 <= pos.depth <= treeOrder && pos.index == Pow2(pos.depth - 1)
      ensures p.localOffset == treeOrder - pos.depth + 1
      ensures p.bitsetLocation == RowFrom(treeOrder, pos.depth)
    {
      var localOffset := treeOrder - pos.depth + 1;
      var totalOffset := ComputeSizeForOrder(treeOrder, localOffset);
      RowFirst(treeOrder, pos.depth);
      var index := RowIndex(pos);
      TimesZero(localOffset, index);
      p := InternalPosition(localOffset, totalOffset + localOffset * index);
    }

    /** Moves the row at the current depth to its place in the tree of the next order. */
    method GrowRow(currentPos: Pos, nextPos: Pos, ghost d: nat)
      requires 1 <= d <= order && currentPos == LeftmostChild(d) && nextPos == LeftmostChild(d + 1)
      requires RowsMoved(BitsOf(bits[..]), order, st, d)
      modifies bits
      ensures RowsMoved(BitsOf(bits[..]), order, st, d - 1)
      ensures d == 1 ==> SlotHolds(BitsOf(bits[..]), 0, order + 1, 0)
    {
      var current := LeftmostInternal(order, currentPos);
      var next := LeftmostInternal(order + 1, nextPos);
      var nodeCount := Pow2(currentPos.depth - 1);
      MultipleFits(current.localOffset, 0, nodeCount);
      MoveRow(current.bitsetLocation, next.bitsetLocation, current.localOffset * nodeCount, d);
    }

    method MoveRow(from: nat, next: nat, rowBits: nat, ghost d: nat)
      requires 1 <= d <= order && RowsMoved(BitsOf(bits[..]), order, st, d)
      requires from == RowFrom(order, d) && next == RowFrom(order + 1, d + 1) && rowBits == RowBits(order, d)
      modifies bits
      ensures RowsMoved(BitsOf(bits[..]), order, st, d - 1)
      ensures d == 1 ==> SlotHolds(BitsOf(bits[..]), 0, order + 1, 0)
    {
      ghost var before := BitsOf(bits[..]);
      RowDistance(order, d);
      ghost var shifted := ShiftAndClear(from, next, rowBits);
      RowsMovedStep(before, shifted, BitsOf(bits[..]), order, st, d, from, next, rowBits);
    }

    /** Shifts a row to its new place and clears the right half of the new row. */
    method ShiftAndClear(from: nat, next: nat, rowBits: nat) returns (ghost shifted: seq<bool>)
      requires from < next && rowBits >= 1 && next + 2 * rowBits <= 8 * bits.Length
      modifies bits
      ensures RowMove(old(BitsOf(bits[..])), shifted, BitsOf(bits[..]), from, next, rowBits)
    {
      ShiftRight(bits, from, from + rowBits, next - from);
      shifted := BitsOf(bits[..]);
      ClearRange(bits, next + rowBits, next + 2 * rowBits - 1);
    }

    /** Grows by one order: the rows move from the bottom up, then the root is repaired. */
    method GrowOnce()
      requires Valid() && order < MAX_ORDER && SizeForOrder(order + 1, 0) <= 8 * bits.Length
      modifies this, bits
      ensures Valid() && order == old(order) + 1 && alloc == EmbedSet(old(alloc))
    {
      var currentOrder := order;
      var currentPos := LeftmostChild(currentOrder);
      var nextPos := LeftmostChild(currentOrder + 1);
      EncodedRows(BitsOf(bits[..]), order, st);
      while currentOrder != 0
        invariant 0 <= currentOrder <= order
        invariant currentOrder > 0 ==> currentPos == LeftmostChild(currentOrder)
        invariant currentOrder > 0 ==> nextPos == LeftmostChild(currentOrder + 1)
        invariant RowsMoved(BitsOf(bits[..]), order, st, currentOrder)
        invariant currentOrder == 0 ==> SlotHolds(BitsOf(bits[..]), 0, order + 1, 0)
        modifies bits
        decreases currentOrder
      {
        GrowRow(currentPos, nextPos, currentOrder);
        LeftmostParent(currentOrder);
        currentOrder := currentOrder - 1;
        currentPos := Parent(currentPos);
        nextPos := Parent(nextPos);
      }
      FinishGrowth();
    }

    /** The rows are in place: adopt the new order and repair the root. */
    method FinishGrowth()
      requires Shape() && order < MAX_ORDER && Refines(order, st, alloc)
      requires RowsMoved(BitsOf(bits[..]), order, st, 0) && SlotHolds(BitsOf(bits[..]), 0, order + 1, 0)
      modifies this, bits
      ensures Valid() && order == old(order) + 1 && alloc == EmbedSet(old(alloc))
    {
      ghost var grown, view := Grown(order, st), BitsOf(bits[..]);
      GrowthComplete(view, order, st, alloc);
      alloc := EmbedSet(alloc);
      st := grown;
      order := order + 1;
      upperPosBound := Pow2(order);
      PopulateSizeForOrder();
      assert BitsOf(bits[..]) == view;
      RepairRoot();
    }

    /** Repairs the root from its right child, which is empty. */
    method RepairRoot()
      requires Shape() && SizeForOrder(order, 0) <= 8 * bits.Length && RootPending(BitsOf(bits[..]), order, st, alloc)
      modifies bits, `st
      ensures Valid()
    {
      var pos := RightChild(Root());
      ThirdNode();
      var internal := InternalPositionTree(pos);
      UpdateParentChain(pos, internal, 0, st, alloc);
    }

    /** Grows to the desired order, one order at a time. The old tree is the leftmost subtree. */
    method Grow(desiredOrder: nat)
      requires Valid() && order <= desiredOrder <= MAX_ORDER
      requires SizeForOrder(desiredOrder, 0) <= 8 * bits.Length
      modifies this, bits
      ensures Valid() && order == desiredOrder
      ensures alloc == EmbedSetBy(old(alloc), desiredOrder - old(order))
    {
      ghost var k := 0;
      while desiredOrder > order
        invariant Valid() && old(order) + k == order <= desiredOrder
        invariant alloc == EmbedSetBy(old(alloc), k)
        decreases desiredOrder - order
      {
        SizeMonotone(order + 1, desiredOrder);
        EmbedSetByStep(old(alloc), k);
        GrowOnce();
        k := k + 1;
      }
    }
  }

  class WalkState {
    var startingPos: Pos
    var currentPos: Pos
    var goingUp: bool
    var walkDone: bool

    constructor ()
      ensures startingPos == Root() && currentPos == Root() && !goingUp && !walkDone
    {
      startingPos, currentPos, goingUp, walkDone := Root(), Root(), false, false;
    }
  }
}
