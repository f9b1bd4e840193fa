/** The greedy search for a free node: why it never has to backtrack. */
module Search {
  import opened Powers
  import opened TreeLayout
  import opened Statuses
  import opened Repair

  /** Some node of depth `depth` below `v` is free. */
  ghost predicate HasFree(n: nat, A: set<nat>, v: nat, depth: nat)
    requires v >= 1 && Allocation(n, A)
  {
    exists u: nat :: IsNode(n, u) && HighBit(u) == depth && Above(v, u) && Free(n, A, u)
  }

  ghost predicate NoneAbove(A: set<nat>, v: nat)
    requires v >= 1
  {
    forall w: nat :: w >= 1 && Above(w, v) ==> w !in A
  }

  /** A free node has free descendants at every depth of the tree. */
  lemma {:induction false} FreeDescendant(n: nat, A: set<nat>, v: nat, depth: nat) returns (u: nat)
    requires Allocation(n, A) && IsNode(n, v) && Free(n, A, v) && HighBit(v) <= depth <= n
    ensures IsNode(n, u) && HighBit(u) == depth && Above(v, u) && Free(n, A, u)
    decreases depth - HighBit(v)
  {
    if HighBit(v) == depth {
      u := v;
    } else {
      ChildDepth(n, v);
      ChildrenBelow(v);
      FreeBelow(n, A, v, 2 * v);
      u := FreeDescendant(n, A, 2 * v, depth);
      AboveTransitive(v, 2 * v, u);
    }
  }

  /** The status of a node decides whether a free node of a given depth lies below it. */
  lemma StatusDecides(n: nat, A: set<nat>, v: nat, depth: nat)
    requires Allocation(n, A) && IsNode(n, v) && NoneAbove(A, v) && HighBit(v) <= depth <= n
    ensures HasFree(n, A, v, depth) <==> Status(n, A, v) <= depth - HighBit(v)
  {
    if HasFree(n, A, v, depth) {
      var u: nat :| IsNode(n, u) && HighBit(u) == depth && Above(v, u) && Free(n, A, u);
      NoFreeNearer(n, A, v, u);
    }
    if Status(n, A, v) <= depth - HighBit(v) {
      var w := FreeAtDistance(n, A, v);
      var u := FreeDescendant(n, A, w, depth);
      AboveTransitive(v, w, u);
    }
  }

  /** What the descent keeps: the current node leads to a free node of the target depth. */
  ghost predicate Promising(n: nat, st: seq<nat>, A: set<nat>, v: nat, depth: nat)
    requires Refines(n, st, A)
  {
    IsNode(n, v) && NoneAbove(A, v) && HighBit(v) <= depth <= n && st[v] <= depth - HighBit(v)
  }

  /** The two children of a promising node, one of which is promising too. */
  lemma PromisingChildren(n: nat, st: seq<nat>, A: set<nat>, pos: Pos, steps: nat, left: Pos, right: Pos)
    requires PosOk(pos) && steps >= 1 && left == LeftChild(pos) && right == RightChild(pos)
    requires Refines(n, st, A) && Promising(n, st, A, pos.index, pos.depth + steps)
    ensures Sibling(left) == right && SiblingOf(left.index) == right.index
    ensures PosOk(left) && PosOk(right) && IsNode(n, left.index) && IsNode(n, right.index)
    ensures SlotLength(n, left.index) == SlotLength(n, right.index) >= steps
    ensures st[left.index] < steps || st[right.index] < steps
  {
    SiblingOfLeft(pos);
    ChildDepth(n, pos.index);
    assert Above(pos.index, pos.index);
    StatusOfParent(n, A, pos.index);
  }

  lemma NoneAboveDown(A: set<nat>, v: nat, c: nat)
    requires v >= 1 && c >= 2 && c / 2 == v && NoneAbove(A, v) && c !in A
    ensures NoneAbove(A, c)
  {
  }

  lemma PromisingChild(n: nat, st: seq<nat>, A: set<nat>, pos: Pos, steps: nat, c: Pos)
    requires PosOk(pos) && steps >= 1 && (c == LeftChild(pos) || c == RightChild(pos))
    requires Refines(n, st, A) && Promising(n, st, A, pos.index, pos.depth + steps)
    requires IsNode(n, c.index) && st[c.index] < steps
    ensures Promising(n, st, A, c.index, pos.depth + steps)
  {
    ChildDepth(n, pos.index);
    assert c.index !in A;
    NoneAboveDown(A, pos.index, c.index);
  }

  lemma PromisingFree(n: nat, st: seq<nat>, A: set<nat>, v: nat, depth: nat)
    requires Refines(n, st, A) && Promising(n, st, A, v, depth) && HighBit(v) == depth
    ensures Free(n, A, v)
  {
    FreeIsStatusZero(n, A, v);
  }

  /** The child the search goes on with: a busy one never, and of two candidates the one with less
      room left, the left one on a tie. */
  function TighterChild(st: seq<nat>, v: nat, steps: nat): nat
    requires 2 * v + 1 < |st|
  {
    if st[2 * v] >= steps then 2 * v + 1
    else if st[2 * v + 1] >= steps then 2 * v
    else if st[2 * v] >= st[2 * v + 1] then 2 * v else 2 * v + 1
  }

  lemma TighterIs(st: seq<nat>, v: nat, steps: nat, goLeft: bool, next: nat)
    requires 2 * v + 1 < |st| && next == (if goLeft then 2 * v else 2 * v + 1) && st[next] < steps
    requires st[2 * v] < steps && st[2 * v + 1] < steps ==> (goLeft <==> st[2 * v] >= st[2 * v + 1])
    ensures next == TighterChild(st, v, steps)
  {
  }

  lemma TightestStep(st: seq<nat>, v: nat, steps: nat, next: nat)
    requires steps >= 1 && 2 * v + 1 < |st| && next == TighterChild(st, v, steps)
    ensures TightestFit(st, v, steps) == TightestFit(st, next, steps - 1)
  {
  }

  /** The node `steps` rows below `v` that the search ends at. */
  function TightestFit(st: seq<nat>, v: nat, steps: nat): nat
    decreases steps
  {
    if steps == 0 || 2 * v + 1 >= |st| then v else TightestFit(st, TighterChild(st, v, steps), steps - 1)
  }

  /** The search is at `p`, `steps` rows above the target, and is going to end at `goal`. */
  ghost predicate OnTheWay(n: nat, st: seq<nat>, A: set<nat>, p: Pos, steps: nat, goal: nat)
    requires Refines(n, st, A)
  {
    PosOk(p) && Promising(n, st, A, p.index, p.depth + steps) && goal == TightestFit(st, p.index, steps)
  }

  /** The child picked is the right one to go on with. */
  lemma Picked(n: nat, st: seq<nat>, A: set<nat>, p: Pos, steps: nat, goal: nat, left: Pos, right: Pos, goLeft: bool)
    requires steps >= 1 && Refines(n, st, A) && OnTheWay(n, st, A, p, steps, goal)
    requires left == LeftChild(p) && right == RightChild(p)
    requires PosOk(left) && PosOk(right) && IsNode(n, left.index) && IsNode(n, right.index)
    requires if goLeft then st[left.index] < steps else st[right.index] < steps
    requires st[left.index] < steps && st[right.index] < steps ==> (goLeft <==> st[left.index] >= st[right.index])
    ensures OnTheWay(n, st, A, if goLeft then left else right, steps - 1, goal)
  {
    var next := if goLeft then left else right;
    TighterIs(st, p.index, steps, goLeft, next.index);
    TightestStep(st, p.index, steps, next.index);
    PromisingChild(n, st, A, p, steps, next);
  }

  /** The status of the root decides whether the search can succeed. */
  lemma RootDecides(n: nat, st: seq<nat>, A: set<nat>, depth: nat)
    requires n >= 1 && Refines(n, st, A) && 1 <= depth <= n && IsNode(n, 1)
    ensures st[1] > depth - 1 ==> !HasFree(n, A, 1, depth)
    ensures st[1] <= depth - 1 ==> Promising(n, st, A, 1, depth)
  {
    RootSlot(n);
    if NoneAbove(A, 1) {
      StatusDecides(n, A, 1, depth);
    } else {
      assert 1 in A;
      forall u: nat | IsNode(n, u) && Above(1, u) ensures !Free(n, A, u) { }
    }
  }

  // ---- the single-node test ----------------------------------------------------------------

  /** All nodes from `v` up to, but not including, `p` have status 0. */
  ghost predicate ZeroBelow(n: nat, A: set<nat>, p: nat, v: nat)
    requires IsNode(n, v)
  {
    forall w: nat {:trigger Above(w, v)} :: w >= 1 && Above(w, v) && w > p ==> IsNode(n, w) && Status(n, A, w) == 0
  }

  /** The first ancestor with a nonzero status decides: it is either the allocated owner of the
      memory, and full, or partly free, and then at a status of 1. */
  lemma FirstNonZero(n: nat, A: set<nat>, p: nat, v: nat)
    requires Allocation(n, A) && IsNode(n, v) && IsNode(n, p) && Above(p, v) && p != v
    requires ZeroBelow(n, A, p, v) && Status(n, A, p) != 0
    ensures Free(n, A, v) <==> Status(n, A, p) != SlotLength(n, p)
    ensures Free(n, A, v) <==> p !in A
  {
    assert Above(v, v);
    AboveDepth(p, v);
    FreeIsStatusZero(n, A, v);
    if p !in A {
      ChildDepth(n, p);
      NodeDepth(n, v);
      AboveChild(p, v);
      var c := if Above(2 * p, v) then 2 * p else 2 * p + 1;
      assert Status(n, A, c) == 0;
      assert Status(n, A, p) == 1;
      forall a | a in A ensures !Above(a, v) {
        if Above(a, v) {
          NodeDepth(n, a);
          if a <= p {
            AboveChain(a, p, v);
            StatusUnderAllocated(n, A, a, p);
          }
        }
      }
    }
  }

  lemma {:induction false} RootAboveAll(v: nat)
    requires v >= 1
    ensures Above(1, v)
  {
    if v > 1 { RootAboveAll(v / 2); }
  }

  /** The climb of the single-node test: `pos` is a proper ancestor of `v`, or past the root, and
      every status below it on the way was 0. */
  ghost predicate Ascending(n: nat, A: set<nat>, pos: Pos, v: nat)
    requires IsNode(n, v)
  {
    && (pos == INVALID_POS || (PosOk(pos) && IsNode(n, pos.index) && Above(pos.index, v) && pos.index != v))
    && ZeroBelow(n, A, pos.index, v)
  }

  lemma AscendingStart(n: nat, A: set<nat>, start: Pos)
    requires PosOk(start) && IsNode(n, start.index) && Status(n, A, start.index) == 0
    ensures Ascending(n, A, Parent(start), start.index)
  {
    assert Above(start.index, start.index);
    ZeroStep(n, A, start, start.index);
  }

  lemma AscendingStep(n: nat, A: set<nat>, pos: Pos, v: nat)
    requires IsNode(n, v) && Ascending(n, A, pos, v) && pos != INVALID_POS && Status(n, A, pos.index) == 0
    ensures Ascending(n, A, Parent(pos), v)
  {
    ZeroStep(n, A, pos, v);
  }

  lemma ZeroStep(n: nat, A: set<nat>, pos: Pos, v: nat)
    requires IsNode(n, v) && PosOk(pos) && IsNode(n, pos.index) && Above(pos.index, v)
    requires ZeroBelow(n, A, pos.index, v) && Status(n, A, pos.index) == 0
    ensures Ascending(n, A, Parent(pos), v)
  {
    var p := pos.index;
    AboveDepth(p, v);
    forall w: nat | w >= 1 && Above(w, v) && w > p / 2 ensures IsNode(n, w) && Status(n, A, w) == 0 {
      if w <= p {
        AboveChain(w, p, v);
        if w != p { AboveHalf(w, p); }
      }
    }
    if p > 1 {
      assert Above(p / 2, p / 2);
      AboveTransitive(p / 2, p, v);
    }
  }

  lemma AboveHalf(u: nat, v: nat)
    requires u >= 1 && v >= 1 && Above(u, v) && u != v
    ensures u <= v / 2
  {
    AboveDepth(u, v / 2);
  }

  lemma AllZeroFree(n: nat, A: set<nat>, v: nat)
    requires Allocation(n, A) && IsNode(n, v) && ZeroBelow(n, A, 0, v)
    ensures Free(n, A, v)
  {
    assert Above(v, v);
    FreeIsStatusZero(n, A, v);
    forall a | a in A ensures !Above(a, v) {
      if Above(a, v) { NodeDepth(n, a); }
    }
  }
}
