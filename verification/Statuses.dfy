/** The meaning of the buddy tree: a set of allocated nodes, none above another, determines the
    status of every node, and the status of a node is its distance to the nearest free node. */
module Statuses {
  import opened Powers
  import opened TreeLayout

  // ---- ancestry ----------------------------------------------------------------------------

  /** `u` is `v` or an ancestor of `v`. */
  predicate Above(u: nat, v: nat)
    requires u >= 1 && v >= 1
  {
    u == v || (u < v && Above(u, v / 2))
  }

  lemma {:induction false} AboveTransitive(u: nat, v: nat, w: nat)
    requires u >= 1 && v >= 1 && w >= 1 && Above(u, v) && Above(v, w)
    ensures Above(u, w)
    decreases w
  {
    if v != w {
      AboveTransitive(u, v, w / 2);
    }
  }

  /** The ancestors of a node form a chain. */
  lemma {:induction false} AboveChain(u: nat, v: nat, w: nat)
    requires u >= 1 && v >= 1 && w >= 1 && Above(u, w) && Above(v, w)
    ensures Above(u, v) || Above(v, u)
    ensures u <= v ==> Above(u, v)
    decreases w
  {
    if u != w && v != w {
      AboveChain(u, v, w / 2);
    }
  }

  /** Below a node means below one of its children. */
  lemma {:induction false} AboveChild(u: nat, w: nat)
    requires u >= 1 && w >= 1 && Above(u, w) && u != w
    ensures Above(2 * u, w) || Above(2 * u + 1, w)
    decreases w
  {
    if u != w / 2 {
      AboveChild(u, w / 2);
    }
  }

  lemma ChildrenBelow(u: nat)
    requires u >= 1
    ensures Above(u, 2 * u) && Above(u, 2 * u + 1)
  {
    assert (2 * u) / 2 == u && (2 * u + 1) / 2 == u;
  }

  /** The subtrees of two siblings are disjoint. */
  lemma {:induction false} SiblingsApart(u: nat, w: nat)
    requires u >= 1 && w >= 1 && Above(2 * u, w)
    ensures !Above(2 * u + 1, w)
  {
    if Above(2 * u + 1, w) {
      AboveChain(2 * u, 2 * u + 1, w);
    }
  }

  lemma {:induction false} AboveDepth(u: nat, v: nat)
    requires u >= 1 && v >= 1 && Above(u, v)
    ensures u <= v && HighBit(u) <= HighBit(v)
    ensures u != v ==> HighBit(u) < HighBit(v)
    decreases v
  {
    if u != v {
      AboveDepth(u, v / 2);
    }
  }

  // ---- allocated nodes ---------------------------------------------------------------------

  /** Allocated nodes are nodes of the tree, and no two of them share memory. */
  ghost predicate Allocation(n: nat, A: set<nat>)
  {
    && (forall a :: a in A ==> IsNode(n, a))
    && (forall a, b :: a in A && b in A && Above(a, b) ==> a == b)
  }

  /** Nothing of the memory of `v` is allocated. */
  ghost predicate Free(n: nat, A: set<nat>, v: nat)
    requires IsNode(n, v) && Allocation(n, A)
  {
    forall a :: a in A ==> !Above(a, v) && !Above(v, a)
  }

  lemma FreeBelow(n: nat, A: set<nat>, u: nat, v: nat)
    requires Allocation(n, A) && IsNode(n, u) && IsNode(n, v) && Above(u, v) && Free(n, A, u)
    ensures Free(n, A, v)
  {
    forall a | a in A ensures !Above(a, v) && !Above(v, a) {
      if Above(a, v) { AboveChain(a, u, v); }
      if Above(v, a) { AboveTransitive(u, v, a); }
    }
  }

  lemma MarkKeepsAllocation(n: nat, A: set<nat>, v: nat)
    requires Allocation(n, A) && IsNode(n, v) && Free(n, A, v)
    ensures Allocation(n, A + {v}) && v !in A
  {
  }

  // ---- the status of a node ----------------------------------------------------------------

  function Combine(l: nat, r: nat): nat
  {
    if l == 0 && r == 0 then 0 else (if l <= r then l else r) + 1
  }

  /** Full length for an allocated node, 0 for a leaf that is not, otherwise one more than the
      smaller child status unless both are 0. */
  ghost function Status(n: nat, A: set<nat>, v: nat): (s: nat)
    requires IsNode(n, v)
    ensures s <= SlotLength(n, v)
    decreases Pow2(n) - v
  {
    if v in A then SlotLength(n, v)
    else if !IsNode(n, 2 * v) then 0
    else
      ChildDepth(n, v);
      Combine(Status(n, A, 2 * v), Status(n, A, 2 * v + 1))
  }

  /** A status depends only on the allocated nodes at or below the node. */
  lemma {:induction false} StatusLocal(n: nat, A: set<nat>, B: set<nat>, v: nat)
    requires IsNode(n, v)
    requires forall x: nat :: x >= 1 && Above(v, x) ==> (x in A <==> x in B)
    ensures Status(n, A, v) == Status(n, B, v)
    decreases Pow2(n) - v
  {
    assert Above(v, v);
    if v !in A && IsNode(n, 2 * v) {
      ChildDepth(n, v);
      ChildrenBelow(v);
      forall x: nat | x >= 1 && (Above(2 * v, x) || Above(2 * v + 1, x)) ensures x in A <==> x in B {
        AboveTransitive(v, if Above(2 * v, x) then 2 * v else 2 * v + 1, x);
      }
      StatusLocal(n, A, B, 2 * v);
      StatusLocal(n, A, B, 2 * v + 1);
    }
  }

  /** Status 0 means: nothing allocated at or below. */
  lemma {:induction false} StatusZero(n: nat, A: set<nat>, v: nat)
    requires IsNode(n, v) && Allocation(n, A)
    ensures Status(n, A, v) == 0 <==> forall a :: a in A ==> !Above(v, a)
    decreases Pow2(n) - v
  {
    if v in A {
      assert Above(v, v);
    } else if IsNode(n, 2 * v) {
      ChildDepth(n, v);
      ChildrenBelow(v);
      StatusZero(n, A, 2 * v);
      StatusZero(n, A, 2 * v + 1);
      forall a | a in A ensures Above(v, a) <==> Above(2 * v, a) || Above(2 * v + 1, a) {
        if Above(v, a) { AboveChild(v, a); }
        if Above(2 * v, a) { AboveTransitive(v, 2 * v, a); }
        if Above(2 * v + 1, a) { AboveTransitive(v, 2 * v + 1, a); }
      }
    } else {
      forall a | a in A ensures !Above(v, a) {
        if Above(v, a) { AboveChild(v, a); AboveDepth(if Above(2 * v, a) then 2 * v else 2 * v + 1, a); }
      }
    }
  }

  /** A node is free exactly when its status is 0 and nothing above it is allocated. */
  lemma FreeIsStatusZero(n: nat, A: set<nat>, v: nat)
    requires IsNode(n, v) && Allocation(n, A)
    ensures Free(n, A, v) <==> Status(n, A, v) == 0 && forall a :: a in A ==> !Above(a, v)
  {
    StatusZero(n, A, v);
  }

  /** Under an allocated node every status is 0. */
  lemma StatusUnderAllocated(n: nat, A: set<nat>, a: nat, v: nat)
    requires IsNode(n, v) && Allocation(n, A) && a in A && Above(a, v) && a != v
    ensures Status(n, A, v) == 0
  {
    StatusZero(n, A, v);
    forall b | b in A ensures !Above(v, b) {
      if Above(v, b) { AboveTransitive(a, v, b); AboveDepth(a, v); AboveDepth(v, b); }
    }
  }

  // ---- status as distance ------------------------------------------------------------------

  /** No free node lies nearer below `v` than its status says. */
  lemma {:induction false} NoFreeNearer(n: nat, A: set<nat>, v: nat, u: nat)
    requires Allocation(n, A) && IsNode(n, v) && IsNode(n, u) && Above(v, u) && Free(n, A, u)
    ensures HighBit(v) + Status(n, A, v) <= HighBit(u)
    decreases Pow2(n) - v
  {
    AboveDepth(v, u);
    if u == v {
      FreeIsStatusZero(n, A, v);
    } else {
      ChildDepth(n, v);
      ChildrenBelow(v);
      AboveChild(v, u);
      NodeDepth(n, u);
      var c := if Above(2 * v, u) then 2 * v else 2 * v + 1;
      AboveDepth(c, u);
      NoFreeNearer(n, A, c, u);
      if Status(n, A, c) == 0 { AboveDepth(c, u); }
    }
  }

  /** A status short of the maximum leads to a free node at exactly that distance. */
  lemma {:induction false} FreeAtDistance(n: nat, A: set<nat>, v: nat) returns (u: nat)
    requires Allocation(n, A) && IsNode(n, v) && Status(n, A, v) < SlotLength(n, v)
    requires forall a :: a in A ==> !Above(a, v)
    ensures IsNode(n, u) && Above(v, u) && Free(n, A, u)
    ensures HighBit(u) == HighBit(v) + Status(n, A, v)
    decreases Pow2(n) - v
  {
    if Status(n, A, v) == 0 {
      FreeIsStatusZero(n, A, v);
      u := v;
    } else {
      ChildDepth(n, v);
      ChildrenBelow(v);
      var c := if Status(n, A, 2 * v) <= Status(n, A, 2 * v + 1) then 2 * v else 2 * v + 1;
      NoneAboveChild(n, A, v, c);
      u := FreeAtDistance(n, A, c);
      AboveTransitive(v, c, u);
    }
  }

  /** If nothing above `v` is allocated and `v` is partly free, nothing above its children is. */
  lemma NoneAboveChild(n: nat, A: set<nat>, v: nat, c: nat)
    requires Allocation(n, A) && IsNode(n, v) && c / 2 == v && c >= 2
    requires forall a :: a in A ==> !Above(a, v)
    requires c !in A
    ensures forall a :: a in A ==> !Above(a, c)
  {
  }
}
