/** Changing one allocated node changes statuses on its ancestor chain only, and the change stops
    at the first ancestor whose status comes out the same. */
module Repair {
  import opened Powers
  import opened TreeLayout
  import opened Statuses

  /** The stored statuses are those of the allocated set. */
  ghost predicate Refines(n: nat, st: seq<nat>, A: set<nat>)
  {
    && |st| == Pow2(n)
    && Allocation(n, A)
    && forall u: nat {:trigger st[u]} :: IsNode(n, u) ==> st[u] == Status(n, A, u)
  }

  ghost predicate DifferOnlyAt(A: set<nat>, B: set<nat>, v: nat)
  {
    forall x: nat :: x != v ==> (x in A <==> x in B)
  }

  ghost predicate NoneProperlyAbove(A: set<nat>, v: nat)
    requires v >= 1
  {
    forall w: nat :: w >= 1 && Above(w, v) && w != v ==> w !in A
  }

  lemma SameAside(n: nat, A: set<nat>, B: set<nat>, v: nat, u: nat)
    requires IsNode(n, u) && v >= 1 && DifferOnlyAt(A, B, v) && !Above(u, v)
    ensures Status(n, A, u) == Status(n, B, u)
  {
    StatusLocal(n, A, B, u);
  }

  /** If the status of `q` is the same for both sets, so is that of everything above `q`. */
  lemma {:induction false} SameAbove(n: nat, A: set<nat>, B: set<nat>, v: nat, q: nat, u: nat)
    requires IsNode(n, u) && IsNode(n, q) && IsNode(n, v) && Above(u, q) && Above(q, v)
    requires DifferOnlyAt(A, B, v) && NoneProperlyAbove(A, v) && NoneProperlyAbove(B, v)
    requires Status(n, A, q) == Status(n, B, q)
    ensures Status(n, A, u) == Status(n, B, u)
    decreases q - u
  {
    if u != q {
      AboveTransitive(u, q, v);
      AboveDepth(u, q);
      AboveDepth(q, v);
      AboveChild(u, q);
      ChildDepth(n, u);
      NodeDepth(n, q);
      var left := Above(2 * u, q);
      var c, c' := if left then 2 * u else 2 * u + 1, if left then 2 * u + 1 else 2 * u;
      AboveTransitive(c, q, v);
      SameAbove(n, A, B, v, q, c);
      if Above(2 * u, v) { SiblingsApart(u, v); }
      SameAside(n, A, B, v, c');
    }
  }

  /** Every node but the proper ancestors of `p` already has its status for `B`; those ancestors
      still have their former value. */
  ghost predicate RepairedUpTo(n: nat, st: seq<nat>, former: seq<nat>, B: set<nat>, p: nat)
    requires p >= 1
  {
    && |st| == Pow2(n) == |former|
    && forall u: nat {:trigger st[u]} :: IsNode(n, u) ==>
         st[u] == if u != p && Above(u, p) then former[u] else Status(n, B, u)
  }

  ghost predicate RightFrom(n: nat, former: seq<nat>, B: set<nat>, q: nat)
    requires q >= 1 && |former| == Pow2(n)
  {
    forall u: nat {:trigger former[u]} :: IsNode(n, u) && Above(u, q) ==> former[u] == Status(n, B, u)
  }

  /** Where a former value above `v` is right for `B`, it is right all the way up. */
  ghost predicate RightAbove(n: nat, former: seq<nat>, B: set<nat>, v: nat)
    requires IsNode(n, v) && |former| == Pow2(n)
  {
    forall q: nat {:trigger RightFrom(n, former, B, q)} ::
      IsNode(n, q) && Above(q, v) && q != v && former[q] == Status(n, B, q) ==> RightFrom(n, former, B, q)
  }

  lemma RepairStart(n: nat, st: seq<nat>, A: set<nat>, B: set<nat>, v: nat)
    requires Refines(n, st, A) && IsNode(n, v) && DifferOnlyAt(A, B, v)
    requires NoneProperlyAbove(A, v) && NoneProperlyAbove(B, v)
    ensures RepairedUpTo(n, st[v := Status(n, B, v)], st, B, v)
    ensures RightAbove(n, st, B, v)
  {
    forall u: nat | IsNode(n, u) && u != v && !Above(u, v) ensures st[u] == Status(n, B, u) {
      SameAside(n, A, B, v, u);
    }
    forall q: nat | IsNode(n, q) && Above(q, v) && st[q] == Status(n, B, q) ensures RightFrom(n, st, B, q) {
      forall u: nat | IsNode(n, u) && Above(u, q) ensures st[u] == Status(n, B, u) {
        SameAbove(n, A, B, v, q, u);
      }
    }
  }

  lemma RepairDone(n: nat, st: seq<nat>, former: seq<nat>, B: set<nat>)
    requires RepairedUpTo(n, st, former, B, 1) && Allocation(n, B)
    ensures Refines(n, st, B)
  {
  }

  lemma SiblingSides(p: nat)
    requires p > 1
    ensures p / 2 >= 1
    ensures p % 2 == 0 ==> p == 2 * (p / 2)
    ensures p % 2 == 1 ==> p == 2 * (p / 2) + 1
    ensures Above(p / 2, p) && p / 2 != p
  {
    ChildrenBelow(p / 2);
  }

  function SiblingOf(p: nat): nat
    requires p >= 1
  {
    if p % 2 == 0 then p + 1 else p - 1
  }

  lemma SiblingNodes(n: nat, p: nat)
    requires IsNode(n, p) && p > 1
    ensures IsNode(n, p / 2) && IsNode(n, 2 * (p / 2)) && IsNode(n, 2 * (p / 2) + 1) && IsNode(n, SiblingOf(p))
    ensures HighBit(SiblingOf(p)) == HighBit(p)
  {
    SiblingSides(p);
    ParentDepth(n, p);
    NodeDepth(n, p);
    ChildDepth(n, p / 2);
  }

  lemma PairSettled(n: nat, st: seq<nat>, former: seq<nat>, B: set<nat>, p: nat)
    requires IsNode(n, p) && p > 1 && RepairedUpTo(n, st, former, B, p)
    ensures IsNode(n, SiblingOf(p)) && st[p] == Status(n, B, p) && st[SiblingOf(p)] == Status(n, B, SiblingOf(p))
  {
    SiblingNodes(n, p);
    if Above(SiblingOf(p), p) { AboveDepth(SiblingOf(p), p); }
  }

  lemma StatusOfParent(n: nat, B: set<nat>, q: nat)
    requires IsNode(n, q) && IsNode(n, 2 * q) && IsNode(n, 2 * q + 1) && q !in B
    ensures Status(n, B, q) == Combine(Status(n, B, 2 * q), Status(n, B, 2 * q + 1))
  {
  }

  lemma StatusFromPair(n: nat, B: set<nat>, p: nat)
    requires IsNode(n, p) && p > 1 && p / 2 !in B
    ensures IsNode(n, p / 2) && IsNode(n, SiblingOf(p))
    ensures Status(n, B, p / 2) == Combine(Status(n, B, p), Status(n, B, SiblingOf(p)))
  {
    SiblingNodes(n, p);
    StatusOfParent(n, B, p / 2);
    SiblingPair(n, B, p);
  }

  lemma SiblingPair(n: nat, B: set<nat>, p: nat)
    requires p > 1 && IsNode(n, p) && IsNode(n, SiblingOf(p)) && IsNode(n, 2 * (p / 2)) && IsNode(n, 2 * (p / 2) + 1)
    ensures Combine(Status(n, B, 2 * (p / 2)), Status(n, B, 2 * (p / 2) + 1))
            == Combine(Status(n, B, p), Status(n, B, SiblingOf(p)))
  {
    SiblingSides(p);
    if p % 2 == 1 { CombineSwaps(Status(n, B, p), Status(n, B, SiblingOf(p))); }
  }

  lemma CombineSwaps(l: nat, r: nat)
    ensures Combine(l, r) == Combine(r, l)
  {
  }

  lemma ParentNotAllocated(n: nat, B: set<nat>, v: nat, p: nat)
    requires IsNode(n, v) && IsNode(n, p) && p > 1 && Above(p, v) && NoneProperlyAbove(B, v)
    ensures p / 2 !in B
  {
    SiblingSides(p);
    AboveTransitive(p / 2, p, v);
    AboveDepth(p, v);
  }

  /** The parent's new status is the combination of the two child statuses now stored. */
  lemma ParentTarget(n: nat, st: seq<nat>, former: seq<nat>, B: set<nat>, v: nat, p: nat)
    requires IsNode(n, v) && IsNode(n, p) && p > 1 && Above(p, v)
    requires RepairedUpTo(n, st, former, B, p) && NoneProperlyAbove(B, v)
    ensures IsNode(n, p / 2) && IsNode(n, SiblingOf(p))
    ensures Combine(st[p], st[SiblingOf(p)]) == Status(n, B, p / 2)
    ensures st[p / 2] == former[p / 2]
  {
    ParentNotAllocated(n, B, v, p);
    StatusFromPair(n, B, p);
    PairSettled(n, st, former, B, p);
    SiblingSides(p);
  }

  lemma ParentPos(n: nat, child: Pos, v: nat)
    requires PosOk(child) && child.index > 1 && IsNode(n, child.index) && v >= 1 && Above(child.index, v)
    ensures PosOk(Parent(child)) && IsNode(n, child.index / 2) && Above(child.index / 2, v)
  {
    SiblingSides(child.index);
    ParentDepth(n, child.index);
    AboveTransitive(child.index / 2, child.index, v);
  }

  /** Writing the parent's status repairs one more node. */
  lemma RepairStep(n: nat, st: seq<nat>, former: seq<nat>, B: set<nat>, p: nat)
    requires IsNode(n, p) && p > 1 && RepairedUpTo(n, st, former, B, p)
    ensures RepairedUpTo(n, st[p / 2 := Status(n, B, p / 2)], former, B, p / 2)
  {
    var q := p / 2;
    SiblingSides(p);
    forall u: nat | IsNode(n, u) && u != q
      ensures st[u] == if Above(u, q) then former[u] else Status(n, B, u)
    {
      if u != p && Above(u, p) { assert Above(u, q); }
      if Above(u, q) { AboveTransitive(u, q, p); AboveDepth(u, q); }
    }
  }

  /** The early exit is right: an unchanged parent leaves nothing to repair. */
  lemma RepairStops(n: nat, st: seq<nat>, former: seq<nat>, B: set<nat>, v: nat, p: nat)
    requires IsNode(n, v) && IsNode(n, p) && p > 1 && Above(p, v)
    requires RepairedUpTo(n, st, former, B, p) && Allocation(n, B) && RightAbove(n, former, B, v)
    requires former[p / 2] == Status(n, B, p / 2)
    ensures Refines(n, st, B)
  {
    var q := p / 2;
    SiblingSides(p);
    ParentDepth(n, p);
    AboveTransitive(q, p, v);
    AboveDepth(p, v);
    assert RightFrom(n, former, B, q);
    forall u: nat | IsNode(n, u) ensures st[u] == Status(n, B, u) {
      if u != p && Above(u, p) { assert Above(u, q); }
    }
  }

  // ---- release -----------------------------------------------------------------------------

  lemma ReleaseKeepsAllocation(n: nat, A: set<nat>, v: nat)
    requires Allocation(n, A) && v in A
    ensures Allocation(n, A - {v}) && Free(n, A - {v}, v) && Status(n, A - {v}, v) == 0
    ensures NoneProperlyAbove(A, v)
  {
    FreeIsStatusZero(n, A - {v}, v);
    forall w: nat | w >= 1 && Above(w, v) && w != v ensures w !in A { }
  }

  lemma NothingAllocated(n: nat, st: seq<nat>)
    requires |st| == Pow2(n) && forall v :: 0 <= v < |st| ==> st[v] == 0
    ensures Refines(n, st, {})
  {
    forall u: nat | IsNode(n, u) ensures st[u] == Status(n, {}, u) {
      StatusZero(n, {}, u);
    }
  }

  // ---- the local invariant -----------------------------------------------------------------

  /** What can be checked at one node: with a used child the status is one more than the smaller
      child status, with none it is 0 or the maximum. */
  ghost predicate LocallyRight(n: nat, st: seq<nat>, v: nat)
    requires |st| == Pow2(n) && IsNode(n, v)
  {
    if !IsNode(n, 2 * v + 1) then st[v] <= 1
    else if st[2 * v] != 0 || st[2 * v + 1] != 0
      then st[v] == (if st[2 * v] <= st[2 * v + 1] then st[2 * v] else st[2 * v + 1]) + 1
    else st[v] == 0 || st[v] == SlotLength(n, v)
  }

  ghost predicate LocallyRightAll(n: nat, st: seq<nat>)
    requires |st| == Pow2(n)
  {
    forall v: nat {:trigger st[v]} :: IsNode(n, v) ==> LocallyRight(n, st, v)
  }

  /** The status of the node is maximal, but not because of its children. */
  predicate FullItself(n: nat, st: seq<nat>, v: nat)
    requires |st| == Pow2(n) && IsNode(n, v)
  {
    st[v] == SlotLength(n, v) && (IsNode(n, 2 * v + 1) ==> st[2 * v] == 0 && st[2 * v + 1] == 0)
  }

  ghost function Owners(n: nat, st: seq<nat>): (A: set<nat>)
    requires |st| == Pow2(n)
    ensures forall v :: v in A <==> IsNode(n, v) && FullItself(n, st, v)
  {
    set v: nat | v < Pow2(n) && IsNode(n, v) && FullItself(n, st, v)
  }

  lemma ChildrenUnused(n: nat, st: seq<nat>, p: nat, c: nat)
    requires |st| == Pow2(n) && LocallyRightAll(n, st) && IsNode(n, p) && (st[p] == 0 || FullItself(n, st, p))
    requires IsNode(n, 2 * p + 1) && (c == 2 * p || c == 2 * p + 1)
    ensures st[c] == 0
  {
    assert LocallyRight(n, st, p);
  }

  /** Below an unused node, and below one that is full itself, every status is 0. */
  lemma {:induction false} UnusedBelow(n: nat, st: seq<nat>, u: nat, v: nat)
    requires |st| == Pow2(n) && LocallyRightAll(n, st) && IsNode(n, u) && IsNode(n, v) && Above(u, v) && u != v
    requires st[u] == 0 || FullItself(n, st, u)
    ensures st[v] == 0
    decreases v
  {
    var p := v / 2;
    AboveDepth(u, v);
    SiblingNodes(n, v);
    SiblingSides(v);
    if p != u { UnusedBelow(n, st, u, p); }
    ChildrenUnused(n, st, p, v);
  }

  lemma OwnersApart(n: nat, st: seq<nat>)
    requires |st| == Pow2(n) && LocallyRightAll(n, st)
    ensures Allocation(n, Owners(n, st))
  {
    forall a: nat, b: nat | a in Owners(n, st) && b in Owners(n, st) && Above(a, b) ensures a == b {
      if a != b { UnusedBelow(n, st, a, b); }
    }
  }

  lemma {:induction false} StatusOfOwners(n: nat, st: seq<nat>, v: nat)
    requires |st| == Pow2(n) && LocallyRightAll(n, st) && IsNode(n, v)
    ensures st[v] == Status(n, Owners(n, st), v)
    decreases Pow2(n) - v
  {
    ChildDepth(n, v);
    assert LocallyRight(n, st, v);
    if IsNode(n, 2 * v) {
      StatusOfOwners(n, st, 2 * v);
      StatusOfOwners(n, st, 2 * v + 1);
    }
  }

  /** In a tree that refines an allocation, each node passes its check and tells whether it is
      allocated. */
  lemma RefinedIsLocal(n: nat, st: seq<nat>, A: set<nat>, v: nat)
    requires Refines(n, st, A) && IsNode(n, v)
    ensures LocallyRight(n, st, v) && (v in A <==> FullItself(n, st, v))
  {
    ChildDepth(n, v);
    ChildrenBelow(v);
    if v in A && IsNode(n, 2 * v) {
      StatusUnderAllocated(n, A, v, 2 * v);
      StatusUnderAllocated(n, A, v, 2 * v + 1);
    }
  }

  /** The checks at the single nodes are all there is: the statuses are those of an allocation
      exactly when every node passes its own, and the allocation can be read off. */
  lemma LocalInvariant(n: nat, st: seq<nat>, A: set<nat>)
    requires |st| == Pow2(n)
    ensures Refines(n, st, A) <==> LocallyRightAll(n, st) && A == Owners(n, st)
  {
    if Refines(n, st, A) {
      forall v: nat | IsNode(n, v) ensures LocallyRight(n, st, v) && (v in A <==> FullItself(n, st, v)) {
        RefinedIsLocal(n, st, A, v);
      }
    }
    if LocallyRightAll(n, st) && A == Owners(n, st) {
      OwnersApart(n, st);
      forall v: nat | IsNode(n, v) ensures st[v] == Status(n, A, v) { StatusOfOwners(n, st, v); }
    }
  }
}
