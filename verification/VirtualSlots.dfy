/** The slots masked off when the arena is not a power of two: a chain of right subtrees that
    covers exactly the leaves behind the end of the arena. */
module VirtualSlots {
  import opened Powers
  import opened TreeLayout
  import opened Statuses
  import opened Coverage

  /** The nodes that cover the last `delta` leaves below `v`. */
  ghost function VirtualFrom(n: nat, v: nat, delta: nat): (s: set<nat>)
    requires IsNode(n, v) && delta <= Width(n, v)
    decreases Pow2(n) - v
  {
    if delta == 0 then {}
    else if delta == Width(n, v) then {v}
    else
      InnerNode(n, v, delta);
      if 2 * delta <= Width(n, v) then VirtualFrom(n, 2 * v + 1, delta)
      else {2 * v + 1} + VirtualFrom(n, 2 * v, delta - Width(n, 2 * v + 1))
  }

  lemma InnerNode(n: nat, v: nat, delta: nat)
    requires IsNode(n, v) && 0 < delta < Width(n, v)
    ensures IsNode(n, 2 * v) && IsNode(n, 2 * v + 1)
    ensures Width(n, v) == 2 * Width(n, 2 * v) == 2 * Width(n, 2 * v + 1)
    ensures Lo(n, 2 * v) == Lo(n, v) && Hi(n, 2 * v) == Lo(n, 2 * v + 1) && Hi(n, 2 * v + 1) == Hi(n, v)
  {
    NodeDepth(n, v);
    ChildDepth(n, v);
    assert Pow2(0) == 1;
    ChildIntervals(n, v);
  }

  /** The masked nodes lie below `v`, are an allocation, and cover the last `delta` leaves. */
  lemma {:induction false} VirtualFromCovers(n: nat, v: nat, delta: nat)
    requires n >= 1 && IsNode(n, v) && delta <= Width(n, v)
    ensures Allocation(n, VirtualFrom(n, v, delta))
    ensures forall x :: x in VirtualFrom(n, v, delta) ==> Above(v, x) && Hi(n, v) - delta <= Lo(n, x)
    ensures forall i: nat :: Covered(n, VirtualFrom(n, v, delta), i) <==> Hi(n, v) - delta <= i < Hi(n, v)
    decreases Pow2(n) - v
  {
    assert Above(v, v);
    if delta == 0 {
    } else if delta == Width(n, v) {
      assert VirtualFrom(n, v, delta) == {v};
    } else {
      InnerNode(n, v, delta);
      ChildrenBelow(v);
      var l, r := 2 * v, 2 * v + 1;
      if 2 * delta <= Width(n, v) {
        VirtualFromCovers(n, r, delta);
        BelowChild(n, v, r, VirtualFrom(n, r, delta));
      } else {
        var rest := delta - Width(n, r);
        var A := VirtualFrom(n, l, rest);
        VirtualFromCovers(n, l, rest);
        BelowChild(n, v, l, A);
        AddSibling(n, v, A, VirtualFrom(n, v, delta), Hi(n, v) - delta);
      }
    }
  }

  /** Masking at most half of a node masks that much of its right child. */
  lemma VirtualRight(n: nat, v: nat, delta: nat)
    requires IsNode(n, v) && 0 < delta && 2 * delta <= Width(n, v)
    ensures IsNode(n, 2 * v + 1) && delta <= Width(n, 2 * v + 1)
    ensures VirtualFrom(n, v, delta) == VirtualFrom(n, 2 * v + 1, delta)
  {
    InnerNode(n, v, delta);
  }

  /** Masking more masks the right child whole and the rest of the left one. */
  lemma VirtualBoth(n: nat, v: nat, delta: nat)
    requires IsNode(n, v) && Width(n, v) < 2 * delta && delta < Width(n, v)
    ensures IsNode(n, 2 * v) && IsNode(n, 2 * v + 1) && 2 * Width(n, 2 * v + 1) == Width(n, v)
    ensures 0 < delta - Width(n, 2 * v + 1) < Width(n, 2 * v)
    ensures VirtualFrom(n, v, delta) == {2 * v + 1} + VirtualFrom(n, 2 * v, delta - Width(n, 2 * v + 1))
  {
    InnerNode(n, v, delta);
  }

  lemma BelowChild(n: nat, v: nat, c: nat, A: set<nat>)
    requires v >= 1 && c >= 1 && Above(v, c) && forall x :: x in A ==> x >= 1 && Above(c, x)
    ensures forall x :: x in A ==> Above(v, x)
  {
    forall x | x in A ensures Above(v, x) { AboveTransitive(v, c, x); }
  }

  /** A right child next to an allocation of the left subtree. */
  lemma AddSibling(n: nat, v: nat, A: set<nat>, B: set<nat>, from: nat)
    requires n >= 1 && IsNode(n, v) && IsNode(n, 2 * v) && Allocation(n, A) && from <= Hi(n, 2 * v)
    requires forall x :: x in A ==> Above(2 * v, x)
    requires forall i: nat :: Covered(n, A, i) <==> from <= i < Hi(n, 2 * v)
    requires B == {2 * v + 1} + A
    ensures IsNode(n, 2 * v + 1) && Allocation(n, B)
    ensures forall i: nat :: Covered(n, B, i) <==> from <= i < Hi(n, v)
  {
    ChildIntervals(n, v);
    var r := 2 * v + 1;
    assert forall x :: x in B <==> x == r || x in A;
    forall x | x in A ensures !Above(r, x) && !Above(x, r) {
      SiblingsApart(v, x);
      if Above(x, r) { AboveTransitive(2 * v, x, r); SiblingsApart(v, r); }
    }
    forall i: nat ensures Covered(n, B, i) <==> from <= i < Hi(n, v) {
      if Covered(n, A, i) {
        var a :| a in A && Lo(n, a) <= i < Hi(n, a);
        assert a in B;
      }
      if Lo(n, r) <= i < Hi(n, r) { assert r in B; }
      if Covered(n, B, i) && !(Lo(n, r) <= i < Hi(n, r)) {
        var b :| b in B && Lo(n, b) <= i < Hi(n, b);
        assert b in A;
      }
    }
  }

  // ---- the whole arena ---------------------------------------------------------------------

  /** The masked nodes of a tree of order `n` whose arena has `blocks` leaves. */
  ghost function Virtual(n: nat, blocks: nat): set<nat>
    requires n >= 1 && blocks <= Pow2(n - 1)
  {
    RootInterval(n);
    VirtualFrom(n, 1, Pow2(n - 1) - blocks)
  }

  /** Masked are exactly the leaves from `blocks` on. */
  lemma VirtualCovers(n: nat, blocks: nat)
    requires n >= 1 && blocks <= Pow2(n - 1)
    ensures Allocation(n, Virtual(n, blocks))
    ensures forall i: nat :: Covered(n, Virtual(n, blocks), i) <==> blocks <= i < Pow2(n - 1)
    ensures forall x :: x in Virtual(n, blocks) ==> blocks <= Lo(n, x)
  {
    RootInterval(n);
    VirtualFromCovers(n, 1, Pow2(n - 1) - blocks);
  }

  /** More than half of the leaves are real, so the root's right child is where masking starts. */
  lemma VirtualStartsRight(n: nat, blocks: nat)
    requires n >= 1 && blocks < Pow2(n - 1) <= 2 * blocks
    ensures IsNode(n, 3) && Pow2(n - 1) - blocks <= Width(n, 3)
    ensures Virtual(n, blocks) == VirtualFrom(n, 3, Pow2(n - 1) - blocks)
  {
    RootInterval(n);
    VirtualRight(n, 1, Pow2(n - 1) - blocks);
  }
}
