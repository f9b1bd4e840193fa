/** Pre-order over the nodes of a tree, seen as a sweep over the leaves from left to right. */
module PreOrder {
  import opened Powers
  import opened TreeLayout
  import opened Statuses
  import opened Repair
  import opened Search
  import opened Coverage

  /** `next` comes after `c` in pre-order: its left child if there is one and the subtree is not
      skipped, otherwise the right sibling of the nearest left child at or above `c`, whose
      leaves begin where those of `c` end. Without a `next`, `c` ends at the last leaf. */
  ghost predicate Follows(n: nat, c: nat, skip: bool, more: bool, next: nat)
    requires n >= 1 && IsNode(n, c) && IsNode(n, next)
  {
    if !skip && IsNode(n, 2 * c) then
      more && next == 2 * c
    else if more then
      next % 2 == 1 && next > 1 && Above(next / 2, c) && next / 2 != c && Lo(n, next) == Hi(n, c)
    else
      Hi(n, c) == Pow2(n - 1)
  }

  /** The subtree of `c` is finished and the climb has reached `p`, which ends where `c` ends. */
  ghost predicate Climbing(n: nat, c: nat, skip: bool, p: nat)
    requires n >= 1 && IsNode(n, c)
  {
    (skip || !IsNode(n, 2 * c)) && IsNode(n, p) && Above(p, c) && Hi(n, p) == Hi(n, c)
  }

  /** A right child ends where its parent ends. */
  lemma ClimbFromRight(n: nat, pos: Pos, c: nat, skip: bool)
    requires n >= 1 && IsNode(n, c) && PosOk(pos) && Climbing(n, c, skip, pos.index)
    requires pos.index % 2 == 1 && pos.index > 1
    ensures PosOk(Parent(pos)) && Climbing(n, c, skip, Parent(pos).index) && Parent(pos).index < pos.index
  {
    var p := pos.index;
    SiblingNodes(n, p);
    SiblingSides(p);
    AboveTransitive(p / 2, p, c);
    ChildIntervals(n, p / 2);
  }

  /** The right sibling of a left child begins where the left child ends. */
  lemma TurnRight(n: nat, pos: Pos, c: nat, skip: bool)
    requires n >= 1 && IsNode(n, c) && PosOk(pos) && Climbing(n, c, skip, pos.index) && pos.index % 2 == 0
    ensures PosOk(RightAdjacent(pos)) && IsNode(n, RightAdjacent(pos).index)
    ensures Follows(n, c, skip, true, RightAdjacent(pos).index)
  {
    var p := pos.index;
    LeftChildHasNeighbour(pos);
    SiblingNodes(n, p);
    SiblingSides(p);
    AboveTransitive(p / 2, p, c);
    AboveDepth(p, c);
    ChildIntervals(n, p / 2);
  }

  /** Back at the root, the sweep has reached the last leaf. */
  lemma WalkEnds(n: nat, c: nat, skip: bool)
    requires n >= 1 && IsNode(n, c) && Climbing(n, c, skip, 1)
    ensures Follows(n, c, skip, false, 1)
  {
    RootInterval(n);
  }

  // ---- the sweep over free memory ----------------------------------------------------------

  /** The sweep has come to `c`, or past the end, having counted `leaves` free leaves before it. */
  ghost predicate Sweeping(n: nat, A: set<nat>, c: nat, more: bool, leaves: nat)
    requires n >= 1 && Allocation(n, A) && IsNode(n, c)
  {
    && (more ==> NoneProperlyAbove(A, c))
    && leaves == FreeLeaves(n, A, if more then Lo(n, c) else Pow2(n - 1))
  }

  ghost predicate Advances(n: nat, c: nat, next: nat)
    requires IsNode(n, c) && IsNode(n, next) && n >= 1
  {
    && Lo(n, next) < Pow2(n - 1) && HighBit(next) <= n
    && (Lo(n, c) < Lo(n, next) || (Lo(n, c) == Lo(n, next) && HighBit(c) < HighBit(next)))
  }

  function FreeWidth(n: nat, status: nat, c: nat): nat
    requires IsNode(n, c)
  {
    if status == 0 then Width(n, c) else 0
  }

  /** A node lies within its rows and the leaves. */
  lemma InBounds(n: nat, p: Pos)
    requires n >= 1 && PosOk(p) && IsNode(n, p.index)
    ensures Lo(n, p.index) < Pow2(n - 1) && HighBit(p.index) <= n
  {
    NodeDepth(n, p.index);
    RootInterval(n);
    RootAboveAll(p.index);
    Nested(n, 1, p.index);
  }

  lemma SweepStart(n: nat, A: set<nat>)
    requires n >= 1 && Allocation(n, A)
    ensures IsNode(n, 1) && Sweeping(n, A, 1, true, 0)
  {
    RootInterval(n);
  }

  /** One step of the sweep: with the width of a free node added, and the subtrees of free and of
      full nodes skipped, the count stays that of the free leaves left of the current node. */
  lemma SweepStep(n: nat, A: set<nat>, c: nat, skip: bool, more: bool, next: nat, leaves: nat, status: nat)
    requires n >= 1 && Allocation(n, A) && IsNode(n, c) && IsNode(n, next) && Sweeping(n, A, c, true, leaves)
    requires Follows(n, c, skip, more, next) && status == Status(n, A, c)
    requires skip <==> status == SlotLength(n, c) || status == 0
    ensures Sweeping(n, A, next, more, leaves + FreeWidth(n, status, c))
    ensures more ==> Advances(n, c, next)
  {
    NodeDepth(n, next);
    RootInterval(n);
    RootAboveAll(next);
    Nested(n, 1, next);
    if skip {
      if Status(n, A, c) == 0 {
        FreeIsStatusZero(n, A, c);
        forall a | a in A ensures !Above(a, c) { assert Above(c, c); StatusZero(n, A, c); }
        FreeNodeLeaves(n, A, c);
      } else {
        FullNodeLeaves(n, A, c);
      }
      if more { NoneAboveRight(A, c, next); }
    } else {
      ChildDepth(n, c);
      ChildIntervals(n, c);
      forall w: nat | w >= 1 && Above(w, 2 * c) && w != 2 * c ensures w !in A {
        assert (2 * c) / 2 == c && Above(w, c);
      }
    }
  }

  lemma NoneAboveRight(A: set<nat>, c: nat, next: nat)
    requires c >= 1 && next > 1 && Above(next / 2, c) && next / 2 != c && NoneProperlyAbove(A, c)
    ensures NoneProperlyAbove(A, next)
  {
    forall w: nat | w >= 1 && Above(w, next) && w != next ensures w !in A {
      AboveTransitive(w, next / 2, c);
      AboveDepth(next / 2, c);
      AboveDepth(w, next / 2);
    }
  }
}
