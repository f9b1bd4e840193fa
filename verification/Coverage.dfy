/** The memory of a node: an interval of leaves (blocks of the smallest size). Nodes that are not
    above each other own disjoint memory, and free plus allocated leaves make up the arena. */
module Coverage {
  import opened Powers
  import opened TreeLayout
  import opened Statuses
  import opened Search

  /** Number of leaves below `v`. */
  function Width(n: nat, v: nat): (r: nat)
    requires IsNode(n, v)
    ensures r >= 1
  {
    NodeDepth(n, v);
    Pow2(n - HighBit(v))
  }

  /** First leaf below `v`. */
  function Lo(n: nat, v: nat): nat
    requires IsNode(n, v)
  {
    if v == 1 then 0
    else if v % 2 == 0 then Lo(n, v / 2)
    else Lo(n, v / 2) + Width(n, v)
  }

  function Hi(n: nat, v: nat): (r: nat)
    requires IsNode(n, v)
    ensures r > Lo(n, v)
  {
    Lo(n, v) + Width(n, v)
  }

  lemma RootInterval(n: nat)
    requires n >= 1
    ensures IsNode(n, 1) && Lo(n, 1) == 0 && Hi(n, 1) == Pow2(n - 1)
  {
    RootSlot(n);
  }

  /** Children split the interval of their parent in half. */
  lemma ChildIntervals(n: nat, v: nat)
    requires IsNode(n, v) && IsNode(n, 2 * v)
    ensures IsNode(n, 2 * v + 1)
    ensures Width(n, v) == 2 * Width(n, 2 * v) == 2 * Width(n, 2 * v + 1)
    ensures Lo(n, 2 * v) == Lo(n, v) && Hi(n, 2 * v) == Lo(n, 2 * v + 1) && Hi(n, 2 * v + 1) == Hi(n, v)
  {
    ChildDepth(n, v);
    assert (2 * v) / 2 == v && (2 * v + 1) / 2 == v;
  }

  /** The interval of a node lies within that of every node above it. */
  lemma {:induction false} Nested(n: nat, u: nat, v: nat)
    requires IsNode(n, u) && IsNode(n, v) && Above(u, v)
    ensures Lo(n, u) <= Lo(n, v) && Hi(n, v) <= Hi(n, u)
    decreases v
  {
    if u != v {
      ParentDepth(n, v);
      Nested(n, u, v / 2);
      NodeDepth(n, v);
      ChildDepth(n, v / 2);
      ChildIntervals(n, v / 2);
    }
  }

  /** First leaf, as the code computes it: index in the row times the width. */
  lemma {:induction false} LoIsRowTimesWidth(n: nat, v: nat)
    requires IsNode(n, v)
    ensures Pow2(HighBit(v) - 1) <= v && Lo(n, v) == (v - Pow2(HighBit(v) - 1)) * Width(n, v)
  {
    NodeDepth(n, v);
    if v == 1 {
    } else {
      var q := v / 2;
      ParentDepth(n, v);
      NodeDepth(n, q);
      LoIsRowTimesWidth(n, q);
      ChildDepth(n, q);
      ChildIntervals(n, q);
      var i, j, w := v - Pow2(HighBit(v) - 1), q - Pow2(HighBit(q) - 1), Width(n, v);
      assert Pow2(HighBit(v) - 1) == 2 * Pow2(HighBit(q) - 1);
      assert Lo(n, q) == j * (2 * w);
      if v % 2 == 0 {
        assert Lo(n, v) == Lo(n, q);
        RowArithmetic(i, j, w, 0);
      } else {
        assert Lo(n, v) == Lo(n, q) + w;
        RowArithmetic(i, j, w, 1);
      }
    }
  }

  lemma RowArithmetic(i: int, j: int, w: int, b: int)
    requires i == 2 * j + b
    ensures i * w == j * (2 * w) + b * w
  {
    Distribute(w, 2 * j, b);
    assert w * (2 * j) == j * (2 * w);
  }

  function Leaf(n: nat, i: nat): nat
    requires n >= 1
  {
    Pow2(n - 1) + i
  }

  lemma LeafInterval(n: nat, i: nat)
    requires n >= 1 && i < Pow2(n - 1)
    ensures IsNode(n, Leaf(n, i)) && HighBit(Leaf(n, i)) == n
    ensures Lo(n, Leaf(n, i)) == i && Hi(n, Leaf(n, i)) == i + 1
  {
    assert Pow2(n) == 2 * Pow2(n - 1);
    HighBitUnique(Leaf(n, i), n);
    LoIsRowTimesWidth(n, Leaf(n, i));
    assert Pow2(0) == 1;
  }

  /** If a node is not above a leaf that its parent is above, the leaf is its sibling's. */
  lemma SiblingLeaf(n: nat, v: nat, w: nat)
    requires IsNode(n, v) && IsNode(n, w) && v > 1 && Above(v / 2, w) && v / 2 != w && !Above(v, w)
    ensures Lo(n, w) < Lo(n, v) || Hi(n, v) <= Lo(n, w)
  {
    var q := v / 2;
    ParentDepth(n, v);
    NodeDepth(n, v);
    ChildDepth(n, q);
    ChildIntervals(n, q);
    AboveChild(q, w);
    Nested(n, if v % 2 == 0 then v + 1 else v - 1, w);
  }

  /** A node is above exactly the leaves of its interval. */
  lemma {:induction false} AboveLeaf(n: nat, v: nat, i: nat)
    requires n >= 1 && IsNode(n, v) && i < Pow2(n - 1)
    ensures Above(v, Leaf(n, i)) <==> Lo(n, v) <= i < Hi(n, v)
    decreases v
  {
    var w := Leaf(n, i);
    LeafInterval(n, i);
    if Above(v, w) {
      Nested(n, v, w);
    } else if v == 1 {
      RootAboveAll(w);
    } else {
      ParentDepth(n, v);
      NodeDepth(n, v);
      AboveLeaf(n, v / 2, i);
      if Above(v / 2, w) {
        SiblingLeaf(n, v, w);
      } else {
        SiblingSidesOf(v);
        Nested(n, v / 2, v);
      }
    }
  }

  lemma SiblingSidesOf(v: nat)
    requires v > 1
    ensures Above(v / 2, v)
  {
    assert Above(v / 2, v / 2);
  }

  /** Nodes neither of which is above the other own disjoint intervals. */
  lemma DisjointIntervals(n: nat, u: nat, v: nat)
    requires n >= 1 && IsNode(n, u) && IsNode(n, v) && !Above(u, v) && !Above(v, u)
    ensures Hi(n, u) <= Lo(n, v) || Hi(n, v) <= Lo(n, u)
  {
    if Lo(n, v) < Hi(n, u) && Lo(n, u) < Hi(n, v) {
      var i := if Lo(n, u) <= Lo(n, v) then Lo(n, v) else Lo(n, u);
      RootInterval(n);
      RootAboveAll(u);
      Nested(n, 1, u);
      AboveLeaf(n, u, i);
      AboveLeaf(n, v, i);
      LeafInterval(n, i);
      AboveChain(u, v, Leaf(n, i));
    }
  }

  // ---- counting free leaves ----------------------------------------------------------------

  ghost predicate Covered(n: nat, A: set<nat>, i: nat)
    requires n >= 1 && Allocation(n, A)
  {
    exists a :: a in A && Lo(n, a) <= i < Hi(n, a)
  }

  /** Number of leaves below `hi` that no allocated node covers. */
  ghost function FreeLeaves(n: nat, A: set<nat>, hi: nat): nat
    requires n >= 1 && Allocation(n, A)
  {
    if hi == 0 then 0 else FreeLeaves(n, A, hi - 1) + if Covered(n, A, hi - 1) then 0 else 1
  }

  lemma {:induction false} FreeStretch(n: nat, A: set<nat>, lo: nat, hi: nat)
    requires n >= 1 && Allocation(n, A) && lo <= hi
    requires forall i :: lo <= i < hi ==> !Covered(n, A, i)
    ensures FreeLeaves(n, A, hi) == FreeLeaves(n, A, lo) + hi - lo
    decreases hi
  {
    if lo < hi { FreeStretch(n, A, lo, hi - 1); }
  }

  lemma {:induction false} CoveredStretch(n: nat, A: set<nat>, lo: nat, hi: nat)
    requires n >= 1 && Allocation(n, A) && lo <= hi
    requires forall i :: lo <= i < hi ==> Covered(n, A, i)
    ensures FreeLeaves(n, A, hi) == FreeLeaves(n, A, lo)
    decreases hi
  {
    if lo < hi { CoveredStretch(n, A, lo, hi - 1); }
  }

  lemma {:induction false} SameLeaves(n: nat, A: set<nat>, B: set<nat>, lo: nat, hi: nat)
    requires n >= 1 && Allocation(n, A) && Allocation(n, B) && lo <= hi
    requires forall i :: lo <= i < hi ==> (Covered(n, A, i) <==> Covered(n, B, i))
    ensures FreeLeaves(n, A, hi) - FreeLeaves(n, A, lo) == FreeLeaves(n, B, hi) - FreeLeaves(n, B, lo)
    decreases hi
  {
    if lo < hi { SameLeaves(n, A, B, lo, hi - 1); }
  }

  /** A free node contributes its whole width ... */
  lemma FreeNodeLeaves(n: nat, A: set<nat>, v: nat)
    requires n >= 1 && Allocation(n, A) && IsNode(n, v) && Free(n, A, v)
    ensures FreeLeaves(n, A, Hi(n, v)) == FreeLeaves(n, A, Lo(n, v)) + Width(n, v)
  {
    forall i | Lo(n, v) <= i < Hi(n, v) ensures !Covered(n, A, i) {
      forall a | a in A ensures !(Lo(n, a) <= i < Hi(n, a)) {
        DisjointIntervals(n, a, v);
      }
    }
    FreeStretch(n, A, Lo(n, v), Hi(n, v));
  }

  /** ... and a node of maximal status nothing. */
  lemma {:induction false} FullNodeLeaves(n: nat, A: set<nat>, v: nat)
    requires n >= 1 && Allocation(n, A) && IsNode(n, v) && Status(n, A, v) == SlotLength(n, v)
    ensures FreeLeaves(n, A, Hi(n, v)) == FreeLeaves(n, A, Lo(n, v))
    decreases Pow2(n) - v
  {
    if v in A {
      forall i | Lo(n, v) <= i < Hi(n, v) ensures Covered(n, A, i) { }
      CoveredStretch(n, A, Lo(n, v), Hi(n, v));
    } else {
      ChildDepth(n, v);
      ChildIntervals(n, v);
      assert Status(n, A, 2 * v) == SlotLength(n, 2 * v) && Status(n, A, 2 * v + 1) == SlotLength(n, 2 * v + 1);
      FullNodeLeaves(n, A, 2 * v);
      FullNodeLeaves(n, A, 2 * v + 1);
    }
  }

  // ---- conservation ------------------------------------------------------------------------

  /** Total width of a set of nodes. */
  ghost function TotalWidth(n: nat, A: set<nat>): nat
    requires forall a :: a in A ==> IsNode(n, a)
  {
    if A == {} then 0 else
      var a :| a in A;
      Width(n, a) + TotalWidth(n, A - {a})
  }

  lemma {:induction false} TotalWidthPick(n: nat, A: set<nat>, x: nat)
    requires (forall a :: a in A ==> IsNode(n, a)) && x in A
    ensures TotalWidth(n, A) == Width(n, x) + TotalWidth(n, A - {x})
    decreases A
  {
    var a :| a in A && TotalWidth(n, A) == Width(n, a) + TotalWidth(n, A - {a});
    if a != x {
      TotalWidthPick(n, A - {a}, x);
      TotalWidthPick(n, A - {x}, a);
      assert A - {a} - {x} == A - {x} - {a};
    }
  }

  /** Taking one allocated node away frees exactly its leaves. */
  lemma ReleaseFrees(n: nat, A: set<nat>, x: nat)
    requires n >= 1 && Allocation(n, A) && x in A
    ensures Allocation(n, A - {x})
    ensures FreeLeaves(n, A - {x}, Pow2(n - 1)) == FreeLeaves(n, A, Pow2(n - 1)) + Width(n, x)
  {
    var B := A - {x};
    RootInterval(n);
    RootAboveAll(x);
    Nested(n, 1, x);
    forall i: nat | !(Lo(n, x) <= i < Hi(n, x)) ensures Covered(n, A, i) <==> Covered(n, B, i) {
      if Covered(n, A, i) {
        var a :| a in A && Lo(n, a) <= i < Hi(n, a);
        assert a in B;
      }
    }
    SameLeaves(n, A, B, 0, Lo(n, x));
    SameLeaves(n, A, B, Hi(n, x), Pow2(n - 1));
    CoveredStretch(n, A, Lo(n, x), Hi(n, x));
    FreeNodeLeaves(n, B, x);
  }

  /** Free leaves and allocated widths add up to the whole row of leaves. */
  lemma {:induction false} Conservation(n: nat, A: set<nat>)
    requires n >= 1 && Allocation(n, A)
    ensures FreeLeaves(n, A, Pow2(n - 1)) + TotalWidth(n, A) == Pow2(n - 1)
    decreases A
  {
    if A == {} {
      FreeStretch(n, A, 0, Pow2(n - 1));
    } else {
      var x :| x in A;
      ReleaseFrees(n, A, x);
      TotalWidthPick(n, A, x);
      Conservation(n, A - {x});
    }
  }
}
