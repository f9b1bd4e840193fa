/** The unary encoding of node statuses in the bitset: status k is k ones, then zeros. */
module Slots {
  import opened Powers
  import opened Bitset
  import opened TreeLayout

  /** The slot of `len` bits at `at` reads `value`. */
  ghost predicate SlotHolds(view: seq<bool>, at: nat, len: nat, value: nat)
  {
    && value <= len && at + len <= |view|
    && forall k :: at <= k < at + len ==> (view[k] <==> k < at + value)
  }

  /** The bitset stores status `st[v]` for every node of the tree. Entry 0 of `st` is not used. */
  ghost predicate Encoded(view: seq<bool>, n: nat, st: seq<nat>)
  {
    && |st| == Pow2(n)
    && forall v: nat {:trigger st[v]} :: IsNode(n, v) ==> SlotHolds(view, SlotStart(n, v), SlotLength(n, v), st[v])
  }

  /** Clearing a slot and then setting its first `value` bits changes that slot alone. */
  lemma WriteSlot(before: seq<bool>, cleared: seq<bool>, after: seq<bool>, n: nat, st: seq<nat>, v: nat, value: nat)
    requires Encoded(before, n, st) && IsNode(n, v) && value <= SlotLength(n, v)
    requires Filled(before, cleared, SlotStart(n, v), SlotStart(n, v) + SlotLength(n, v) - 1, false)
    requires value == 0 ==> after == cleared
    requires value > 0 ==> Filled(cleared, after, SlotStart(n, v), SlotStart(n, v) + value - 1, true)
    ensures Encoded(after, n, st[v := value])
  {
    forall u: nat | IsNode(n, u) ensures SlotHolds(after, SlotStart(n, u), SlotLength(n, u), st[v := value][u]) {
      assert SlotHolds(before, SlotStart(n, u), SlotLength(n, u), st[u]);
      if u < v { SlotsDisjoint(n, u, v); }
      if v < u { SlotsDisjoint(n, v, u); }
    }
  }

  lemma {:induction false} CountUnary(view: seq<bool>, at: nat, len: nat, value: nat, k: nat)
    requires SlotHolds(view, at, len, value) && k <= len
    ensures CountTrue(view, at, at + k) == if k <= value then k else value
  {
    if k > 0 {
      CountUnary(view, at, len, value, k - 1);
    }
  }

  /** All bits clear: every status is 0. */
  lemma ZeroEncoded(view: seq<bool>, n: nat, st: seq<nat>)
    requires SizeForOrder(n, 0) <= |view| && |st| == Pow2(n)
    requires forall k :: 0 <= k < |view| ==> !view[k]
    requires forall v :: 0 <= v < |st| ==> st[v] == 0
    ensures Encoded(view, n, st)
  {
    forall v: nat | IsNode(n, v) ensures SlotHolds(view, SlotStart(n, v), SlotLength(n, v), st[v]) {
      SlotWithin(n, v);
    }
  }
}
