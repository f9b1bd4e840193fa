/** Powers of two and the position of the highest set bit, shared by every layer. */
module Powers {

  function Pow2(e: nat): (r: nat)
    ensures r >= 1
  {
    if e == 0 then 1 else 2 * Pow2(e - 1)
  }

  lemma {:induction false} Pow2Monotone(a: nat, b: nat)
    requires a <= b
    ensures Pow2(a) <= Pow2(b)
    ensures a < b ==> 2 * Pow2(a) <= Pow2(b)
    decreases b
  {
    if a < b {
      Pow2Monotone(a, b - 1);
    }
  }

  lemma {:induction false} Pow2Add(a: nat, b: nat)
    ensures Pow2(a + b) == Pow2(a) * Pow2(b)
  {
    if a == 0 {
    } else {
      Pow2Add(a - 1, b);
      assert a + b - 1 == (a - 1) + b;
    }
  }

  /** 1-based position of the highest set bit; 0 for 0. */
  function HighBit(v: nat): (r: nat)
    ensures v == 0 <==> r == 0
  {
    if v == 0 then 0 else 1 + HighBit(v / 2)
  }

  lemma {:induction false} HighBitBounds(v: nat)
    requires v > 0
    ensures Pow2(HighBit(v) - 1) <= v < Pow2(HighBit(v))
  {
    if v == 1 {
      assert HighBit(1) == 1 + HighBit(0);
      assert Pow2(1) == 2 * Pow2(0);
    } else {
      HighBitBounds(v / 2);
    }
  }

  /** The bounds pin the position: exactly one r has 2^(r-1) <= v < 2^r. */
  lemma HighBitUnique(v: nat, r: nat)
    requires r > 0 && Pow2(r - 1) <= v < Pow2(r)
    ensures HighBit(v) == r
  {
    HighBitBounds(v);
    var h := HighBit(v);
    if h < r { Pow2Monotone(h, r - 1); }
    if r < h { Pow2Monotone(r, h - 1); }
  }

  /** The unsigned right shift `v >> c`. */
  function Shr(v: nat, c: nat): (r: nat)
    ensures r <= v
  {
    if c == 0 then v else Shr(v / 2, c - 1)
  }

  lemma {:induction false} ShrIsDiv(v: nat, c: nat)
    ensures Shr(v, c) == v / Pow2(c)
  {
    if c > 0 {
      ShrIsDiv(v / 2, c - 1);
      DivTwice(v, Pow2(c - 1));
    }
  }

  lemma {:induction false} ShrBelow(v: nat, c: nat, a: nat)
    requires v < Pow2(a + c)
    ensures Shr(v, c) < Pow2(a)
    decreases c
  {
    if c > 0 {
      ShrBelow(v / 2, c - 1, a);
    }
  }

  /** Dropping c low bits of a value of at least 2^c - 1 lowers its highest bit by c. */
  lemma {:induction false} HighBitShift(v: nat, c: nat)
    requires v >= Pow2(c) - 1
    ensures HighBit(v) == c + HighBit(Shr(v, c))
    decreases c
  {
    if c > 0 {
      Pow2Monotone(1, c);
      HighBitShift(v / 2, c - 1);
    }
  }

  lemma DivTwice(v: nat, d: nat)
    requires d > 0
    ensures (v / 2) / d == v / (2 * d)
  {
    var q := v / (2 * d);
    var r := v % (2 * d);
    assert v == 2 * d * q + r;
    assert v / 2 == d * q + r / 2;
    DivUnique(v / 2, d, q, r / 2);
  }

  lemma DivUnique(v: int, d: int, q: int, r: int)
    requires d > 0 && 0 <= r < d && v == d * q + r
    ensures v / d == q && v % d == r
  {
    var k := q - v / d;
    assert d * k == v % d - r by { Distribute(d, q, v / d); }
    SmallMultiple(d, k);
  }

  /** Quotient and remainder of a natural number. */
  lemma DivParts(v: nat, d: nat) returns (q: nat, r: nat)
    requires d > 0
    ensures q == v / d && r == v % d && r < d && v == d * q + r
  {
    r := v % d;
    NotNegative(v / d, d, r);
    q := v / d;
  }

  lemma NotNegative(q: int, d: nat, r: nat)
    requires r < d && d * q + r >= 0
    ensures q >= 0
  {
    if q < 0 { Distribute(d, -q, 1); NonNegative(d, -q - 1); }
  }

  lemma Distribute(d: int, a: int, b: int)
    ensures d * (a - b) == d * a - d * b
    ensures d * (a + b) == d * a + d * b
  {
  }

  /** A multiple of d strictly between -d and d is 0. */
  lemma SmallMultiple(d: int, k: int)
    requires d > 0 && -d < d * k < d
    ensures k == 0
  {
    if k >= 1 {
      Distribute(d, k, 1);
      NonNegative(d, k - 1);
    } else if k <= -1 {
      Distribute(d, -1, k);
      NonNegative(d, -1 - k);
    }
  }

  lemma NonNegative(a: int, b: int)
    requires a >= 0 && b >= 0
    ensures a * b >= 0
  {
  }
}
