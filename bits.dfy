/**
  The C bit operators that the swizzle engine uses (`<<`, `>>`, `|`, `&`,
  `& ~`), modelled on unbounded naturals, together with the per-bit laws that
  the rest of the model reasons with.  Every operator is defined by recursion
  on halving, so the only divisions the solver meets are by the constant 2.
*/
module Bits {

  /** 2 to the power k, i.e. `1 << k`. */
  function Pow2(k: nat): (r: nat)
    ensures r >= 1
  {
    if k == 0 then 1 else 2 * Pow2(k - 1)
  }

  /** `v >> k` */
  function Shr(v: nat, k: nat): nat
  {
    if k == 0 then v else Shr(v / 2, k - 1)
  }

  /** `v << k` */
  function Shl(v: nat, k: nat): nat
  {
    v * Pow2(k)
  }

  /** Bit k of v is set. */
  predicate Bit(v: nat, k: nat)
  {
    Shr(v, k) % 2 == 1
  }

  /** `a | b` */
  function Or(a: nat, b: nat): nat
    decreases a + b
  {
    if a == 0 then b
    else if b == 0 then a
    else 2 * Or(a / 2, b / 2) + (if a % 2 == 1 || b % 2 == 1 then 1 else 0)
  }

  /** `a & b` */
  function And(a: nat, b: nat): nat
    decreases a + b
  {
    if a == 0 || b == 0 then 0
    else 2 * And(a / 2, b / 2) + (if a % 2 == 1 && b % 2 == 1 then 1 else 0)
  }

  /** `a & ~b` */
  function AndNot(a: nat, b: nat): nat
    decreases a + b
  {
    if a == 0 then 0
    else if b == 0 then a
    else 2 * AndNot(a / 2, b / 2) + (if a % 2 == 1 && b % 2 == 0 then 1 else 0)
  }

  /** floor(log2(n)) for n >= 1: the position of the highest set bit. */
  function FloorLog2(n: nat): (r: nat)
    requires n >= 1
    ensures Pow2(r) <= n < Pow2(r + 1)
  {
    if n == 1 then 0 else 1 + FloorLog2(n / 2)
  }

  // ---------------------------------------------------------------------------
  // Powers of two

  lemma {:induction false} Pow2Add(a: nat, b: nat)
    ensures Pow2(a + b) == Pow2(a) * Pow2(b)
  {
    if a > 0 {
      Pow2Add(a - 1, b);
    }
  }

  lemma {:induction false} Pow2Monotone(a: nat, b: nat)
    requires a <= b
    ensures Pow2(a) <= Pow2(b)
  {
    if a < b {
      Pow2Monotone(a, b - 1);
    }
  }

  /** The floor logarithm is the only exponent that brackets n. */
  lemma FloorLog2Unique(n: nat, m: nat)
    requires Pow2(m) <= n < Pow2(m + 1)
    ensures FloorLog2(n) == m
  {
    var r := FloorLog2(n);
    if r < m {
      Pow2Monotone(r + 1, m);
    } else if r > m {
      Pow2Monotone(m + 1, r);
    }
  }

  // ---------------------------------------------------------------------------
  // Per-bit laws of the operators

  lemma {:induction false} BitOfZero(k: nat)
    ensures !Bit(0, k)
  {
    if k > 0 {
      BitOfZero(k - 1);
    }
  }

  /** Bit k + 1 of v is bit k of v / 2. */
  lemma BitOfHalf(v: nat, k: nat)
    ensures Bit(v, k + 1) == Bit(v / 2, k)
  {
  }

  /** A power of two above 2^k has an exponent above k. */
  lemma Pow2Below(k: nat, m: nat)
    ensures Pow2(k) < Pow2(m) ==> k < m
  {
    if m <= k {
      Pow2Monotone(m, k);
    }
  }

  /** Two naturals with the same bits are equal. */
  lemma {:induction false} BitsEqual(a: nat, b: nat)
    requires forall k: nat :: Bit(a, k) == Bit(b, k)
    ensures a == b
    decreases a + b
  {
    if a != 0 || b != 0 {
      assert Bit(a, 0) == Bit(b, 0);
      forall k: nat
        ensures Bit(a / 2, k) == Bit(b / 2, k)
      {
        BitOfHalf(a, k);
        BitOfHalf(b, k);
        assert Bit(a, k + 1) == Bit(b, k + 1);
      }
      BitsEqual(a / 2, b / 2);
    }
  }

  /** A natural with no bit set is zero. */
  lemma NoBitsZero(a: nat)
    requires forall k: nat :: !Bit(a, k)
    ensures a == 0
  {
    forall k: nat
      ensures Bit(a, k) == Bit(0, k)
    {
      BitOfZero(k);
    }
    BitsEqual(a, 0);
  }

  lemma {:induction false} BitOr(a: nat, b: nat, k: nat)
    ensures Bit(Or(a, b), k) == (Bit(a, k) || Bit(b, k))
  {
    BitOfZero(k);
    if a != 0 && b != 0 && k > 0 {
      BitOr(a / 2, b / 2, k - 1);
      var c := if a % 2 == 1 || b % 2 == 1 then 1 else 0;
      assert (2 * Or(a / 2, b / 2) + c) / 2 == Or(a / 2, b / 2);
    }
  }

  lemma {:induction false} BitAnd(a: nat, b: nat, k: nat)
    ensures Bit(And(a, b), k) == (Bit(a, k) && Bit(b, k))
  {
    BitOfZero(k);
    if a != 0 && b != 0 && k > 0 {
      BitAnd(a / 2, b / 2, k - 1);
      var c := if a % 2 == 1 && b % 2 == 1 then 1 else 0;
      assert (2 * And(a / 2, b / 2) + c) / 2 == And(a / 2, b / 2);
    }
  }

  lemma {:induction false} BitAndNot(a: nat, b: nat, k: nat)
    ensures Bit(AndNot(a, b), k) == (Bit(a, k) && !Bit(b, k))
  {
    BitOfZero(k);
    if a != 0 && b != 0 && k > 0 {
      BitAndNot(a / 2, b / 2, k - 1);
      var c := if a % 2 == 1 && b % 2 == 0 then 1 else 0;
      assert (2 * AndNot(a / 2, b / 2) + c) / 2 == AndNot(a / 2, b / 2);
    }
  }

  lemma {:induction false} ShrShr(v: nat, s: nat, k: nat)
    ensures Shr(Shr(v, s), k) == Shr(v, s + k)
  {
    if s > 0 {
      ShrShr(v / 2, s - 1, k);
    }
  }

  lemma BitShr(v: nat, s: nat, k: nat)
    ensures Bit(Shr(v, s), k) == Bit(v, s + k)
  {
    ShrShr(v, s, k);
  }

  lemma {:induction false} BitShl(v: nat, s: nat, k: nat)
    ensures Bit(Shl(v, s), k) == (k >= s && Bit(v, k - s))
  {
    if s == 0 {
      assert Shl(v, s) == v;
    } else {
      BitShl(v, s - 1, if k > 0 then k - 1 else 0);
      assert Shl(v, s) == 2 * Shl(v, s - 1);
      if k > 0 {
        BitOfHalf(Shl(v, s), k - 1);
      }
    }
  }

  /** `1 << s` has exactly bit s set. */
  lemma BitPow2(s: nat, k: nat)
    ensures Bit(Pow2(s), k) == (k == s)
  {
    BitShl(1, s, k);
    assert Shl(1, s) == Pow2(s);
    if k >= s && k - s > 0 {
      BitOfZero(k - s - 1);
    }
  }

  /** `(1 << n) - 1` has exactly bits 0 .. n - 1 set. */
  lemma {:induction false} BitLowOnes(n: nat, k: nat)
    ensures Bit(Pow2(n) - 1, k) == (k < n)
  {
    if n == 0 {
      BitOfZero(k);
    } else {
      var half := Pow2(n - 1);
      assert Pow2(n) - 1 == 2 * (half - 1) + 1;
      if k > 0 {
        assert (Pow2(n) - 1) / 2 == half - 1;
        BitLowOnes(n - 1, k - 1);
        BitOfHalf(Pow2(n) - 1, k - 1);
      }
    }
  }

  /** Below `1 << n`, no bit at n or above is set. */
  lemma {:induction false} HighBitsClear(v: nat, n: nat, k: nat)
    requires v < Pow2(n) && n <= k
    ensures !Bit(v, k)
  {
    if k == 0 {
    } else if n == 0 {
      BitOfZero(k - 1);
    } else {
      HighBitsClear(v / 2, n - 1, k - 1);
    }
  }

  /** Conversely, a natural without bits at n or above is below `1 << n`. */
  lemma {:induction false} BelowPow2(v: nat, n: nat)
    requires forall k: nat :: n <= k ==> !Bit(v, k)
    ensures v < Pow2(n)
  {
    if n == 0 {
      NoBitsZero(v);
    } else {
      forall k: nat | n - 1 <= k
        ensures !Bit(v / 2, k)
      {
        BitOfHalf(v, k);
      }
      BelowPow2(v / 2, n - 1);
    }
  }

  /** The bit at FloorLog2 position is set: it is the top bit. */
  lemma {:induction false} TopBit(v: nat, n: nat)
    requires Pow2(n) <= v < Pow2(n + 1)
    ensures Bit(v, n)
  {
    if n > 0 {
      TopBit(v / 2, n - 1);
    }
  }

  /** OR of two naturals without a common bit is their sum. */
  lemma {:induction false} OrDisjoint(a: nat, b: nat)
    requires forall k: nat :: !(Bit(a, k) && Bit(b, k))
    ensures Or(a, b) == a + b
    decreases a + b
  {
    if a != 0 && b != 0 {
      assert !(Bit(a, 0) && Bit(b, 0));
      forall k: nat
        ensures !(Bit(a / 2, k) && Bit(b / 2, k))
      {
        BitOfHalf(a, k);
        BitOfHalf(b, k);
        assert !(Bit(a, k + 1) && Bit(b, k + 1));
      }
      OrDisjoint(a / 2, b / 2);
    }
  }

  /** Placing hi above a field of s bits that holds lo: OR is addition. */
  lemma OrAbove(hi: nat, lo: nat, s: nat)
    requires lo < Pow2(s)
    ensures Or(Shl(hi, s), lo) == Shl(hi, s) + lo
    ensures Or(lo, Shl(hi, s)) == Shl(hi, s) + lo
  {
    forall k: nat
      ensures !(Bit(Shl(hi, s), k) && Bit(lo, k))
    {
      BitShl(hi, s, k);
      if k >= s {
        HighBitsClear(lo, s, k);
      }
    }
    OrDisjoint(Shl(hi, s), lo);
    forall k: nat
      ensures !(Bit(lo, k) && Bit(Shl(hi, s), k))
    {
      BitShl(hi, s, k);
      if k >= s {
        HighBitsClear(lo, s, k);
      }
    }
    OrDisjoint(lo, Shl(hi, s));
  }

  /** Clearing the bits of b from a removes at most b. */
  lemma {:induction false} AndNotBounds(a: nat, b: nat)
    ensures AndNot(a, b) <= a <= AndNot(a, b) + b
    decreases a + b
  {
    if a != 0 && b != 0 {
      AndNotBounds(a / 2, b / 2);
    }
  }

  /** Testing `v & (1 << k)` for zero tests bit k. */
  lemma AndPow2(v: nat, k: nat)
    ensures (And(v, Pow2(k)) != 0) == Bit(v, k)
  {
    if Bit(v, k) {
      BitAnd(v, Pow2(k), k);
      BitPow2(k, k);
      BitOfZero(k);
    } else {
      forall j: nat
        ensures !Bit(And(v, Pow2(k)), j)
      {
        BitAnd(v, Pow2(k), j);
        BitPow2(k, j);
      }
      NoBitsZero(And(v, Pow2(k)));
    }
  }

  /** `v >> 8` is `v / 256`. */
  lemma Shr8(v: nat)
    ensures Shr(v, 8) == v / 256
  {
    var v1 := v / 2;
    var v2 := v1 / 2;
    var v3 := v2 / 2;
    var v4 := v3 / 2;
    var v5 := v4 / 2;
    var v6 := v5 / 2;
    var v7 := v6 / 2;
    assert Shr(v, 8) == Shr(v1, 7) == Shr(v2, 6) == Shr(v3, 5) == Shr(v4, 4)
      == Shr(v5, 3) == Shr(v6, 2) == Shr(v7, 1) == v7 / 2;
  }
}
