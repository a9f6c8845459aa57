/**
  The word swizzler: moves bit `bits[i]` of a value to bit i of the result,
  for every output position i below the width.
*/
module WordSwizzle {
  import opened Bits
  import opened Permutation

  /**
    The swizzled value as a sum of positional weights: output bit i carries
    2^i exactly when input bit `bits[i]` is set.
  */
  function Swizzled(word: nat, bits: seq<nat>, count: nat): (r: nat)
    requires count <= |bits|
    ensures r < Pow2(count)
  {
    if count == 0 then 0
    else Swizzled(word, bits, count - 1) + (if Bit(word, bits[count - 1]) then Pow2(count - 1) else 0)
  }

  /**
    swizzleWord: for each output position i, isolates source bit `bits[i]`
    with `word & (1 << bits[i])`, shifts it right or left onto position i and
    ORs it into the result.
  */
  method SwizzleWord(word: nat, bits: seq<nat>, count: nat) returns (out: nat)
    requires count <= |bits|
    ensures out == Swizzled(word, bits, count)
  {
    out := 0;
    for i := 0 to count
      invariant out == Swizzled(word, bits, i)
    {
      var moved;
      if bits[i] >= i {
        moved := Shr(And(word, Shl(1, bits[i])), bits[i] - i);
      } else {
        moved := Shl(And(word, Shl(1, bits[i])), i - bits[i]);
      }
      SwizzleStep(word, bits, i);
      out := Or(out, moved);
    }
  }

  /** The value the loop body ORs in is bit `bits[i]` of word, placed at bit i. */
  lemma MovedBit(word: nat, b: nat, i: nat)
    ensures (if b >= i then Shr(And(word, Shl(1, b)), b - i) else Shl(And(word, Shl(1, b)), i - b))
            == (if Bit(word, b) then Pow2(i) else 0)
  {
    assert Shl(1, b) == Pow2(b);
    if b >= i {
      MovedDown(word, b, i);
    } else {
      MovedUp(word, b, i);
    }
  }

  lemma MovedDown(word: nat, b: nat, i: nat)
    requires b >= i
    ensures Shr(And(word, Pow2(b)), b - i) == (if Bit(word, b) then Pow2(i) else 0)
  {
    var moved := Shr(And(word, Pow2(b)), b - i);
    var want := if Bit(word, b) then Pow2(i) else 0;
    forall k: nat
      ensures Bit(moved, k) == Bit(want, k)
    {
      BitShr(And(word, Pow2(b)), b - i, k);
      BitAnd(word, Pow2(b), b - i + k);
      BitPow2(b, b - i + k);
      BitPow2(i, k);
      BitOfZero(k);
    }
    BitsEqual(moved, want);
  }

  lemma MovedUp(word: nat, b: nat, i: nat)
    requires b < i
    ensures Shl(And(word, Pow2(b)), i - b) == (if Bit(word, b) then Pow2(i) else 0)
  {
    var moved := Shl(And(word, Pow2(b)), i - b);
    var want := if Bit(word, b) then Pow2(i) else 0;
    forall k: nat
      ensures Bit(moved, k) == Bit(want, k)
    {
      BitShl(And(word, Pow2(b)), i - b, k);
      if k >= i - b {
        BitAnd(word, Pow2(b), k - (i - b));
        BitPow2(b, k - (i - b));
      }
      BitPow2(i, k);
      BitOfZero(k);
    }
    BitsEqual(moved, want);
  }

  lemma SwizzleStep(word: nat, bits: seq<nat>, i: nat)
    requires i < |bits|
    ensures Or(Swizzled(word, bits, i),
               if bits[i] >= i then Shr(And(word, Shl(1, bits[i])), bits[i] - i)
               else Shl(And(word, Shl(1, bits[i])), i - bits[i]))
            == Swizzled(word, bits, i + 1)
  {
    MovedBit(word, bits[i], i);
    if Bit(word, bits[i]) {
      OrAbove(1, Swizzled(word, bits, i), i);
    }
  }

  // ---------------------------------------------------------------------------
  // Laws of the swizzle

  /** Per-bit mapping law: bit i of the result is bit `bits[i]` of the input, for i below count; higher bits are clear. */
  lemma {:induction false} SwizzledBit(word: nat, bits: seq<nat>, count: nat, k: nat)
    requires count <= |bits|
    ensures Bit(Swizzled(word, bits, count), k) == (k < count && Bit(word, bits[k]))
  {
    if count == 0 {
      BitOfZero(k);
    } else {
      var n := count - 1;
      var x := if Bit(word, bits[n]) then 1 else 0;
      assert Swizzled(word, bits, count) == Swizzled(word, bits, n) + Shl(x, n);
      OrAbove(x, Swizzled(word, bits, n), n);
      BitOr(Swizzled(word, bits, n), Shl(x, n), k);
      BitShl(x, n, k);
      if k >= n {
        if x == 1 {
          BitPow2(0, k - n);
        } else {
          BitOfZero(k - n);
        }
      }
      SwizzledBit(word, bits, n, k);
      if k == n {
        HighBitsClear(Swizzled(word, bits, n), n, n);
      }
    }
  }

  /** Swizzled values agree when their per-bit laws agree on every bit below count. */
  lemma SameBitsBelow(a: nat, b: nat, count: nat)
    requires a < Pow2(count) && b < Pow2(count)
    requires forall k: nat :: k < count ==> Bit(a, k) == Bit(b, k)
    ensures a == b
  {
    forall k: nat
      ensures Bit(a, k) == Bit(b, k)
    {
      if k >= count {
        HighBitsClear(a, count, k);
        HighBitsClear(b, count, k);
      }
    }
    BitsEqual(a, b);
  }

  /** With the identity order (bits[i] == i) a value that fits in count bits is unchanged. */
  lemma SwizzleIdentity(word: nat, bits: seq<nat>, count: nat)
    requires count <= |bits|
    requires forall i :: 0 <= i < count ==> bits[i] == i
    requires word < Pow2(count)
    ensures Swizzled(word, bits, count) == word
  {
    forall k: nat | k < count
      ensures Bit(Swizzled(word, bits, count), k) == Bit(word, k)
    {
      SwizzledBit(word, bits, count, k);
    }
    SameBitsBelow(Swizzled(word, bits, count), word, count);
  }

  /** Swizzling by a permutation and then by its inverse (in either order) gives the value back. */
  lemma SwizzleInverse(word: nat, p: seq<nat>, count: nat)
    requires IsPermutation(p, count)
    requires word < Pow2(count)
    ensures Swizzled(Swizzled(word, p, count), Inverse(p, count), count) == word
    ensures Swizzled(Swizzled(word, Inverse(p, count), count), p, count) == word
  {
    InverseUndoes(p, count);
    var q := Inverse(p, count);
    var there := Swizzled(word, p, count);
    forall k: nat | k < count
      ensures Bit(Swizzled(there, q, count), k) == Bit(word, k)
    {
      SwizzledBit(there, q, count, k);
      SwizzledBit(word, p, count, q[k]);
    }
    SameBitsBelow(Swizzled(there, q, count), word, count);
    var back := Swizzled(word, q, count);
    forall k: nat | k < count
      ensures Bit(Swizzled(back, p, count), k) == Bit(word, k)
    {
      SwizzledBit(back, p, count, k);
      SwizzledBit(word, q, count, p[k]);
    }
    SameBitsBelow(Swizzled(back, p, count), word, count);
  }

  /** Under a permutation, distinct values below 2^count swizzle to distinct values. */
  lemma SwizzleInjective(a: nat, b: nat, p: seq<nat>, count: nat)
    requires IsPermutation(p, count)
    requires a < Pow2(count) && b < Pow2(count)
    requires Swizzled(a, p, count) == Swizzled(b, p, count)
    ensures a == b
  {
    SwizzleInverse(a, p, count);
    SwizzleInverse(b, p, count);
  }
}
