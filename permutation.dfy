/**
  Bit orders that are permutations: every index 0 .. n - 1 used exactly once.
  Such an order can be undone by its inverse order.
*/
module Permutation {

  /** p lists n distinct indices, each below n. */
  predicate IsPermutation(p: seq<nat>, n: nat)
  {
    |p| == n &&
    (forall i :: 0 <= i < n ==> p[i] < n) &&
    (forall i, j :: 0 <= i < j < n ==> p[i] != p[j])
  }

  /** Position of the first v in p, or |p| when v does not occur. */
  function IndexOf(p: seq<nat>, v: nat): (r: nat)
    ensures r <= |p|
    ensures r < |p| ==> p[r] == v
    ensures forall j :: 0 <= j < r ==> p[j] != v
    ensures v in p ==> r < |p|
  {
    if p == [] then 0
    else if p[0] == v then 0
    else 1 + IndexOf(p[1..], v)
  }

  /** The order that takes every index back to where p took it from. */
  function Inverse(p: seq<nat>, n: nat): seq<nat>
  {
    seq(n, v requires 0 <= v < n => IndexOf(p, v))
  }

  /** The distinct values of p[..m] form a set of m elements. */
  lemma {:induction false} DistinctImageSize(p: seq<nat>, m: nat)
    requires m <= |p|
    requires forall i, j :: 0 <= i < j < m ==> p[i] != p[j]
    ensures |set i | 0 <= i < m :: p[i]| == m
  {
    if m > 0 {
      DistinctImageSize(p, m - 1);
      var s := set i | 0 <= i < m - 1 :: p[i];
      assert (set i | 0 <= i < m :: p[i]) == s + {p[m - 1]};
      assert p[m - 1] !in s;
    }
  }

  /** Pigeonhole: n distinct indices below n use up every index below n. */
  lemma Surjective(p: seq<nat>, n: nat, v: nat)
    requires IsPermutation(p, n)
    requires v < n
    ensures v in p
  {
    var ids: seq<nat> := seq(n, i requires 0 <= i < n => i);
    var image := set i | 0 <= i < n :: p[i];
    var range := set i | 0 <= i < n :: ids[i];
    DistinctImageSize(p, n);
    DistinctImageSize(ids, n);
    forall u | u in image
      ensures u in range
    {
      var i :| 0 <= i < n && p[i] == u;
      assert ids[u] == u;
    }
    if v !in p {
      assert ids[v] == v;
      assert image <= range - {v};
      SubsetSize(image, range - {v});
      assert false;
    }
  }

  lemma {:induction false} SubsetSize<T>(a: set<T>, b: set<T>)
    requires a <= b
    ensures |a| <= |b|
    decreases b
  {
    if a != {} {
      var x :| x in a;
      SubsetSize(a - {x}, b - {x});
    }
  }

  /** The inverse of a permutation is a permutation, and the two undo each other. */
  lemma InverseUndoes(p: seq<nat>, n: nat)
    requires IsPermutation(p, n)
    ensures IsPermutation(Inverse(p, n), n)
    ensures forall i :: 0 <= i < n ==> Inverse(p, n)[p[i]] == i
    ensures forall v :: 0 <= v < n ==> p[Inverse(p, n)[v]] == v
  {
    var q := Inverse(p, n);
    forall v | 0 <= v < n
      ensures q[v] < n && p[q[v]] == v
    {
      Surjective(p, n, v);
    }
    forall i | 0 <= i < n
      ensures q[p[i]] == i
    {
      var j := q[p[i]];
      assert p[j] == p[i];
    }
    forall i, j | 0 <= i < j < n
      ensures q[i] != q[j]
    {
      assert p[q[i]] == i && p[q[j]] == j;
    }
  }
}
