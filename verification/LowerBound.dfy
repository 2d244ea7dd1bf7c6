/** The branchless binary search the order book looks levels up with. Its two
    halves overlap by one element when the length is odd, so that the stride can
    be scaled by a bool instead of branching. */
module LowerBound {
  import opened Words

  /** Every element the comparator puts before `value` precedes every other one. */
  ghost predicate Partitioned<E, K>(s: seq<E>, value: K, comp: (K, K) -> bool, proj: E -> K) {
    forall i, j :: 0 <= i < j < |s| && comp(proj(s[j]), value) ==> comp(proj(s[i]), value)
  }

  ghost predicate IsPartitionPoint<E, K>(s: seq<E>, value: K, comp: (K, K) -> bool, proj: E -> K, k: nat) {
    && k <= |s|
    && (forall i :: 0 <= i < k ==> comp(proj(s[i]), value))
    && (forall i :: k <= i < |s| ==> !comp(proj(s[i]), value))
  }

  ghost predicate StrictWeakOrder<K(!new)>(comp: (K, K) -> bool) {
    && (forall a, b :: comp(a, b) ==> !comp(b, a))
    && (forall a, b, c :: comp(a, c) ==> comp(a, b) || comp(b, c))
  }

  /** A range sorted by a strict weak order is partitioned by every value. */
  lemma SortedIsPartitioned<E, K(!new)>(s: seq<E>, value: K, comp: (K, K) -> bool, proj: E -> K)
    requires StrictWeakOrder(comp)
    requires forall i, j :: 0 <= i < j < |s| ==> !comp(proj(s[j]), proj(s[i]))
    ensures Partitioned(s, value, comp, proj)
  {
  }

  /** The number of halvings that take `n` to zero. */
  function Halvings(n: nat): nat {
    if n == 0 then 0 else 1 + Halvings(n / 2)
  }

  /** `Halvings(n)` is the binary logarithm of `n`, rounded down, plus one. */
  lemma {:induction false} HalvingsIsLog2(n: nat)
    requires n > 0
    ensures Halvings(n) > 0 && Pow2(Halvings(n) - 1) <= n < Pow2(Halvings(n))
  {
    if n > 1 {
      HalvingsIsLog2(n / 2);
    }
  }

  /** Returns the partition point after exactly `Halvings(|s|)` comparisons,
      whatever the data. */
  method BranchlessLowerBound<E, K>(s: seq<E>, value: K, comp: (K, K) -> bool, proj: E -> K)
    returns (first: nat, ghost comparisons: nat)
    requires Partitioned(s, value, comp, proj)
    ensures IsPartitionPoint(s, value, comp, proj, first)
    ensures comparisons == Halvings(|s|)
  {
    first, comparisons := 0, 0;
    var length: nat := |s|;
    while length > 0
      invariant first + length <= |s|
      invariant forall i :: 0 <= i < first ==> comp(proj(s[i]), value)
      invariant forall i :: first + length <= i < |s| ==> !comp(proj(s[i]), value)
      invariant comparisons + Halvings(length) == Halvings(|s|)
    {
      var half := length / 2;
      var take := if comp(proj(s[first + half]), value) then 1 else 0;
      comparisons := comparisons + 1;
      first := first + take * (length - half);
      length := half;
    }
  }
}
