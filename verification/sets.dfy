/** Cardinalities of finite sets. */
module Sets {
  lemma SubsetSize<T>(a: set<T>, b: set<T>)
    requires a <= b
    ensures |a| <= |b|
  {
    if a != b {
      assert |b| == |a + (b - a)|;
    }
  }

  /** The numbers from `lo` on, `n` of them. */
  function Range(lo: nat, n: nat): (r: set<nat>)
    ensures |r| == n
    ensures forall i: nat :: i in r <==> lo <= i < lo + n
  {
    if n == 0 then {} else Range(lo, n - 1) + {lo + n - 1}
  }

  /** A set of positions below `n + 1`, by the part of it below `n`. */
  lemma OneMorePosition(before: set<nat>, after: set<nat>, n: nat)
    requires forall i: nat :: i in before <==> i in after && i < n
    requires forall i: nat :: i in after ==> i <= n
    ensures |after| == |before| + if n in after then 1 else 0
  {
    assert after == before + if n in after then {n} else {};
  }
}
