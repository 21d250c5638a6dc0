/** The comparators that the C code takes as function pointers. */
module Order {

  /** Exchanging the arguments exchanges "less" and "greater". */
  ghost predicate Symmetric<K(!new)>(cmp: (K, K) -> int) {
    forall a, b :: cmp(a, b) < 0 <==> cmp(b, a) > 0
  }

  ghost predicate Transitive<K(!new)>(cmp: (K, K) -> int) {
    forall a, b, c :: cmp(a, b) <= 0 && cmp(b, c) <= 0 ==> cmp(a, c) <= 0
  }

  /** cmp is negative, zero or positive as its arguments stand in some total preorder. */
  ghost predicate TotalOrder<K(!new)>(cmp: (K, K) -> int) {
    Symmetric(cmp) && Transitive(cmp)
  }

  lemma {:induction false} Chain<K(!new)>(cmp: (K, K) -> int, a: K, b: K, c: K)
    requires TotalOrder(cmp) && cmp(b, c) < 0
    ensures cmp(a, b) <= 0 ==> cmp(a, c) < 0
    ensures cmp(a, c) == 0 ==> cmp(a, b) > 0
  {
    assert cmp(c, a) <= 0 && cmp(a, b) <= 0 ==> cmp(c, b) <= 0;
    assert cmp(b, c) <= 0 && cmp(c, a) <= 0 ==> cmp(b, a) <= 0;
  }
}
