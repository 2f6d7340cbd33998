/** Three-way comparison, as the ordered collections use it. */
module Orders {
  datatype Ordering = Less | Equal | Greater

  /** All elements can be compared; different ones may rank equal. */
  ghost predicate TotalPreorder<K(!new)>(cmp: (K, K) -> Ordering) {
    && (forall a, b :: cmp(a, b) == Less <==> cmp(b, a) == Greater)
    && (forall a, b, c :: cmp(a, b) != Greater && cmp(b, c) != Greater ==> cmp(a, c) != Greater)
  }

  ghost predicate TotalOrder<K(!new)>(cmp: (K, K) -> Ordering) {
    && (forall a, b :: cmp(a, b) == Equal <==> a == b)
    && (forall a, b :: cmp(a, b) == Less <==> cmp(b, a) == Greater)
    && (forall a, b, c :: cmp(a, b) == Less && cmp(b, c) == Less ==> cmp(a, c) == Less)
  }
}
