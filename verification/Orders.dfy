/** Comparison functions in the style of strcmp: only the sign of the result matters. */
module Orders {
  /** cmp orders its domain: swapping the arguments swaps the sign, and <= is transitive. */
  ghost predicate IsOrder<T(!new)>(cmp: (T, T) -> int) {
    && (forall x, y :: cmp(x, y) <= 0 <==> cmp(y, x) >= 0)
    && (forall x, y, z :: cmp(x, y) <= 0 && cmp(y, z) <= 0 ==> cmp(x, z) <= 0)
  }
}
