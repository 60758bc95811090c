/** Order properties assumed of the comparisons the source takes from elsewhere (`std::less`, `lexicalLess`). */
module Orders {

  /** `less` is a strict order: irreflexive and transitive. */
  ghost predicate StrictOrder<T(!new)>(less: (T, T) -> bool)
  {
    && (forall x :: !less(x, x))
    && (forall x, y, z :: less(x, y) && less(y, z) ==> less(x, z))
  }

  /** `less` is a strict total order: a strict order under which distinct values are comparable. */
  ghost predicate StrictTotalOrder<T(!new)>(less: (T, T) -> bool)
  {
    && StrictOrder(less)
    && (forall x, y :: x != y ==> less(x, y) || less(y, x))
  }
}
