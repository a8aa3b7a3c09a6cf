/** A nullable cell of a table: `None` stands for a missing (NaN) value. */
module Wrappers {

  datatype Option<+T> = None | Some(value: T)

  /** `pandas.Series.isin` on one cell: a missing value is never a member of a set of strings. */
  predicate IsIn<T(==)>(o: Option<T>, xs: set<T>) {
    o.Some? && o.value in xs
  }

  function Min(a: int, b: int): int {
    if a <= b then a else b
  }
}
