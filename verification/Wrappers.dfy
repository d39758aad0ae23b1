/** The results of operations that can raise, and the arbitrary choice behind Python's `set.pop()`. */
module Wrappers {
  datatype Option<+T> = None | Some(value: T)

  datatype Result<+T, +E> = Success(value: T) | Failure(error: E)

  /** Any element of a non-empty set. */
  method Pick<T(==)>(s: set<T>) returns (x: T)
    requires |s| > 0
    ensures x in s
  {
    x :| x in s;
  }
}
