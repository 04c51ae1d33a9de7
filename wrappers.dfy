/** Failure-carrying values used in place of the source's exceptions. */
module Wrappers {

  /** A value that may be missing: a conversion that can fail returns None. */
  datatype Option<+T> = None | Some(value: T)

  /** The outcome of a sort: the reordered lines, or the index the source throws. */
  datatype Result<+R, +E> = Success(value: R) | Failure(error: E)
}
