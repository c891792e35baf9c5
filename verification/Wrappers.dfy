/** Stock optional and result types shared by every component. */
module Wrappers {

  datatype Option<+T> = None | Some(value: T)

  datatype Result<+T, +E> = Success(value: T) | Failure(error: E)

  /** A proof that wants what a folded predicate says mentions this. */
  ghost predicate Unfold(folded: bool) { true }
}
