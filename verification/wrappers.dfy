/** Failure-carrying datatypes shared by the leaf encoder and the artifact builder. */
module Wrappers {

  /** A value that may be absent, e.g. the position of a leaf that is not in the tree. */
  datatype Option<+T> = None | Some(value: T)

  /** Either a computed value or the error that stopped the computation. */
  datatype Result<+R, +E> = Success(value: R) | Failure(error: E)
}
