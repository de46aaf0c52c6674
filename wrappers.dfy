/** Failure-carrying datatypes shared by the RPC service and the piece indexer. */
module Wrappers {

  /** A value that may be absent: JavaScript's `undefined` / `null`. */
  datatype Option<+T> = None | Some(value: T)

  /** A computation that either yields a value or throws an error. */
  datatype Result<+R, +E> = Success(value: R) | Failure(error: E)

  /** A computation without a value of its own that either completes or throws. */
  datatype Outcome<+E> = Pass | Fail(error: E)
}
