/** Result types shared by the formatter and the partition-table builder. */
module Wrappers {

  datatype Option<+T> = None | Some(value: T)

  /** The outcome of an operation that produces no value: success, or the reason it failed. */
  datatype Outcome<+E> = Pass | Fail(error: E)

  datatype Result<+R, +E> = Success(value: R) | Failure(error: E)
}
