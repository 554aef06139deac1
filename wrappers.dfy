/** Failure-carrying results used for the helpers' error paths (Python exceptions). */
module Wrappers {

  datatype Option<+T> = None | Some(value: T)

  datatype Result<+R, +E> = Success(value: R) | Failure(error: E)
}
