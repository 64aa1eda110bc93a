/** Optional values and success/failure results, used for the handler's
    inputs that may be absent and for its early exits. */
module Wrappers {

  datatype Option<+T> = None | Some(value: T)

  datatype Result<+R, +E> = Success(value: R) | Failure(error: E)
}
