/** Option and Result, the two failure-carrying shapes the codec returns
    where the C code returns a NULL pointer or reads past a buffer. */
module Wrappers {

  datatype Option<+T> = None | Some(value: T)

  datatype Result<+R, +E> = Success(value: R) | Failure(error: E)
}
