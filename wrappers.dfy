/** Option and Result, the two failure-carrying shapes the Go code uses:
    a nil-able pointer or error result, and a (value, error) pair. */
module Wrappers {

  /** `None` stands for Go's nil. */
  datatype Option<+T> = None | Some(value: T)

  datatype Result<+R, +E> = Success(value: R) | Failure(error: E)
}
