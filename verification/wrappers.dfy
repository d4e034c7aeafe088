/** Failure-carrying datatypes shared by the allocation model. */
module Wrappers {

  /** An optional value: a request field that may be absent, a lookup that may miss. */
  datatype Option<+T> = None | Some(value: T)

  /** The outcome of a controller action: a value, or the error it reports. */
  datatype Result<+T, +E> = Success(value: T) | Failure(error: E)
}
