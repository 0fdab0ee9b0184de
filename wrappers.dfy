/** Failure-carrying results shared by the blog modules. */
module Wrappers {

  /** A value that may be absent: JavaScript's `null`/`undefined` returns. */
  datatype Option<+T> = None | Some(value: T)

  /** The outcome of a call that may throw: `Failure` carries the thrown message. */
  datatype Result<+T> = Success(value: T) | Failure(error: string)
}
