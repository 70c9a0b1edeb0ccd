/** Failure-compatible wrappers: Option for Java's nullable references and
    Result for a call that either returns or throws. */
module Wrappers {

  /** A value that may be absent; `None` plays the part of Java's `null`. */
  datatype Option<+T> = None | Some(value: T)

  /** The outcome of a call: it returns `value`, or it throws `error`. */
  datatype Result<+R, +E> = Success(value: R) | Failure(error: E)
}
