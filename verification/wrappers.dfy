/** Failure-carrying datatypes: JavaScript's `null` result and the
    `(err, value)` callback convention become Option and Result. */
module Wrappers {

  /** A value or nothing; `None` plays the part of JavaScript's `null`. */
  datatype Option<+T> = None | Some(value: T)

  /** A value or an error, as delivered to a Node.js callback. */
  datatype Result<+T, +E> = Success(value: T) | Failure(error: E)
}
