/** Optional values and the outcome of an operation that may throw. */
module Wrappers {

  datatype Option<+T> = None | Some(value: T)

  /** The JavaScript exceptions the modelled core raises: reading the format byte of an
      empty buffer throws a RangeError, `JSON.parse` of malformed text a SyntaxError. The
      socket's own errors and `zip`'s TypeError on `undefined` lie outside the model. */
  datatype Exception = RangeError | SyntaxError

  datatype Result<+T> = Ok(value: T) | Err(error: Exception)

  /** The outcome of a handler that returns nothing but may throw. */
  datatype Outcome = Pass | Fail(error: Exception)
}
