/** Failure-carrying datatypes shared by the cache, sweep and encoder models. */
module Wrappers {

  /** A value that may be missing: Go's `(T, ok bool)` and "nil or T" shapes. */
  datatype Option<+T> = None | Some(value: T)

  /** The outcome of a Go call that returns only an `error`: `Pass` is `nil`. */
  datatype Outcome<+E> = Pass | Fail(error: E)
}
