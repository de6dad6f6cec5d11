/** Failure-carrying values: the Go `(value, error)` return pairs and
    `error`-or-nil results of the licensing tool, as Dafny datatypes. */
module Wrappers {

  /** A value that may be absent: an error that may be nil, or a lookup
      that may fail. */
  datatype Option<+T> = None | Some(value: T)

  /** Either a value or an error, in place of Go's `(T, error)` pair. */
  datatype Result<+T, +E> = Success(value: T) | Failure(error: E)
}
