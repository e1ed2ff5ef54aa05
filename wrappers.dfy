/** Failure-carrying values used for the error returns of the gateway's functions. */
module Wrappers {

  datatype Option<+T> = None | Some(value: T)

  /** A value or the error that replaced it (Go's `(T, error)` pair). */
  datatype Result<+R, +E> = Success(value: R) | Failure(error: E)

  /** Only an error, no value (Go's bare `error` return, `nil` being Pass). */
  datatype Outcome<+E> = Pass | Fail(error: E)

  function Min(a: int, b: int): int
  {
    if a <= b then a else b
  }
}

/** Raw file and body contents. */
module Bytes {

  newtype byte = x: int | 0 <= x < 256
}
