/** Failure-compatible result types shared by the other modules. */
module Wrappers {

  /** A value that may be missing: Go's nil pointer or an `ok == false` lookup. */
  datatype Option<+T> = None | Some(value: T)

  /** A value or the error Go would have returned beside it. */
  datatype Result<+T, +E> = Success(value: T) | Failure(error: E)

  /** An operation that only returns an `error` in Go: nil is Pass. */
  datatype Outcome<+E> = Pass | Fail(error: E)

  function Abs(x: int): (r: int)
    ensures r >= 0 && (r == x || r == -x)
  {
    if x < 0 then -x else x
  }

  function Max(a: int, b: int): (r: int)
    ensures r >= a && r >= b && (r == a || r == b)
  {
    if a < b then b else a
  }
}
