/** Failure-carrying values shared by every store: Go's `(T, error)` and bare `error` returns. */
module Results {

  datatype Option<+T> = None | Some(value: T)

  /** A value or the text of the Go `error` returned beside it. */
  datatype Result<+T> = Ok(value: T) | Err(error: string)

  /** A Go function that returns only an `error`: `nil` is `Done`. */
  datatype Outcome = Done | Failed(error: string)
}
