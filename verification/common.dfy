/** Failure-carrying values shared by the other modules. */
module Common {

  datatype Option<T> = None | Some(value: T)

  /** A value or the error that replaced it (Go's `(T, error)` pair, or a pointer written on success). */
  datatype Result<T, E> = Success(value: T) | Failure(error: E)

  /** Success without a value, or an error (Go's bare `error` return, `nil` being Pass). */
  datatype Outcome<E> = Pass | Fail(error: E)
}
