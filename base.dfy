/** Small shared vocabulary: bytes and the usual failure-carrying wrappers. */
module Base {

  /** An 8-bit unsigned value, Go's `byte` and `uint8`. */
  newtype byte = x: int | 0 <= x < 256

  datatype Option<+T> = None | Some(value: T)

  /** The value of a Go call that returns `(T, error)`: a value, or the reason it failed. */
  datatype Result<+T, +E> = Success(value: T) | Failure(error: E)
}
