/** The optional values and two-valued results the other modules share. */
module Wrappers {

  datatype Option<+T> = None | Some(value: T)

  datatype Result<+T, +E> = Success(value: T) | Failure(error: E)

  // One octet of a key, a payload or a signature.
  newtype byte = x: int | 0 <= x < 256
}
