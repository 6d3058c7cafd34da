/** Value types shared by every part of the model. */
module Common {

  /** Go's "pointer or nil": the absent case of a nullable result. */
  datatype Option<+T> = None | Some(value: T)

  /** A value or the error that replaced it. */
  datatype Result<+T, +E> = Ok(value: T) | Err(error: E)

  /** One octet of a Go byte slice. */
  newtype byte = x: int | 0 <= x < 256
}
