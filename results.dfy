/** Option and Result values shared by the modules of this model. */
module Results {

  /** A value that may be missing (`null` / `undefined` in the source). */
  datatype Option<+T> = None | Some(value: T)

  /** A computation that either produces a value or fails with an error (a thrown exception in the source). */
  datatype Result<+T, +E> = Ok(value: T) | Err(error: E)
}
