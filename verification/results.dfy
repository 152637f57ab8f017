/**
  Option and Result values standing in for Java's `Optional` and for a
  constructor that either returns an object or throws.
 */
module Results {

  datatype Option<+T> = None | Some(value: T)

  datatype Result<+T, +E> = Ok(value: T) | Err(error: E)
}
