/** Optional values and the outcome of a model-layer validator. */
module Wrappers {

  datatype Option<+T> = None | Some(value: T)

  /** A validator either returns the (possibly normalised) value or raises
      a `ValueError` carrying a message. */
  datatype Result<+T> = Ok(value: T) | Err(message: string)
}
