/** Option and Result values used for lookups that can miss and for the
    decoders' error returns. */
module Wrappers {

  /** A value that may be absent (a dictionary `get` that misses). */
  datatype Option<+T> = None | Some(value: T)

  /** Either a decoded value or the reason decoding stopped. */
  datatype Result<+T, +E> = Ok(value: T) | Err(error: E)
}
