/** Optional and fallible values shared by the decoders, the loader and the exporter. */
module Outcomes {

  /** A value that may be absent: a decoder that ran out of bytes, a file that could not be opened. */
  datatype Option<+T> = None | Some(value: T)

  /** The outcome of an operation that either produces a value or reports why it could not. */
  datatype Result<+T, +E> = Ok(value: T) | Err(error: E)
}
