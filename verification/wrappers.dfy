/** Optional values and fallible results, used for SQL NULL columns, the
    possibly-missing fields of a JSON request body and failing statements. */
module Wrappers {

  /** A value that may be absent: SQL NULL, or a key missing from a JSON body. */
  datatype Option<+T> = None | Some(value: T)

  /** The outcome of a statement that may fail. */
  datatype Result<+T, +E> = Ok(value: T) | Err(error: E)
}
