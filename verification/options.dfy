/** Optional values, and results that carry the error the browser code throws. */
module Options {

  /** A value that may be absent. */
  datatype Option<+T> = None | Some(value: T)

  /** Either a value or the error the browser code throws. */
  datatype Result<+T, +E> = Ok(value: T) | Err(error: E)
}
