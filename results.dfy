/** Optional values and error-or-value results, used wherever the Go code
    returns nil, returns an error value, or panics. */
module Results {
  datatype Option<+T> = None | Some(value: T)

  datatype Result<+T, +E> = Ok(value: T) | Err(error: E)
}
