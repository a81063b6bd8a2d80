/** Optional and result types shared by the modules of this model. */
module Results {

  /** A value, or nothing. */
  datatype Option<+T> = None | Some(value: T)

  /** Either a value or the error that prevented computing it. */
  datatype Result<+T, +E> = Ok(value: T) | Err(error: E)
}
