/** Optional values and results shared by the other modules. */
module Common {

  /** A value that may be missing; `None` stands for JavaScript's `null`. */
  datatype Option<T> = None | Some(value: T)

  /** The outcome of a check that either yields a value or an error. */
  datatype Result<T, E> = Ok(value: T) | Err(error: E)

  function Max(a: int, b: int): int
  {
    if a >= b then a else b
  }
}
