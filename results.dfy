/** Failure-carrying values shared by the modules of this model. */
module Results {

  /** A value that may be absent (a missing request field, no failure yet). */
  datatype Option<+T> = None | Some(value: T)

  /** The outcome of a call into an external service: a value, or the
      message of the exception it raised (`e.message` in the handlers). */
  datatype Outcome<+T> = Ok(value: T) | Err(message: string)

  function Min(a: int, b: int): int
  {
    if a <= b then a else b
  }
}
