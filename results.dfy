/** Failure-carrying return values used across the model: the Go code panics,
    returns a zero value or calls os.Exit, and each of these becomes an
    explicit result here. */
module Results {

  datatype Option<+T> = None | Some(value: T)

  datatype Result<+T, +E> = Ok(value: T) | Err(error: E)

  /** The outcome of an interactive prompt: a value, or "Aborting" followed by
      os.Exit(1) when the prompt itself fails (Ctrl-C, closed terminal). */
  datatype Answer<+T> = Value(value: T) | Abort
}
