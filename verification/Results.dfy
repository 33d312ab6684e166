/** Optional values, results, and the error cases the modelled code can return. */
module Results {

  datatype Option<+T> = None | Some(value: T)

  datatype Result<+T, +E> = Ok(value: T) | Err(error: E)

  /** What came back from a downstream call: an HTTP status, or a transport error. */
  datatype Outcome = Status(code: nat) | Transport(message: string)

  datatype AppError =
    | NoKeysAvailable
    | Downstream(cause: Outcome)
    | Internal(message: string)
}
