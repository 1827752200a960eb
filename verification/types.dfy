/** Failure-carrying values shared by the whole model. */
module Types {

  /** A value that may be absent: Python's `None` or a missing response field. */
  datatype Option<+T> = None | Some(value: T)

  /** The exceptions the engine can raise. */
  datatype Error =
    | EmptyMax                  // `max()` over an empty sequence: nobody is alive
    | UnknownRole(name: string) // `create_role` with a name it does not know

  /** The outcome of an operation that may raise. */
  datatype Result<+T> = Ok(value: T) | Fail(error: Error)
}
