/** Results of container operations: Java's null return and the exceptions
    the containers throw, as values. */
module Outcomes {

  /** A possibly absent value: `None` stands for Java's `null` result. */
  datatype Option<+T> = None | Some(value: T)

  /** The unchecked exceptions the containers throw. */
  datatype Error =
    | IndexOutOfBounds
    | NoSuchElement
    | IllegalState
    | UnsupportedOperation
    | NullPointer

  /** The outcome of a call that either returns a value or throws. A `void`
      operation returns `Ok(())`. */
  datatype Result<+T> = Ok(value: T) | Err(error: Error)
}
