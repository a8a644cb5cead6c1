/** Error kinds the engine raises, and the Result and Option wrappers used to
    model an operation that either completes or throws. */
module Errors {

  /** The exceptions of methuselah.h: InvalidOperationException,
      NotImplementedException, and std::out_of_range thrown by setValue. */
  datatype Error = InvalidOperation | NotImplemented | OutOfRange

  datatype Result<T> = Ok(value: T) | Err(error: Error)

  /** The outcome of an operation that returns nothing. */
  datatype Outcome = Pass | Fail(error: Error)

  /** A nullable pointer: None is nullptr. */
  datatype Option<T> = None | Some(value: T)
}
