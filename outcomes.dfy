/** The exceptions the student record store raises, and the values that carry them. */
module Outcomes {

  /** The Python exception classes raised by the record store. */
  datatype Error =
    | ValueError      // invalid name, grade, test score, or unknown subject for an average
    | AttributeError  // attribute-style lookup of an unregistered subject
    | IndexError      // an empty row (no first field) met while loading

  /** A returned value, or the exception raised instead of returning. */
  datatype Result<T> = Ok(value: T) | Err(error: Error)

  /** Completion of an operation that returns `None`: it finished, or it raised. */
  datatype Status = Done | Raised(error: Error)

  /** An optional value, used by the parsers that invert the text encodings. */
  datatype Option<T> = None | Some(value: T)
}
