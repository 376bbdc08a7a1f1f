/** Results of the core's operations: a value, or one of the four exception
    kinds the core raises (ValidationException, NotFoundException,
    EntityNotFoundException, FailureException). */
module Outcomes {

  /** A value that may be absent: Java's `null` return of a map lookup. */
  datatype Option<+T> = None | Some(value: T)

  /** The error kinds of the core. */
  datatype ErrorKind =
    | Validation      // a business rule on the supplied record is violated
    | NotFound        // the stores and the user service: an id is unknown or negative, or a pairing does not exist
    | EntityNotFound  // the film service's own checks: an id is unknown or negative
    | Failure         // the operation makes no sense in the current state

  /** Either the operation's value or the error it was aborted with. */
  datatype Result<+T> = Ok(value: T) | Err(error: ErrorKind)
}
