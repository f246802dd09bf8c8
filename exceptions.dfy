/**
 * The exceptions the machine's collaborators may throw, and the result of one call
 * into a collaborator: the value it returns or the exception it throws.
 */
module Exceptions {

  /** What a failing call throws: the application's own AppException, or anything else. */
  datatype Failure =
    | AppException(message: string)  // carries a message meant for the user
    | OtherException(detail: string) // I/O or parse faults; their text is never meant for display

  /** The outcome of one call into a collaborator. */
  datatype Step<+T> = Done(value: T) | Raised(failure: Failure)
}
