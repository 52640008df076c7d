/**
 * The error value and the exception that the parameter-validation helpers produce.
 *
 * A helper reports an invalid argument as a `Validation` error carrying an optional
 * message, and a valid one as the `NoError` sentinel meaning "checked, nothing wrong".
 */
module Errors {
  import opened Wrappers

  datatype Error =
    | NoError
    | Validation(message: Option<string>)

  /** `ArgumentOutOfRangeException(paramName, message)`; the message may be null. */
  datatype ArgumentOutOfRange = ArgumentOutOfRange(paramName: string, message: Option<string>)

  /** How a `void` helper that may throw completes: it returns normally, or it throws. */
  datatype Completion = Returned | Threw(exception: ArgumentOutOfRange)
}
