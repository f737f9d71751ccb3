/** Failure values of the backend and the failure-compatible Result they travel in.

    Every request either succeeds or ends in one of two ways:
    - an `HttpError(status, description)`, which the error handler turns into a JSON body
      `{"error <status>": <description>}` with that status, or
    - an exception the request layer does not catch (`Uncaught`), which the web framework
      answers with a generic server error.
 */
module Errors {

  datatype Option<+T> = None | Some(value: T)

  /** One pydantic validation error as reported to the client: the `ctx` entry is gone. */
  datatype Issue = Issue(kind: string, loc: string, msg: string)

  /** The description of an `HttpError`: a plain message or a validation issue. */
  datatype Description = Message(text: string) | Invalid(issue: Issue)

  /** Errors the relational store can raise while committing a row. */
  datatype DbError =
    | DataError            // a value that does not fit its column (e.g. a varchar overflow)
    | NotNullViolation
    | UniqueViolation
    | ForeignKeyViolation

  /** Exceptions that escape the request layer unchanged. */
  datatype Fault =
    | Database(error: DbError)   // a store error other than a uniqueness violation
    | ValidatorTypeError         // a field validator handed `None`
    | MissingAttribute           // an attribute the object does not define

  datatype Failure =
    | HttpError(status: int, description: Description)
    | Uncaught(fault: Fault)

  datatype Result<+T> = Ok(value: T) | Fail(failure: Failure) {

    predicate IsFailure() {
      Fail?
    }

    function PropagateFailure<U>(): Result<U>
      requires Fail?
    {
      Fail(failure)
    }

    function Extract(): T
      requires Ok?
    {
      value
    }
  }

  /** Shorthand for an `HttpError` carrying a plain message. */
  function Http<T>(status: int, text: string): Result<T> {
    Fail(HttpError(status, Message(text)))
  }
}
