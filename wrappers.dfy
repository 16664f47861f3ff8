/** Option, the Python exceptions that the modelled code raises or lets
    escape, and a Result type that carries either a value or such an
    exception. */
module Wrappers {

  datatype Option<+T> = None | Some(value: T)

  /** Exception kinds, not Python classes: `ValueError` covers ValueError and
      its subclasses (the `packaging` library's InvalidVersion), `ClientError`
      covers aiohttp's ClientError and ClientConnectionError. */
  datatype Raised =
    | ValueError
    | ClientError
    | VerificationError
    | NotImplementedError
    | IndexError
    | KeyError

  datatype Result<+T> = Ok(value: T) | Fail(error: Raised) {

    predicate IsFailure() {
      Fail?
    }

    function PropagateFailure<U>(): Result<U>
      requires Fail?
    {
      Fail(error)
    }

    function Extract(): T
      requires Ok?
    {
      value
    }
  }
}
