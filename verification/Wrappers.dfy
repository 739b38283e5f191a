/** Optional values and results that carry the SDK's exceptions. */
module Wrappers {
  datatype Option<+T> = None | Some(value: T) {
    function GetOr(default: T): T {
      if Some? then value else default
    }
  }

  /** The exceptions (featurebyte/exception.py and Python built-ins) the modelled code raises. */
  datatype Error =
    | RecordRetrievalException
    | RecordCreationException
    | RecordUpdateException
    | DuplicatedRecordException
    | ObjectHasBeenSavedError
    | KeyError
    | ValueError
    | ZeroDivisionError
    | RepeatedColumnNamesError

  datatype Result<+T> = Success(value: T) | Failure(error: Error) {
    predicate IsFailure() { Failure? }
    function PropagateFailure<U>(): Result<U>
      requires Failure?
    {
      Failure(error)
    }
    function Extract(): T
      requires Success?
    {
      value
    }
  }
}
