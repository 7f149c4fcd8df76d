/** Option and Result, the failure-carrying values the model uses for
    Python's `None` lookups and raised exceptions. */
module Wrappers {

  datatype Option<+T> = None | Some(value: T)

  datatype Result<+T, +E> = Success(value: T) | Failure(error: E)

  /** The Python exceptions the modelled code can raise. */
  datatype PyError =
    | KeyError(key: string)   // a dictionary lookup with a missing key
    | IndexError              // `row[-1]` on a row that is too short
    | TypeError               // item assignment on a string
}
