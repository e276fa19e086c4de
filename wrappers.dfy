/** Failure-carrying values shared by every module of the model: the Python
    exceptions the pipeline raises become the `Failure` side of a `Result`. */
module Wrappers {

  datatype Option<+T> = None | Some(value: T)

  /** The exception kinds the modelled code raises or lets escape. */
  datatype PyError =
    | KeyError(key: string)        // an explicit `raise KeyError` or a missing dict key
    | ValueError(message: string)  // an explicit `raise ValueError` or a pandas argument check
    | IndexError(position: int)    // positional indexing outside a table
    | TypeError(message: string)   // an operation applied to `None`
    | ReadError(path: string)      // a file that is absent or holds the wrong kind of content

  datatype Result<+R> = Success(value: R) | Failure(error: PyError) {
    predicate IsFailure() { Failure? }

    function PropagateFailure<U>(): Result<U>
      requires Failure?
    {
      Failure(error)
    }

    function Extract(): R
      requires Success?
    {
      value
    }
  }
}
