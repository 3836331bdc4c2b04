/** Option, the Python exceptions the converters raise, and a failure-compatible
    Result so that `:-` propagates an exception the way Python unwinds. */
module Wrappers {

  datatype Option<+T> = None | Some(value: T)

  /** The exception classes raised by the modelled code. The message text of
      lxml-rendered elements is not modelled, only the kind and a short text. */
  datatype Exception =
    | ValueError(msg: string)
    | KeyError(key: string)
    | AttributeError(msg: string)
    | TypeError(msg: string)
    | IndexError(msg: string)
    | AssertionError(msg: string)
    | NotImplementedError(msg: string)

  datatype Result<+T> = Ok(value: T) | Err(error: Exception) {
    predicate IsFailure() { Err? }

    function PropagateFailure<U>(): Result<U>
      requires Err?
    {
      Err(error)
    }

    function Extract(): T
      requires Ok?
    {
      value
    }
  }
}
