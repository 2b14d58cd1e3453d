/**
 * The shared vocabulary of wrestool: the error kinds an operation reports
 * and the outcome type that carries either a value or one of them.
 */
module Wres {

  /**
   * The `wres_error` kinds.  `OutOfBounds` is the model's own: it marks the
   * places where the program reads or writes outside its buffer without a
   * preceding check, which is undefined behaviour in C.
   */
  datatype WresError =
    | Unknown
    | OutOfMemory
    | ResNotFound
    | WrongFormat
    | NoResDir
    | PrematureEnd
    | NoResources
    | InvalidResTable
    | InvalidParam
    | UnsupportedResType
    | InvalidSecLayout
    | InvalidDib
    | OutOfBounds

  datatype Option<T> = None | Some(value: T)

  datatype Result<T> = Ok(value: T) | Err(error: WresError)
  {
    predicate IsFailure() { Err? }

    function PropagateFailure<U>(): Result<U>
      requires Err?
    {
      Err(error)
    }

    function Extract(): T
      requires Ok?
    {
      value
    }
  }
}
