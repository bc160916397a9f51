/** Shared result types.  The Go sources report failure in two ways: an `error`
    value handed back to the caller, or a panic (`log.Panicln`, a nil-pointer
    call, an index out of range).  Both are values here. */
module Common {

  /** Go's nil-or-value: a nil interface or pointer is `None`. */
  datatype Option<+T> = None | Some(value: T)

  /** A value or the text of the `error` that replaced it. */
  datatype Result<+T> = Success(value: T) | Failure(error: string)

  /** How an operation that returns only an `error` ended. */
  datatype Status = Ok | Err(msg: string) | Panic(msg: string)
}
