/** Failure-compatible result types shared by the whole model. */
module Wrappers {

  /** The value of a Python call that either returns or raises. */
  datatype Result<+T, +E> = Ok(value: T) | Err(error: E) {

    predicate IsFailure() {
      Err?
    }

    function PropagateFailure<U>(): Result<U, E>
      requires Err?
    {
      Err(error)
    }

    function Extract(): T
      requires Ok?
    {
      value
    }
  }

  /** A Python statement that either completes or raises. */
  datatype Outcome<+E> = Pass | Fail(error: E)
}

/**
 * The Python exceptions the pipeline can raise, one constructor per cause.
 * Messages are kept only where they identify the cause.
 */
module Exceptions {

  datatype Exception =
    /** `df.Cabin` / `df.Name` on a frame without that column, or `.replace` on a key that is not a string */
    | AttributeError(attribute: string)
    /** pandas' "Columns must be same length as key" when a list of column labels is assigned a frame */
    | ColumnsLengthMismatch(keys: nat, width: nat)
    /** `ValueError` from `int()`: a literal that is not a base-10 integer, or one with more digits than `int()` reads */
    | InvalidIntLiteral(literal: string)
    /** `OverflowError`: a parsed integer too large for the C `long` the cast to `int32` goes through */
    | LongOverflow(value: int)
    /** `frame[label]` for an integer column label the expanded frame does not have */
    | MissingColumnLabel(column: int)
    /** a dictionary lookup of a missing key in the event (`[0]` on a dictionary reports the key as "0") */
    | KeyError(key: string)
    /** `[0]` on an empty list or string in the event */
    | IndexError
    /** subscripting an event value that does not support it */
    | TypeError
    /** anything raised by the object store, the CSV reader or writer (opaque to this model) */
    | ServiceError(reason: string)
}
