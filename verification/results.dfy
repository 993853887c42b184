/** Failure-compatible result of a cleaning step.  The source has no error handling
    of its own: a missing column, an unparseable date, an out-of-range index or a missing value raises
    and aborts the whole cleaning call.  Each such exception is a `CleanError` here. */
module Results {

  /** Why a cleaning call aborts. */
  datatype CleanError =
    | MissingColumn(name: string)      // KeyError / AttributeError on a column lookup
    | UnparseableDate(column: string)  // the date parser rejected a value of this column
    | EmptyPhone                        // IndexError: `[0]` on an empty GB phone number
    | MissingValue(column: string)      // TypeError: string concatenation on a missing value

  datatype Result<+T> = Ok(value: T) | Err(error: CleanError) {

    predicate IsFailure() {
      Err?
    }

    function PropagateFailure<U>(): Result<U>
      requires Err?
    {
      Err(error)
    }

    function Extract(): T
      requires Ok?
    {
      value
    }

    /** Forgets which error occurred. */
    function ToOption(): Option<T> {
      match this
      case Ok(v) => Some(v)
      case Err(_) => None
    }
  }

  datatype Option<+T> = None | Some(value: T)
}
