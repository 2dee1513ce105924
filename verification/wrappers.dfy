/** Option and Result, plus the exceptions the library raises. */
module Wrappers {

  datatype Option<+T> = None | Some(value: T)

  /** The Python exceptions that escape the modelled operations. */
  datatype Fault =
    | ValueError         // unparseable text, `maxunits < 1`, a `replace` outside the calendar
    | TypeError          // a constructor input of an unsupported kind
    | OverflowError      // `timedelta(...)` or `datetime + timedelta` out of range, or a year beyond a C int
    | ZeroDivisionError  // a duration divided by zero
    | DateRangeError     // `allowpast` / `allowfuture` violated
    | RuntimeError       // an OrderedDict mutated while iterated (as-written rendering only)
    | AttributeError     // a `datetime.time` given to the constructor, which has no `timetuple`

  datatype Result<+T> = Ok(value: T) | Err(fault: Fault) {

    predicate IsFailure() {
      Err?
    }

    function PropagateFailure<U>(): Result<U>
      requires Err?
    {
      Err(fault)
    }

    function Extract(): T
      requires Ok?
    {
      value
    }
  }
}
