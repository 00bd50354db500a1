/** Failure-carrying datatypes shared by the whole model. */
module Wrappers {

  /** A value that may be absent (Python's `Optional`, with `None`). */
  datatype Option<+T> = None | Some(value: T)

  /** The result of an operation that either produces a value or raises. */
  datatype Result<+T, +E> = Ok(value: T) | Err(error: E)

  /** Whether an in-place mutation completed or raised (Python's exception). */
  datatype Outcome<+E> = Pass | Fail(error: E)
}

/** The closed set of errors the core can raise. */
module Errors {

  datatype Error =
    /** `Phone._validate`: "Phone must contain exactly 10 digits". */
    | InvalidPhone
    /** `Birthday.__init__`: "Invalid date format. Use DD.MM.YYYY". */
    | InvalidDate
    /** `Record.edit_phone`: "Old phone not found". */
    | OldPhoneNotFound
    /** `date.replace` with a year outside 1..9999. */
    | YearOutOfRange(year: int)
    /** `date.replace` onto a month that is too short (29 February in a common year). */
    | DayOutOfRange
    /** `date + timedelta` beyond 31.12.9999 (Python's `OverflowError`). */
    | DateOverflow
}
