/** What a computation that may throw hands back: its value, or the error it throws. */
module Outcomes {

  datatype Option<+T> = None | Some(value: T)

  /** `Throw` stands for the source's thrown `Error`; only its kind is kept, not its prose. */
  datatype Outcome<+T> = Ok(value: T) | Throw(error: ErrorKind) {
    predicate IsFailure() {
      Throw?
    }

    function PropagateFailure<U>(): Outcome<U>
      requires Throw?
    {
      Throw(error)
    }

    function Extract(): T
      requires Ok?
    {
      value
    }
  }

  datatype ErrorKind =
    | InvalidDate          // RangeError from `toISOString` on an invalid `Date`
    | NotACalendarDate     // the club calendar kernel refuses the string
    | NotAMonthHeading     // text that is not a calendar month heading
    | NoWindow             // an allocator ran out of weeks, or the window is taken
    | BadArgument          // an argument outside the range the function documents
    | NotReached           // the calendar walk spent its hops elsewhere
    | UnclosedModel        // a schema block whose braces never close
}
