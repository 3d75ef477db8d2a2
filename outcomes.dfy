/** Shared vocabulary of the checks: a nullable reference, and what running a
    check's analysis produces. */
module Outcomes {

  /** A .NET reference that may be null: `None` is null. */
  datatype Option<+T> = None | Some(value: T)

  /** Why a check failed. */
  datatype Failure =
    | Says(text: string)   // a FluentCheckException with a message template built by the check itself
    | NullSut              // the harness's FailIfNull guard tripped; its wording belongs to the harness

  /** Exceptions other than FluentCheckException: they are never intercepted by negation. */
  datatype RuntimeError =
    | ArgumentOutOfRange         // String.IndexOf given a start index past the end of the string
    | NegationRefused(check: string)  // CantBeNegated: InvalidOperationException "<check> can't be used when negated"

  /** What running a check produces: success (a link is returned), a check failure, or another exception. */
  datatype Verdict = Pass | Fail(why: Failure) | Error(error: RuntimeError)

  /** A non-negated check's verdict, together with the message its negated form
      fails with when the non-negated check passes (`OnNegate`). `onNegate` is
      `None` where the check never reaches the code that sets it. */
  datatype Checked = Checked(verdict: Verdict, onNegate: Option<string>)
  {
    /** A passing check always carries its negated message. */
    predicate WellFormed() {
      verdict.Pass? ==> onNegate.Some?
    }
  }
}
