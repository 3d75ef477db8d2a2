/** How a check runs under negation: `Checker.ExecuteCheck` runs the
    happy-path action and turns its outcome into a returned link or an
    exception according to the `Negated` flag. */
module Checker {
  import opened Outcomes

  /** `action` is what running the happy-path lambda produced: `Pass` when it
      returned, `Fail` when it raised a FluentCheckException, `Error` for any
      other exception. The result is `Pass` when a check link is returned,
      otherwise the exception that escapes. */
  function ExecuteCheck(action: Verdict, negated: bool, negatedExceptionMessage: string): (r: Verdict)
    // only a check failure is intercepted; other exceptions escape in both modes
    ensures action.Error? ==> r == action
    // a link is returned exactly when the failure (or its absence) is what the mode asks for
    ensures !action.Error? ==> (r.Pass? <==> (action.Fail? == negated))
    // not negated: a check failure is rethrown unchanged
    ensures action.Fail? && !negated ==> r == action
    // negated and the action passed: fails with exactly the negated message
    ensures action.Pass? && negated ==> r == Fail(Says(negatedExceptionMessage))
  {
    match action
    case Fail(_) => if !negated then action else Pass
    case Error(_) => action
    case Pass => if negated then Fail(Says(negatedExceptionMessage)) else Pass
  }

  /** `check.Not.X(...)`: runs X's analysis negated, failing with X's
      negated message when X passes. */
  function Negate(c: Checked): (r: Verdict)
    requires c.WellFormed()
    ensures c.verdict.Pass? ==> r == Fail(Says(c.onNegate.value))
    ensures c.verdict.Fail? ==> r == Pass
    ensures c.verdict.Error? ==> r == c.verdict
  {
    // a failed check's negated message is never used
    ExecuteCheck(c.verdict, true, if c.onNegate.Some? then c.onNegate.value else "")
  }
}
