/** The failure messages of the string checks that embed rendered values:
    the rendered text has its braces doubled, so that formatting the message
    with the label of the checked value as `{0}` leaves it as it was. */
module CheckMessages {
  import opened Outcomes
  import opened Numerals
  import opened CompositeFormat

  /** `ToStringProperlyFormatted` of a list. */
  type ListRenderer = seq<string> -> string

  /** The failure message, `The {0} does not contain the expected value(s): `
      followed by the rendered list with its braces doubled. Formatted with
      the checked value's label as `{0}`, it names the label and then lists
      the missing values exactly as rendered, braces included. */
  function MissingValuesMessage(missing: seq<string>, render: ListRenderer): (m: string)
    ensures forall args: seq<string> | |args| >= 1 ::
              Format(m, args) == Some("The " + (args[0] + (MissingValuesText + render(missing))))
  {
    var m := "The " + (Hole(0) + (MissingValuesText + DoubleBraces(render(missing))));
    assert forall args: seq<string> | |args| >= 1 ::
             Format(m, args) == Some("The " + (args[0] + (MissingValuesText + render(missing)))) by {
      forall args: seq<string> | |args| >= 1
        ensures Format(m, args) == Some("The " + (args[0] + (MissingValuesText + render(missing))))
      {
        MessageTextsHaveNoBraces();
        OneHoleMessageAtEnd("The ", MissingValuesText, render(missing), args);
      }
    }
    m
  }

  const MissingValuesText := " does not contain the expected value(s): "

  /** The negated message, `The {0} contains unauthorized value(s): ` followed
      by the rendered list with its braces doubled. Formatted, it names the
      label and then lists the present values exactly as rendered. */
  function UnauthorizedValuesMessage(present: seq<string>, render: ListRenderer): (m: string)
    ensures forall args: seq<string> | |args| >= 1 ::
              Format(m, args) == Some("The " + (args[0] + (UnauthorizedValuesText + render(present))))
  {
    var m := "The " + (Hole(0) + (UnauthorizedValuesText + DoubleBraces(render(present))));
    assert forall args: seq<string> | |args| >= 1 ::
             Format(m, args) == Some("The " + (args[0] + (UnauthorizedValuesText + render(present)))) by {
      forall args: seq<string> | |args| >= 1
        ensures Format(m, args) == Some("The " + (args[0] + (UnauthorizedValuesText + render(present))))
      {
        MessageTextsHaveNoBraces();
        OneHoleMessageAtEnd("The ", UnauthorizedValuesText, render(present), args);
      }
    }
    m
  }

  const UnauthorizedValuesText := " contains unauthorized value(s): "

  lemma MessageTextsHaveNoBraces()
    ensures NoBraces("The ") && NoBraces(OnceText)
    ensures NoBraces(MissingValuesText) && NoBraces(UnauthorizedValuesText)
  {
  }

  /** The failure message of `Once`: `The {0} contains `, the rendered value
      with its braces doubled, and the two positions where it was found.
      Formatted, it names the label, the value exactly as rendered, then both
      positions. */
  function OnceMessage(v: string, first: int, second: int, render: string -> string): (m: string)
    ensures forall args: seq<string> | |args| >= 1 ::
              Format(m, args) == Some("The " + (args[0] + (OnceText + (render(v) + OncePositions(first, second)))))
  {
    var m := "The " + (Hole(0) + (OnceText + (DoubleBraces(render(v)) + OncePositions(first, second))));
    assert forall args: seq<string> | |args| >= 1 ::
             Format(m, args) == Some("The " + (args[0] + (OnceText + (render(v) + OncePositions(first, second))))) by {
      forall args: seq<string> | |args| >= 1
        ensures Format(m, args) == Some("The " + (args[0] + (OnceText + (render(v) + OncePositions(first, second)))))
      {
        OncePositionsHaveNoBraces(first, second);
        MessageTextsHaveNoBraces();
        OneHoleMessage("The ", OnceText, render(v), OncePositions(first, second), args);
      }
    }
    m
  }

  const OnceText := " contains "

  function OncePositions(first: int, second: int): string {
    " at " + IntToString(first) + " and " + IntToString(second) + ", where as it must contains it once."
  }

  lemma OncePositionsHaveNoBraces(first: int, second: int)
    ensures NoBraces(OncePositions(first, second))
  {
    var a, b := IntToString(first), IntToString(second);
    NumeralHasNoBraces(first);
    NumeralHasNoBraces(second);
    assert NoBraces(" at ") && NoBraces(" and ") && NoBraces(", where as it must contains it once.");
    NoBracesConcat(" at ", a);
    NoBracesConcat(" at " + a, " and ");
    NoBracesConcat(" at " + a + " and ", b);
    NoBracesConcat(" at " + a + " and " + b, ", where as it must contains it once.");
  }
}
