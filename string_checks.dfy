/** The checks on a (nullable) string: equality, membership in a list of
    possible values, containment of several values, emptiness, and wildcard
    matching, each as its non-negated analysis plus the message its negated
    form uses; and the two negated aliases. */
module StringChecks {
  import opened Outcomes
  import opened Ordinal
  import opened Checker
  import opened RegexPatterns
  import opened CompositeFormat
  import opened CheckMessages

  // ---- IsEqualTo, IsEqualIgnoringCase, IsNotEqualTo ----

  /** `StringDifference.Analyze` followed by `SummaryMessage`: `None` when it
      reports no difference (null or empty details), else the summary. */
  type Analyzer = (Option<string>, Option<string>, bool) -> Option<string>

  const EqualNegated := "The {0} is equal to the {1} whereas it must not."
  const NotNullMessage := "The {0} is not null whereas it must."
  const NullMessage := "The {0} is null whereas it must not."

  /** The shared body of the equality checks: the two null guards come first,
      then the difference analysis. */
  function PerformEqualCheck(sut: Option<string>, expected: Option<string>, ignoreCase: bool,
                             analyze: Analyzer): (c: Checked)
    ensures c.WellFormed() && c.onNegate == Some(EqualNegated) && !c.verdict.Error?
    // exactly one side null: a failure that the analysis is never asked about
    ensures expected.None? && sut.Some? ==> c.verdict == Fail(Says(NotNullMessage))
    ensures expected.Some? && sut.None? ==> c.verdict == Fail(Says(NullMessage))
    // otherwise: fails exactly when the analysis reports differences, with its summary
    ensures sut.None? == expected.None? ==>
              (c.verdict.Pass? <==> analyze(sut, expected, ignoreCase).None?)
    ensures sut.None? == expected.None? && analyze(sut, expected, ignoreCase).Some? ==>
              c.verdict == Fail(Says(analyze(sut, expected, ignoreCase).value))
  {
    var verdict :=
      if expected.None? && sut.Some? then Fail(Says(NotNullMessage))
      else if expected.Some? && sut.None? then Fail(Says(NullMessage))
      else match analyze(sut, expected, ignoreCase)
        case None => Pass
        case Some(summary) => Fail(Says(summary));
    Checked(verdict, Some(EqualNegated))
  }

  /** `IsEqualTo(string)`: passes when both are null or both are not, and the
      analysis reports no difference. */
  function IsEqualTo(sut: Option<string>, expected: Option<string>, analyze: Analyzer): (c: Checked)
    ensures c.WellFormed() && c.onNegate == Some(EqualNegated)
    ensures c.verdict.Pass? <==>
              sut.None? == expected.None? && analyze(sut, expected, false).None?
  {
    PerformEqualCheck(sut, expected, false, analyze)
  }

  /** `IsEqualIgnoringCase`: the same check with the analysis told to ignore case. */
  function IsEqualIgnoringCase(sut: Option<string>, comparand: Option<string>, analyze: Analyzer): (c: Checked)
    ensures c.WellFormed() && c.onNegate == Some(EqualNegated)
    ensures c.verdict.Pass? <==>
              sut.None? == comparand.None? && analyze(sut, comparand, true).None?
  {
    PerformEqualCheck(sut, comparand, true, analyze)
  }

  /** `IsNotEqualTo(string)` is `check.Not.IsEqualTo(expected)`. */
  function IsNotEqualTo(sut: Option<string>, expected: Option<string>, analyze: Analyzer): (r: Verdict)
    ensures r.Pass? <==> !IsEqualTo(sut, expected, analyze).verdict.Pass?
    ensures !r.Pass? ==> r == Fail(Says(EqualNegated))
  {
    Negate(IsEqualTo(sut, expected, analyze))
  }

  /** An analysis that reports a difference exactly for different strings
      and none for two nulls (as `StringDifference.Analyze` does in
      case-sensitive mode). */
  ghost predicate ReportsExactlyDifferences(analyze: Analyzer) {
    && analyze(None, None, false).None?
    && forall a: string, b: string :: analyze(Some(a), Some(b), false).None? <==> a == b
  }

  /** With such an analysis, equality of nullable strings is what `IsEqualTo`
      decides and `IsNotEqualTo` refutes. */
  lemma EqualityChecksDecideEquality(sut: Option<string>, expected: Option<string>, analyze: Analyzer)
    requires ReportsExactlyDifferences(analyze)
    ensures IsEqualTo(sut, expected, analyze).verdict.Pass? <==> sut == expected
    ensures IsNotEqualTo(sut, expected, analyze).Pass? <==> sut != expected
  {
    if sut.Some? && expected.Some? {
      assert analyze(Some(sut.value), Some(expected.value), false).None? <==> sut.value == expected.value;
    }
  }

  // ---- IsOneOfThese ----

  const NoOtherValueMessage := "The {0} must be null as there is no other possible value."
  const NotOneOfMessage := "The {0} is not one of the possible elements."
  const OneOfNegated := "The {0} is one of the possible elements whereas it must not."

  /** `possibleElements` is itself nullable, and so is each element; two
      strings are equal as `string.Equals` says (two nulls are equal). */
  function IsOneOfThese(sut: Option<string>, possibleElements: Option<seq<Option<string>>>): (c: Checked)
    ensures c.WellFormed() && c.onNegate == Some(OneOfNegated) && !c.verdict.Error?
    ensures possibleElements.None? ==> (c.verdict.Pass? <==> sut.None?)
    ensures possibleElements.Some? ==>
              (c.verdict.Pass? <==> exists k | 0 <= k < |possibleElements.value| :: possibleElements.value[k] == sut)
    ensures possibleElements.None? && sut.Some? ==> c.verdict == Fail(Says(NoOtherValueMessage))
    ensures possibleElements.Some? && !c.verdict.Pass? ==> c.verdict == Fail(Says(NotOneOfMessage))
  {
    var verdict :=
      if possibleElements.None? && sut.Some? then Fail(Says(NoOtherValueMessage))
      else if possibleElements.Some? && sut !in possibleElements.value then Fail(Says(NotOneOfMessage))
      else Pass;
    Checked(verdict, Some(OneOfNegated))
  }

  // ---- Contains, DoesNotContain ----

  /** The values of `values` that `String.Contains` finds in `s` (when
      `found`) or does not find (when `!found`), in their original order. */
  function Partition(s: string, values: seq<string>, found: bool): (r: seq<string>)
    ensures |r| <= |values|
    ensures forall v | v in r :: v in values && IsSubstring(v, s) == found
  {
    if values == [] then []
    else
      var last := values[|values| - 1];
      Partition(s, values[..|values| - 1], found) + (if IsSubstring(last, s) == found then [last] else [])
  }

  /** Every value lands in exactly one of the two lists: the present values
      all occur in `s`, the missing ones do not, and together they are the
      input counted with multiplicity. */
  lemma {:induction false} PartitionIsExact(s: string, values: seq<string>)
    ensures multiset(Partition(s, values, true)) + multiset(Partition(s, values, false)) == multiset(values)
    ensures forall v | v in Partition(s, values, true) :: IsSubstring(v, s)
    ensures forall v | v in Partition(s, values, false) :: !IsSubstring(v, s)
  {
    if values != [] {
      var init := values[..|values| - 1];
      PartitionIsExact(s, init);
      assert values == init + [values[|values| - 1]];
    }
  }

  /** Each list keeps the input order: partitioning a concatenation
      partitions each part in turn. */
  lemma {:induction false} PartitionKeepsOrder(s: string, xs: seq<string>, ys: seq<string>, found: bool)
    ensures Partition(s, xs + ys, found) == Partition(s, xs, found) + Partition(s, ys, found)
  {
    if ys != [] {
      var init := ys[..|ys| - 1];
      assert (xs + ys)[..|xs + ys| - 1] == xs + init;
      assert (xs + ys)[|xs + ys| - 1] == ys[|ys| - 1];
      PartitionKeepsOrder(s, xs, init, found);
    } else {
      assert xs + ys == xs;
    }
  }

  /** The loop that sorts the values into `presentItems` and `missingItems`. */
  method SortByPresence(s: string, values: seq<string>) returns (present: seq<string>, missing: seq<string>)
    ensures present == Partition(s, values, true)
    ensures missing == Partition(s, values, false)
  {
    present, missing := [], [];
    for k := 0 to |values|
      invariant present == Partition(s, values[..k], true)
      invariant missing == Partition(s, values[..k], false)
    {
      var value := values[k];
      assert values[..k + 1][..k] == values[..k];
      IndexOfDecidesContains(s, value);
      if IndexOf(s, value, 0) != -1 {
        present := present + [value];
      } else {
        missing := missing + [value];
      }
    }
    assert values[..|values|] == values;
  }

  /** What `ContainsLogic` concludes: fails for a null string; otherwise
      fails exactly when some value does not occur in it, listing the missing
      values, and sets the negated message to the list of present values. */
  function ContainsVerdict(sut: Option<string>, values: seq<string>, render: ListRenderer): (c: Checked)
    ensures c.WellFormed() && !c.verdict.Error?
    ensures sut.None? ==> c.verdict == Fail(NullSut)
    ensures sut.Some? ==>
              (c.verdict.Pass? <==> forall k | 0 <= k < |values| :: IsSubstring(values[k], sut.value))
    ensures sut.Some? && !c.verdict.Pass? ==>
              c.verdict == Fail(Says(MissingValuesMessage(Partition(sut.value, values, false), render)))
    ensures sut.Some? ==>
              c.onNegate == Some(UnauthorizedValuesMessage(Partition(sut.value, values, true), render))
  {
    if sut.None? then Checked(Fail(NullSut), None)
    else
      var s := sut.value;
      var missing := Partition(s, values, false);
      NothingMissingMeansAllPresent(s, values);
      var verdict := if missing != [] then Fail(Says(MissingValuesMessage(missing, render))) else Pass;
      Checked(verdict, Some(UnauthorizedValuesMessage(Partition(s, values, true), render)))
  }

  /** No value is missing exactly when every value occurs in `s`. */
  lemma NothingMissingMeansAllPresent(s: string, values: seq<string>)
    ensures Partition(s, values, false) == [] <==> forall k | 0 <= k < |values| :: IsSubstring(values[k], s)
  {
    var missing := Partition(s, values, false);
    PartitionIsExact(s, values);
    if missing != [] {
      assert missing[0] in multiset(values);
      assert !IsSubstring(missing[0], s);
      var k :| 0 <= k < |values| && values[k] == missing[0];
    } else {
      forall k | 0 <= k < |values| ensures IsSubstring(values[k], s) {
        assert values[k] in multiset(values);
      }
    }
  }

  /** `ContainsLogic`: a null guard, then the loop that sorts the values. */
  method ContainsLogic(sut: Option<string>, values: seq<string>, render: ListRenderer) returns (c: Checked)
    ensures c == ContainsVerdict(sut, values, render)
  {
    if sut.None? {
      return Checked(Fail(NullSut), None);
    }
    var present, missing := SortByPresence(sut.value, values);
    var verdict := Pass;
    if missing != [] {
      verdict := Fail(Says(MissingValuesMessage(missing, render)));
    }
    c := Checked(verdict, Some(UnauthorizedValuesMessage(present, render)));
  }

  /** `DoesNotContain` is `check.Not.Contains(values)`: on a non-null string
      it passes exactly when some value is missing, since that is when
      `Contains` fails, and otherwise lists the values, all of them present. */
  function DoesNotContain(sut: Option<string>, values: seq<string>, render: ListRenderer): (r: Verdict)
    ensures sut.None? ==> r == Pass
    ensures sut.Some? ==>
              (r.Pass? <==> exists k | 0 <= k < |values| :: !IsSubstring(values[k], sut.value))
    ensures sut.Some? && !r.Pass? ==>
              r == Fail(Says(UnauthorizedValuesMessage(Partition(sut.value, values, true), render)))
  {
    Negate(ContainsVerdict(sut, values, render))
  }

  /** A string holding one of two values and missing the other passes
      `DoesNotContain`, although the values it documents as forbidden are
      there: `"abc"` against `"a"` and `"z"`. */
  lemma DoesNotContainAcceptsPresentValue(render: ListRenderer)
    ensures DoesNotContain(Some("abc"), ["a", "z"], render) == Pass
    ensures IsSubstring("a", "abc")
  {
    var values := ["a", "z"];
    assert OccursAt("abc", "a", 0);
    assert !IsSubstring("z", "abc") by {
      forall p | 0 <= p <= 3 ensures !OccursAt("abc", "z", p) {
        if p < 3 {
          assert "abc"[p..p + 1] == ["abc"[p]];
        }
      }
    }
    assert !IsSubstring(values[1], "abc");
  }

  /** `DoesNotContain` as documented: fails for a null string, otherwise fails
      exactly when at least one value occurs, listing those that do. */
  method DoesNotContainAny(sut: Option<string>, values: seq<string>, render: ListRenderer) returns (r: Verdict)
    ensures sut.None? ==> r == Fail(NullSut)
    ensures sut.Some? ==>
              (r.Pass? <==> forall k | 0 <= k < |values| :: !IsSubstring(values[k], sut.value))
    ensures sut.Some? && !r.Pass? ==>
              r == Fail(Says(UnauthorizedValuesMessage(Partition(sut.value, values, true), render)))
  {
    if sut.None? {
      return Fail(NullSut);
    }
    var present, missing := SortByPresence(sut.value, values);
    PartitionIsExact(sut.value, values);
    if present != [] {
      r := Fail(Says(UnauthorizedValuesMessage(present, render)));
      assert present[0] in multiset(values);
    } else {
      r := Pass;
      forall k | 0 <= k < |values| ensures !IsSubstring(values[k], sut.value) {
        assert values[k] in multiset(values);
      }
    }
  }

  // ---- IsEmpty, IsNullOrEmpty, IsNotEmpty, HasContent ----

  const EmptyNegated := "The {0} is empty, whereas it must not."
  const NullInsteadOfEmpty := "The {0} is null instead of being empty."
  const NotEmptyMessage := "The {0} is not empty."
  const NotEmptyOrNull := "The {0} is not empty or null."
  const NullWithoutContent := "The {0} is null whereas it must have content."

  /** `IsEmpty`: passes only for the empty string; null is reported apart. */
  function IsEmpty(sut: Option<string>): (c: Checked)
    ensures c.WellFormed() && c.onNegate == Some(EmptyNegated)
    ensures c.verdict.Pass? <==> sut == Some("")
    ensures sut.None? ==> c.verdict == Fail(Says(NullInsteadOfEmpty))
    ensures sut.Some? && sut.value != "" ==> c.verdict == Fail(Says(NotEmptyMessage))
  {
    var verdict :=
      if sut.None? then Fail(Says(NullInsteadOfEmpty))
      else if sut.value != "" then Fail(Says(NotEmptyMessage))
      else Pass;
    Checked(verdict, Some(EmptyNegated))
  }

  /** `IsNullOrEmpty`: passes for null and for the empty string. */
  function IsNullOrEmpty(sut: Option<string>): (c: Checked)
    ensures c.WellFormed() && c.onNegate == Some(EmptyNegated)
    ensures c.verdict.Pass? <==> sut.None? || sut.value == ""
    ensures !c.verdict.Pass? ==> c.verdict == Fail(Says(NotEmptyOrNull))
  {
    var verdict := if sut.Some? && sut.value != "" then Fail(Says(NotEmptyOrNull)) else Pass;
    Checked(verdict, Some(EmptyNegated))
  }

  /** `IsNotEmpty`: passes only for a string with at least one character; its
      negated message depends on whether the string is null. */
  function IsNotEmpty(sut: Option<string>): (c: Checked)
    ensures c.WellFormed()
    ensures c.verdict.Pass? <==> sut.Some? && |sut.value| > 0
    ensures sut.None? ==> c.verdict == Fail(Says(NullWithoutContent)) && c.onNegate == Some(NullInsteadOfEmpty)
    ensures sut == Some("") ==> c.verdict == Fail(Says(EmptyNegated))
    ensures sut.Some? ==> c.onNegate == Some(NotEmptyOrNull)
  {
    var verdict :=
      if sut.None? then Fail(Says(NullWithoutContent))
      else if sut.value == "" then Fail(Says(EmptyNegated))
      else Pass;
    Checked(verdict, Some(if sut.None? then NullInsteadOfEmpty else NotEmptyOrNull))
  }

  /** `HasContent` is `IsNotEmpty`. */
  function HasContent(sut: Option<string>): (c: Checked)
    ensures c == IsNotEmpty(sut)
  {
    IsNotEmpty(sut)
  }

  /** The three emptiness checks split the nullable strings between them:
      `IsNullOrEmpty` accepts what `IsEmpty` accepts plus null, and
      `IsNotEmpty` accepts exactly what `IsNullOrEmpty` rejects. */
  lemma EmptinessChecksAgree(sut: Option<string>)
    ensures IsNullOrEmpty(sut).verdict.Pass? <==> IsEmpty(sut).verdict.Pass? || sut.None?
    ensures IsNotEmpty(sut).verdict.Pass? <==> !IsNullOrEmpty(sut).verdict.Pass?
    ensures IsNotEmpty(sut).verdict.Pass? ==> !IsEmpty(sut).verdict.Pass?
  {
  }

  /** `IsNullOrWhiteSpace`: passes for null and for a string made only of
      white space (`isWhiteSpace` is `char.IsWhiteSpace`); its negated
      message tells null, empty and blank apart. */
  function IsNullOrWhiteSpace(sut: Option<string>, isWhiteSpace: char -> bool): (c: Checked)
    ensures c.WellFormed()
    ensures c.verdict.Pass? <==> sut.None? || forall k | 0 <= k < |sut.value| :: isWhiteSpace(sut.value[k])
    ensures !c.verdict.Pass? ==> c.verdict == Fail(Says("The {0} contains non whitespace characters."))
    ensures sut.None? ==> c.onNegate == Some("The {0} is null, whereas it should not.")
    ensures sut == Some("") ==> c.onNegate == Some("The {0} is empty, whereas it should not.")
    ensures sut.Some? && sut.value != "" ==>
              c.onNegate == Some("The {0} contains only whitespace characters, whereas it should not.")
  {
    var blank := sut.None? || forall k | 0 <= k < |sut.value| :: isWhiteSpace(sut.value[k]);
    var verdict := if !blank then Fail(Says("The {0} contains non whitespace characters.")) else Pass;
    var onNegate :=
      if sut.None? then "The {0} is null, whereas it should not."
      else if sut.value == "" then "The {0} is empty, whereas it should not."
      else "The {0} contains only whitespace characters, whereas it should not.";
    Checked(verdict, Some(onNegate))
  }

  /** Whatever counts as white space, a null or empty string passes
      `IsNullOrWhiteSpace`, and so everything `IsNullOrEmpty` accepts. */
  lemma NullOrEmptyIsBlank(sut: Option<string>, isWhiteSpace: char -> bool)
    ensures IsNullOrEmpty(sut).verdict.Pass? ==> IsNullOrWhiteSpace(sut, isWhiteSpace).verdict.Pass?
    ensures IsNotEmpty(sut).verdict.Pass? && !IsNullOrWhiteSpace(sut, isWhiteSpace).verdict.Pass? ==>
              exists k | 0 <= k < |sut.value| :: !isWhiteSpace(sut.value[k])
  {
  }

  // ---- MatchesWildcards ----

  /** `Regex.IsMatch(input, pattern)`, which this model does not define. */
  type Matcher = (string, string) -> bool

  const NoMatchMessage := "The {0} does not match the {1}."
  const MatchNegated := "The {0} matches the {1}, whereas it must not."

  /** `MatchesWildcards`: fails for a null string; otherwise passes exactly
      when the engine matches the string against the pattern text of the
      wildcard expression: `.*` for `*`, `.` for `?`, every other character
      escaped, between `^` and `$`. */
  function MatchesWildcards(sut: Option<string>, expression: string, isMatch: Matcher): (c: Checked)
    ensures c.WellFormed() && c.onNegate == Some(MatchNegated)
    ensures sut.None? ==> c.verdict == Fail(NullSut)
    ensures sut.Some? ==> (c.verdict.Pass? <==> isMatch(sut.value, "^" + Translate(expression) + "$"))
    ensures sut.Some? && !c.verdict.Pass? ==> c.verdict == Fail(Says(NoMatchMessage))
  {
    var regExp := WildcardPattern(expression);
    WildcardPatternIsTranslation(expression);
    var verdict :=
      if sut.None? then Fail(NullSut)
      else if !isMatch(sut.value, regExp) then Fail(Says(NoMatchMessage))
      else Pass;
    Checked(verdict, Some(MatchNegated))
  }
}
