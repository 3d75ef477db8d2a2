# NFluent string checks, negation and difference records in Dafny

NFluent is a .NET assertion library: `Check.That(sut).Contains("a").Once()`
either hands back a link to chain further checks or throws an exception
whose message is built from labelled blocks. This project models the parts
of the library that decide pass or fail and build their own messages, and
proves what they promise:

- **Difference records** (`DifferenceDetails`): the record the structural
  comparison engine emits, its six factories, `FromMatch`, the two "still
  needed" filters and the sentence each kind of record reads as.
- **Negation** (`Checker.ExecuteCheck`): how a check's outcome becomes a
  returned link or an exception when the check is, or is not, negated.
- **String checks** (`StringCheckExtensions`): equality with its null
  guards, `IsOneOfThese`, `Contains` and its present/missing partition,
  the emptiness checks, `MatchesWildcards` and its wildcard-to-pattern
  translation, and the negated aliases `IsNotEqualTo` and `DoesNotContain`.
- **Chained string checks** (`StringFluentSyntaxExtension`): `Once` and
  `InThatOrder`, with ordinal substring search.
- **Exception checks** (`LambdaExceptionCheck`): `DueTo<TE>()`, which
  walks the chain of inner exceptions, and `ForkInstance`.
- **Message labels** (`GenericLabelBlock`): the checked, expected and
  given blocks, their titles and their formatted sentences.

Each check is a function or method that returns a `Verdict`:

- `Pass` means a link is returned.
- `Fail(Says(m))` means a check failure with the local message `m`. `{0}` and
  `{1}` in `m` are the placeholders the library later fills.
- `Fail(NullSut)` is the library's own failure for a null value (`FailIfNull`).
- `Error` means any other exception escapes.

A check that the library can negate also returns the message it would use
under negation, as a `Checked` value. The `Option` type stands for a
nullable reference.

Helpers whose code is not part of this model are parameters of the
functions that use them:

- `ToStringProperlyFormatted`, as rendering functions.
- `StringDifference.Analyze` with its summary, as an `Analyzer`.
- The regular-expression engine, as a `Matcher`.
- `char.IsWhiteSpace`.

Two helpers whose code is not part of this model are given a definition
instead:

- `DoubleCurlyBraces` doubles every brace (`CompositeFormat.DoubleBraces`).
  Under this reading, formatting a message gives the rendered text back
  unchanged.
- `PolyFill.IsNullOrWhiteSpace` holds for null or for a string whose every
  character is white space, as .NET's `string.IsNullOrWhiteSpace` does.

Files:

- `outcomes.dfy` holds the shared datatypes.
- `numerals.dfy` renders `int` as C# interpolation does under the
  invariant culture, and reads the digits back.
- `ordinal.dfy` holds ordinal `IndexOf` and `Contains`.
- `composite_format.dfy` holds the part of `string.Format` that labels and
  messages use.
- `check_messages.dfy` holds the failure messages that embed rendered
  values, and what they read once formatted.
- `regex_patterns.dfy` holds the wildcard pattern that `MatchesWildcards`
  builds (`StringCheckExtensions.cs:286`), with .NET's `Regex.Escape` and
  ordinal `String.Replace` written out.
- Each of the other files follows one source file.
- `difference_finders.dfy` is the one exception: it is a comparison walker
  reconstructed from unit tests, because the walker's own code is not
  part of this model.

## Model

| member | source | states |
|---|---|---|
| DifferenceDetails.Make | code/src/NFluent/Helpers/DifferenceDetails.cs:26-34 | the constructor stores every field and starts the actual index equal to the index |
| DifferenceDetails.WasNotExpected | code/src/NFluent/Helpers/DifferenceDetails.cs:36-39 | an Extra record keeps the checked value, has a null second value and equal indices |
| DifferenceDetails.DoesNotHaveExpectedValue | code/src/NFluent/Helpers/DifferenceDetails.cs:41-44 | a Value record keeps both values and has equal indices |
| DifferenceDetails.DoesNotHaveExpectedAttribute | code/src/NFluent/Helpers/DifferenceDetails.cs:45-48 | an Attribute record keeps both values and has equal indices |
| DifferenceDetails.WasNotFound | code/src/NFluent/Helpers/DifferenceDetails.cs:50-53 | a Missing record has a null first value, keeps the expected value and has equal indices |
| DifferenceDetails.WasFoundElseWhere | code/src/NFluent/Helpers/DifferenceDetails.cs:55-58 | a Moved record has index = expected index, actual index = where it was found, and a null second value |
| DifferenceDetails.WasFoundInsteadOf | code/src/NFluent/Helpers/DifferenceDetails.cs:60-63 | a FoundInsteadOf record keeps both values and always has index 0 |
| DifferenceDetails.FromMatch | code/src/NFluent/Helpers/DifferenceDetails.cs:65-78 | a missing checked member gives Missing; otherwise a missing expected member gives Extra; otherwise Value with (actual value, expected value). Index 0, labelled by the expected member |
| DifferenceDetails.StillNeededForEquivalence | code/src/NFluent/Helpers/DifferenceDetails.cs:23 | keeps exactly Attribute, Missing, Extra and FoundInsteadOf records |
| DifferenceDetails.StillNeededForEquality | code/src/NFluent/Helpers/DifferenceDetails.cs:24 | keeps every kind of record except FoundInsteadOf |
| DifferenceDetails.StillNeededFilters | code/src/NFluent/Helpers/DifferenceDetails.cs:23-24 | the equivalence filter drops exactly Moved and Value records; the equality filter drops exactly FoundInsteadOf records; no record is dropped by both |
| DifferenceDetails.GetMessage | code/src/NFluent/Helpers/DifferenceDetails.cs:86-120 | every sentence is non-empty and ends with '.', except the Extra sentence in equivalence mode, which ends with ')' |
| DifferenceDetails.MessageModeIndependence | code/src/NFluent/Helpers/DifferenceDetails.cs:86-119 | the sentence depends on the mode only for Extra and Missing; the Extra sentence always differs between modes |
| DifferenceDetails.MissingMessageDependsOnMode | code/src/NFluent/Helpers/DifferenceDetails.cs:94-99 | a Missing record whose two sentences differ between the modes |
| DifferenceDetails.ValueReadsAsAttribute | code/src/NFluent/Helpers/DifferenceDetails.cs:105-119 | a Value record reads exactly like the Attribute record with the same fields |
| DifferenceDetails.MessageReadsDefinedFields | code/src/NFluent/Helpers/DifferenceDetails.cs:86-119 | a sentence never reads a field its kind leaves undefined: not the first value of Missing, not the second value of Extra or Moved, and the actual index only for Moved |
| DifferenceDetails.MovedMessageDeterminesIndices | code/src/NFluent/Helpers/DifferenceDetails.cs:100-104 | two Moved records of the same entry with the same sentence have the same actual index and the same index |
| DifferenceDetails.MovedSentence | code/src/NFluent/Helpers/DifferenceDetails.cs:100-104 | the Moved sentence cites the actual index first and the expected index second: name and value, "was found at index", the actual index, "instead of", the expected index, "." |
| DifferenceDetails.MovedMessageTellsIndicesApart | code/src/NFluent/Helpers/DifferenceDetails.cs:100-104 | swapping two different indices of a Moved record changes its sentence |
| Numerals.IntToString | code/src/NFluent/Helpers/DifferenceDetails.cs:103 | the rendering of an `int` is non-empty, made of digits and '-', and starts with '-' exactly for negative numbers |
| Numerals.IntToStringInjective | code/src/NFluent/Helpers/DifferenceDetails.cs:103 | different integers render differently |
| Checker.ExecuteCheck | NFluent.35/Extensibility/Checker.cs:101-127 | not negated: a check failure is rethrown and success returns a link. Negated: a failure returns a link and success fails with exactly the negated message. Any other exception escapes in both modes |
| Checker.Negate | NFluent.35/Extensibility/Checker.cs:101-127 | a negated check fails with its negated message when it would pass, passes when it would fail, and lets other exceptions through |
| Ordinal.IndexOf | code/src/NFluent/Checks/StringFluentSyntaxExtension.cs:45-46 | ordinal search returns the least occurrence at or after the start, or -1 exactly when there is none |
| Ordinal.IndexOfDecidesContains | code/src/NFluent/Checks/StringCheckExtensions.cs:196 | searching from 0 finds something exactly when `String.Contains` holds |
| StringChecks.PerformEqualCheck | code/src/NFluent/Checks/StringCheckExtensions.cs:114-129 | exactly one side null fails with the matching null message, and the analysis is not consulted. Otherwise the check fails exactly when the analysis reports a difference, with its summary. The negated message is fixed |
| StringChecks.IsEqualTo | code/src/NFluent/Checks/StringCheckExtensions.cs:40-45 | passes exactly when both or neither are null and the case-sensitive analysis finds no difference |
| StringChecks.IsEqualIgnoringCase | code/src/NFluent/Checks/StringCheckExtensions.cs:106-111 | the same check with the analysis ignoring case |
| StringChecks.IsNotEqualTo | code/src/NFluent/Checks/StringCheckExtensions.cs:71-74 | passes exactly when `IsEqualTo` does not, and otherwise fails with the negated equality message |
| StringChecks.EqualityChecksDecideEquality | code/src/NFluent/Checks/StringCheckExtensions.cs:114-129 | with an analysis that reports exactly the differences, `IsEqualTo` passes iff the nullable strings are equal and `IsNotEqualTo` passes iff they differ |
| StringChecks.IsOneOfThese | code/src/NFluent/Checks/StringCheckExtensions.cs:140-152 | a null list accepts only a null string; a list accepts exactly a string equal to one of its elements (nulls equal); each failure has its own message |
| StringChecks.Partition | code/src/NFluent/Checks/StringCheckExtensions.cs:191-197 | each listed value is one of the input values, and it occurs in the string exactly when the list is the present one; the list is no longer than the input |
| StringChecks.PartitionIsExact | code/src/NFluent/Checks/StringCheckExtensions.cs:191-197 | present and missing values together are the input counted with multiplicity; every present value occurs, no missing value does |
| StringChecks.PartitionKeepsOrder | code/src/NFluent/Checks/StringCheckExtensions.cs:191-197 | each list keeps the input order: the partition of a concatenation is the concatenation of the partitions |
| StringChecks.SortByPresence | code/src/NFluent/Checks/StringCheckExtensions.cs:191-197 | the loop builds exactly the present and the missing partitions |
| StringChecks.NothingMissingMeansAllPresent | code/src/NFluent/Checks/StringCheckExtensions.cs:191-206 | the list of missing values is empty exactly when every value occurs in the string |
| StringChecks.ContainsVerdict | code/src/NFluent/Checks/StringCheckExtensions.cs:184-209 | a null string fails. Otherwise the check fails exactly when some value does not occur, listing the missing values, and its negated message lists the present ones |
| StringChecks.ContainsLogic | code/src/NFluent/Checks/StringCheckExtensions.cs:184-209 | the null guard and loop compute exactly that verdict |
| StringChecks.DoesNotContain | code/src/NFluent/Checks/StringCheckExtensions.cs:179-182 | as written (negated `Contains`): a null string passes, since the negation turns the null failure into a link; on a non-null string it passes exactly when some value is missing, and otherwise fails listing the present values |
| StringChecks.DoesNotContainAcceptsPresentValue | code/src/NFluent/Checks/StringCheckExtensions.cs:179-182 | "abc" against "a" and "z" passes `DoesNotContain` although "a" occurs |
| StringChecks.DoesNotContainAny | code/src/NFluent/Checks/StringCheckExtensions.cs:179-182 | as documented: a null string fails; otherwise fails exactly when some value occurs, listing the values that occur |
| StringChecks.IsEmpty | code/src/NFluent/Checks/StringCheckExtensions.cs:339-347 | passes only for ""; null and non-empty strings fail with their own messages |
| StringChecks.IsNullOrEmpty | code/src/NFluent/Checks/StringCheckExtensions.cs:357-364 | passes exactly for null and "" |
| StringChecks.IsNotEmpty | code/src/NFluent/Checks/StringCheckExtensions.cs:374-384 | passes exactly for a string with content. Null and "" fail with their own messages. The negated message depends on whether the string is null |
| StringChecks.HasContent | code/src/NFluent/Checks/StringCheckExtensions.cs:394-397 | is the same check as `IsNotEmpty` |
| StringChecks.EmptinessChecksAgree | code/src/NFluent/Checks/StringCheckExtensions.cs:339-384 | `IsNullOrEmpty` accepts what `IsEmpty` accepts plus null; `IsNotEmpty` accepts exactly what `IsNullOrEmpty` rejects |
| StringChecks.IsNullOrWhiteSpace | code/src/NFluent/Checks/StringCheckExtensions.cs:319-329 | passes exactly for null or an all-white-space string; the negated message tells null, empty and blank apart |
| StringChecks.NullOrEmptyIsBlank | code/src/NFluent/Checks/StringCheckExtensions.cs:319-364 | whatever counts as white space, everything `IsNullOrEmpty` accepts passes `IsNullOrWhiteSpace` |
| StringChecks.MatchesWildcards | code/src/NFluent/Checks/StringCheckExtensions.cs:284-295 | a null string fails. Otherwise the check passes exactly when the engine matches the string against the translated pattern text |
| RegexPatterns.WildcardPattern | code/src/NFluent/Checks/StringCheckExtensions.cs:286 | the pattern starts with `^` and ends with `$` |
| RegexPatterns.WildcardPatternIsTranslation | code/src/NFluent/Checks/StringCheckExtensions.cs:286 | escaping, then replacing `\*` by `.*` and `\?` by `.`, gives the character-by-character pattern text: `.*` for `*`, `.` for `?`, every other character as `Regex.Escape` writes it, between `^` and `$` |
| RegexPatterns.EscapeThenStars | code/src/NFluent/Checks/StringCheckExtensions.cs:286 | the first replacement turns exactly the escaped `*` into `.*` and leaves every other escape as it was |
| RegexPatterns.StarsThenQuestionMarks | code/src/NFluent/Checks/StringCheckExtensions.cs:286 | the second replacement turns exactly the escaped `?` into `.` |
| StringFluentSyntax.Occurrences | code/src/NFluent/Checks/StringFluentSyntaxExtension.cs:45-46 | the second search finds something exactly when the value occurs at two positions, and then it is the next occurrence after the first |
| StringFluentSyntax.SecondSearchDecidesRepeats | code/src/NFluent/Checks/StringFluentSyntaxExtension.cs:45-47 | searching again from just after the first occurrence succeeds exactly when the value occurs twice, overlapping occurrences included |
| StringFluentSyntax.OnceVerdict | code/src/NFluent/Checks/StringFluentSyntaxExtension.cs:43-54 | raises ArgumentOutOfRange exactly when the string is empty and one of the values is empty, since the second search then starts past the end; it raises nothing else |
| StringFluentSyntax.OnceVerdictMeansOnce | code/src/NFluent/Checks/StringFluentSyntaxExtension.cs:43-54 | `Once` passes exactly when no value occurs twice. Otherwise it reports the first value that does, with its first two positions, and stops there. An absent value never fails |
| StringFluentSyntax.Once | code/src/NFluent/Checks/StringFluentSyntaxExtension.cs:36-57 | refused under negation; otherwise the loop computes that verdict; the incoming link is returned unchanged |
| StringFluentSyntax.InOrderFrom | code/src/NFluent/Checks/StringFluentSyntaxExtension.cs:75-87 | when the `lastIndex` search succeeds, every value occurs at or after the starting position |
| StringFluentSyntax.InOrderMeansChain | code/src/NFluent/Checks/StringFluentSyntaxExtension.cs:74-87 | the greedy search succeeds exactly when the values occur at non-decreasing positions in the given order |
| StringFluentSyntax.GreedyChain | code/src/NFluent/Checks/StringFluentSyntaxExtension.cs:74-87 | the positions the greedy search finds are such a chain |
| StringFluentSyntax.ChainMeansInOrder | code/src/NFluent/Checks/StringFluentSyntaxExtension.cs:74-87 | any such chain makes the greedy search succeed |
| StringFluentSyntax.RepeatedValueNeedsOneOccurrence | code/src/NFluent/Checks/StringFluentSyntaxExtension.cs:75-78 | a value listed twice in a row is satisfied by a single occurrence, because each search starts where the previous match started |
| StringFluentSyntax.InThatOrder | code/src/NFluent/Checks/StringFluentSyntaxExtension.cs:68-92 | refused under negation. Otherwise it fails exactly when the greedy search loses a value, so an empty list passes. The incoming link is returned unchanged |
| LambdaExceptionCheck.Chain | code/src/NFluent/Checks/LambdaExceptionCheck.cs:57-66 | the chain starts at the exception, each element is the inner exception of the previous one, and the last has none |
| LambdaExceptionCheck.FirstOfType | code/src/NFluent/Checks/LambdaExceptionCheck.cs:57-66 | the first exception of the chain whose type is exactly the one asked for, or none exactly when no element has it |
| LambdaExceptionCheck.DueTo | code/src/NFluent/Checks/LambdaExceptionCheck.cs:47-73 | refused under negation; with no inner exception it fails with "There is no inner exception."; otherwise the search starts at the inner exception, fails when no exception down the chain has the exact type, and otherwise continues on the first that has, keeping the negation flag |
| LambdaExceptionCheck.FoundContinuesTheChain | code/src/NFluent/Checks/LambdaExceptionCheck.cs:57-72 | the chain below the exception found is the rest of the chain searched |
| LambdaExceptionCheck.ForkInstance | code/src/NFluent/Checks/LambdaExceptionCheck.cs:76-79 | the fork checks the same exception and is never negated |
| CompositeFormat.LiteralPrefix | code/src/NFluent/Messages/GenericLabelBlock.cs:78 | brace-free text is copied unchanged by `string.Format` |
| CompositeFormat.Placeholder | code/src/NFluent/Messages/GenericLabelBlock.cs:78 | `{n}` is replaced by the n-th argument |
| CompositeFormat.DoubledPrefix | code/src/NFluent/Checks/StringCheckExtensions.cs:200-204 | brace-doubled text in front of the rest of a format comes out as it was, whatever the arguments |
| CompositeFormat.OneHoleMessage | code/src/NFluent/Checks/StringCheckExtensions.cs:200-204 | a message of brace-free text, `{0}`, brace-free text, brace-doubled text and brace-free text formats to the first argument in place of `{0}` and every text as written |
| CheckMessages.MissingValuesMessage | code/src/NFluent/Checks/StringCheckExtensions.cs:201-202 | once formatted, the `Contains` failure message names the label given as `{0}`, then lists the missing values exactly as rendered, braces included |
| CheckMessages.UnauthorizedValuesMessage | code/src/NFluent/Checks/StringCheckExtensions.cs:204 | once formatted, the negated `Contains` message names the label, then lists the present values exactly as rendered |
| CheckMessages.OnceMessage | code/src/NFluent/Checks/StringFluentSyntaxExtension.cs:49-50 | once formatted, the `Once` message names the label, the value exactly as rendered, then its two positions |
| CompositeFormat.FormatUndoesDoubleBraces | code/src/NFluent/Checks/StringCheckExtensions.cs:200-204 | text with its braces doubled comes out of `string.Format` exactly as it was, whatever the arguments |
| GenericLabelBlock.TemplateText | code/src/NFluent/Messages/GenericLabelBlock.cs:25 | the default template is "The {0} {1}:" |
| GenericLabelBlock.TemplateFills | code/src/NFluent/Messages/GenericLabelBlock.cs:78 | formatting the template gives "The ", the first argument, a space, the second argument, ":" |
| GenericLabelBlock.BuildCheckedBlock | code/src/NFluent/Messages/GenericLabelBlock.cs:42-45 | "checked" both in the title and in sentences |
| GenericLabelBlock.BuildExpectedBlock | code/src/NFluent/Messages/GenericLabelBlock.cs:47-50 | "expected" both in the title and in sentences |
| GenericLabelBlock.BuildGivenBlock | code/src/NFluent/Messages/GenericLabelBlock.cs:52-55 | "expected" in the title, "given" in sentences |
| GenericLabelBlock.ToString | code/src/NFluent/Messages/GenericLabelBlock.cs:64-67 | the title is the adjective, one space, then the entity name |
| GenericLabelBlock.CustomMessage | code/src/NFluent/Messages/GenericLabelBlock.cs:76-79 | a null message gives "The <sentence adjective> <entity>:". Any other message is formatted with the sentence adjective as {0} and the entity name as {1} |
| GenericLabelBlock.DoubledMessageIsLiteral | code/src/NFluent/Messages/GenericLabelBlock.cs:78 | a message whose braces are doubled is returned as written |
| GenericLabelBlock.BlockWords | code/src/NFluent/Messages/GenericLabelBlock.cs:42-55 | the titles and default sentences of the three blocks: the given block is titled "expected" but says "given" |
| DifferenceFinders.FirstIndexOf | code/src/NFluent/Helpers/DifferenceDetails.cs:55-58 | the lowest index holding a value, or -1 exactly when it is absent; it gives the actual index of a Moved record. Taking the lowest index is the rebuilt walker's own choice; no test reaches it |
| DifferenceFinders.ValueDifference | code/tests/NFluent.Tests.Internals/CustomEqualTests.cs:34-74 | test-derived walker: a comparison that is not between two lists gives at most one record, and two lists of different lengths always give one |
| DifferenceFinders.Correlate | code/tests/NFluent.Tests.Internals/CustomEqualTests.cs:41-74 | test-derived walker: lists of different lengths, compared from an index both hold, always give a record |
| DifferenceFinders.ValueDifferenceCoherent | code/tests/NFluent.Tests.Internals/CustomEqualTests.cs:34-74 | every record the walker emits is coherent with its kind |
| DifferenceFinders.NoDifferenceWithItself | code/tests/NFluent.Tests.Internals/CustomEqualTests.cs:34-38 | a value compared with itself has no difference |
| DifferenceFinders.NoDifferenceMeansEqual | code/tests/NFluent.Tests.Internals/CustomEqualTests.cs:34-52 | no difference only for equal values |
| DifferenceFinders.TwoDifferingElements | code/tests/NFluent.Tests.Internals/CustomEqualTests.cs:41-49 | [1, 2] against [3, 4] gives two records, the first for `a[0]` with the values 1 and 3 |
| DifferenceFinders.NestedDifference | code/tests/NFluent.Tests.Internals/CustomEqualTests.cs:54-55 | [[1, 2], [3, 4]] against [[1, 2], [1, 2]] reports `a[1][0]` first |
| DifferenceFinders.NullElement | code/tests/NFluent.Tests.Internals/CustomEqualTests.cs:58-65 | a null element on either side is reported as `a[1]` |
| DifferenceFinders.DifferentLengths | code/tests/NFluent.Tests.Internals/CustomEqualTests.cs:67-74 | a shorter or a longer checked list is reported as `a[1]` |
| DifferenceFinders.UnmatchedExpected | code/src/NFluent/Helpers/DifferenceDetails.cs:50-58 | the record for an expected element with no counterpart at its index is labelled `name[k]` at index k. It is Moved exactly when the checked list holds the element, citing the first index that holds it; otherwise it is Missing and keeps the expected value |
| DifferenceFinders.PastCheckedEnd | code/tests/NFluent.Tests.Internals/CustomEqualTests.cs:67-74 | past the end of the checked list, the records are exactly one `UnmatchedExpected` record per remaining expected element, in index order |
| DifferenceFinders.PastExpectedEnd | code/tests/NFluent.Tests.Internals/CustomEqualTests.cs:67-74 | past the end of the expected list, each checked element gives one Extra record labelled `name[k]` at its index k |
| DifferenceFinders.MissingTail | code/src/NFluent/Helpers/DifferenceDetails.cs:50-53 | an example of the rule above: [1, 2] against [1, 2, 3] gives exactly one Missing record, for `a[2]`, expecting 3 |

## Left out

- The fluent harness is not part of this model. That covers `ExtensibilityHelper`, `BeginCheck`, `FailWhen`, `OnNegate`, `EndCheck`, message options and the final message assembly. Each check returns its verdict and the local message text, with the `{0}`/`{1}` placeholders left for the harness.
- Checker.Negate: negation of the string checks is modelled with the truth table of `Checker.ExecuteCheck`, the only negation logic among the modelled files (`NFluent.35/Extensibility/Checker.cs`). The modern harness (`CheckLogic`) is not modelled, so how it treats `FailIfNull` and `OnNegateWhen` under negation is not stated.
- StringChecks.DoesNotContain: a null string passes in this model, because negation follows `Checker.ExecuteCheck` and turns the `FailIfNull` failure of `Contains` into a returned link. How `CheckLogic` treats `FailIfNull` under negation is not modelled, so the library may behave otherwise.
- `ToStringProperlyFormatted`, `StringDifference.Analyze` with `SummaryMessage`, `char.IsWhiteSpace` and the regex engine are not part of this model. They are function parameters, so nothing is stated about what they compute.
- `DoubleCurlyBraces` and `PolyFill.IsNullOrWhiteSpace` are not part of this model either. The definitions given to them (every brace doubled; null or all white space) are assumed, not taken from their code.
- `IsEqualTo(object)` with a non-string argument delegates to `EqualityHelper`, which is not part of this model. The `InvalidCastException` that `IsNotEqualTo(object)` raises for a non-string is not modelled either.
- `StartsWith` and `EndsWith` are left out because they compare with the current culture, and locale behaviour cannot be stated.
- `Matches` and `DoesNotMatch` are left out: they are regex matching with no logic of their own.
- `AsLines` is left out because `SplitAsLines` is not part of this model.
- `DefineExpectedValue(s)` and `DefinePossibleValues` only feed the harness's message blocks, so they are left out.
- StringChecks.ContainsLogic: a null `values` array, or a null value inside it, raises a .NET exception; values are non-null strings here.
- StringChecks.MatchesWildcards: a null expression makes `Regex.Escape` throw; the expression is a non-null string here.
- StringChecks.MatchesWildcards: only the pattern text is modelled, not what the engine does with it. `new Regex(regExp)` uses no options, so `.` does not match '\n' and `$` also matches just before a final '\n'. "ab\n" therefore matches the expression "ab", and "a\nc" does not match "a?c".
- StringFluentSyntax.Once: the checked string is non-null. `Once` follows `Contains`, which rejects null; a null string could reach it only through a negated `Contains`, whose link handling belongs to `CheckLogic`, which is not modelled.
- LambdaExceptionCheck.DueTo: types are compared by name, which stands for the exact runtime-type test `GetType() == typeof(TE)`. There is no subtype relation.
- `EntityNamingLogic` is represented by the entity name it currently gives. Replacing the block's naming logic through the `EntityLogic` setter amounts to changing that field of the datatype.
- CompositeFormat.Format: only `{n}` placeholders and `{{`/`}}` escapes are modelled. Alignment (`{0,5}`), format strings (`{0:x}`) and spaces inside braces are read as malformed.
- The library's comparison walker is not part of this model. `DifferenceFinders` (`ValueDifference` and `Correlate`) is a reconstruction in equality mode over nulls, scalars and lists. Its unit tests (`CustomEqualTests.cs:34-74`) fix the labels of the first record, the number of records for two differing elements, and the values of the first one. The rest is the reconstruction's own choice, not the library's: which of Moved, Missing and Extra a record past the end of the shorter list is, and that a Moved record cites the lowest index holding the value. Members, equivalence mode, FoundInsteadOf and the cycle guard are not modelled. Moved records appear only past the end of the checked list.
- Strings are sequences of Unicode scalar values, whereas .NET strings are sequences of UTF-16 code units. For text outside the Basic Multilingual Plane, the positions `Ordinal.IndexOf` returns and `Once` reports therefore differ from .NET's. A lone surrogate cannot be written at all.
- Numerals.IntToString: negative numbers are written with '-', as under the invariant culture; a current culture with another negative sign is not modelled.
- Floating-point number checks, timing assertions, the reflection-based test runner and the process-wide default-negation flag are left out.

## Findings

| source | as written | input that shows it | evidently intended | confidence | as-written member | corrected member |
|---|---|---|---|---|---|---|
| code/src/NFluent/Checks/StringCheckExtensions.cs:179-182 | `DoesNotContain` is the negated `Contains`, which fails only when every value is present, so the negation passes as soon as one value is missing | "abc" against "a" and "z": "z" is missing, so `Contains` fails and `DoesNotContain` passes although "a" occurs | fail when at least one of the values occurs, as its documentation ("contains at least one of the given strings") and its negated message ("contains unauthorized value(s)", listing the present values) say | medium, not executed; it depends on negation behaving as `Checker.ExecuteCheck` does | StringChecks.DoesNotContainAcceptsPresentValue | StringChecks.DoesNotContainAny |
