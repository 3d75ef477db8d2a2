/** The record the structural difference engine emits for one discrepancy
    between a checked and an expected value, its per-kind factories, the two
    "still needed" filters and the sentence that describes it. */
module DifferenceDetails {
  import opened Numerals

  /** The runtime values a record may carry (`object` in the source). */
  datatype Obj =
    | Null
    | Int(i: int)
    | Text(s: string)
    | Items(items: seq<Obj>)
    | MemberRef(member: string, value: Obj)   // a member descriptor passed as a value by FromMatch

  datatype DifferenceMode = Attribute | Value | Missing | Extra | Moved | FoundInsteadOf

  datatype Difference = Difference(
    mode: DifferenceMode,
    firstName: string,
    firstValue: Obj,
    secondValue: Obj,
    index: int,
    actualIndex: int)

  /** What the kind of a record says about its other fields. */
  predicate Coherent(d: Difference) {
    && (d.mode != Moved ==> d.actualIndex == d.index)
    && (d.mode == Missing ==> d.firstValue == Null)
    && (d.mode == Extra || d.mode == Moved ==> d.secondValue == Null)
    && (d.mode == FoundInsteadOf ==> d.index == 0)
  }

  /** The private constructor: the actual index starts out equal to the index. */
  function Make(name: string, first: Obj, second: Obj, index: int, mode: DifferenceMode): (d: Difference)
    ensures d.mode == mode && d.firstName == name && d.firstValue == first && d.secondValue == second
    ensures d.index == index && d.actualIndex == index
  {
    Difference(mode, name, first, second, index, index)
  }

  /** A checked entry that the expected value does not have. */
  function WasNotExpected(name: string, value: Obj, index: int): (d: Difference)
    ensures Coherent(d)
    ensures d.mode == Extra && d.firstName == name && d.firstValue == value
    ensures d.secondValue == Null && d.index == index && d.actualIndex == index
  {
    Make(name, value, Null, index, Extra)
  }

  function DoesNotHaveExpectedValue(name: string, value: Obj, expected: Obj, index: int): (d: Difference)
    ensures Coherent(d)
    ensures d.mode == Value && d.firstName == name && d.firstValue == value && d.secondValue == expected
    ensures d.index == index && d.actualIndex == index
  {
    Make(name, value, expected, index, Value)
  }

  function DoesNotHaveExpectedAttribute(name: string, value: Obj, expected: Obj, index: int): (d: Difference)
    ensures Coherent(d)
    ensures d.mode == Attribute && d.firstName == name && d.firstValue == value && d.secondValue == expected
    ensures d.index == index && d.actualIndex == index
  {
    Make(name, value, expected, index, Attribute)
  }

  /** An expected entry the checked value lacks: there is no checked value. */
  function WasNotFound(name: string, expected: Obj, index: int): (d: Difference)
    ensures Coherent(d)
    ensures d.mode == Missing && d.firstName == name && d.firstValue == Null
    ensures d.secondValue == expected && d.index == index && d.actualIndex == index
  {
    Make(name, Null, expected, index, Missing)
  }

  /** An entry expected at `expectedIndex` but found at `actualIndex`; the
      object initializer overwrites the actual index once. */
  function WasFoundElseWhere(name: string, value: Obj, expectedIndex: int, actualIndex: int): (d: Difference)
    ensures Coherent(d)
    ensures d.mode == Moved && d.firstName == name && d.firstValue == value && d.secondValue == Null
    ensures d.index == expectedIndex && d.actualIndex == actualIndex
  {
    Make(name, value, Null, expectedIndex, Moved).(actualIndex := actualIndex)
  }

  /** A checked value found where another was expected; always at index 0. */
  function WasFoundInsteadOf(name: string, checkedValue: Obj, expectedValue: Obj): (d: Difference)
    ensures Coherent(d)
    ensures d.mode == FoundInsteadOf && d.firstName == name
    ensures d.firstValue == checkedValue && d.secondValue == expectedValue
    ensures d.index == 0 && d.actualIndex == 0
  {
    Make(name, checkedValue, expectedValue, 0, FoundInsteadOf)
  }

  /** A member of a composite value, as the member matcher describes it. */
  datatype MemberInfo = MemberInfo(memberLabel: string, value: Obj)

  /** The pairing of one expected member with the same-named checked member. */
  datatype MemberMatch = MemberMatch(
    expected: MemberInfo,
    actual: MemberInfo,
    expectedFieldFound: bool,
    actualFieldFound: bool)

  function AsObj(m: MemberInfo): Obj {
    MemberRef(m.memberLabel, m.value)
  }

  /** Classifies a member pair: a missing checked member wins over a missing
      expected one; otherwise the two values differ. The index is always 0 and
      the label is always the expected member's. */
  function FromMatch(m: MemberMatch): (d: Difference)
    ensures Coherent(d)
    ensures d.index == 0 && d.actualIndex == 0 && d.firstName == m.expected.memberLabel
    ensures !m.actualFieldFound ==> d.mode == Missing && d.secondValue == AsObj(m.expected)
    ensures m.actualFieldFound && !m.expectedFieldFound ==> d.mode == Extra && d.firstValue == AsObj(m.expected)
    ensures m.actualFieldFound && m.expectedFieldFound ==>
              d.mode == Value && d.firstValue == m.actual.value && d.secondValue == m.expected.value
  {
    if !m.actualFieldFound then
      WasNotFound(m.expected.memberLabel, AsObj(m.expected), 0)
    else if !m.expectedFieldFound then
      WasNotExpected(m.expected.memberLabel, AsObj(m.expected), 0)
    else
      DoesNotHaveExpectedValue(m.expected.memberLabel, m.actual.value, m.expected.value, 0)
  }

  /** The equivalence filter keeps the kinds that matter whatever the
      order: attributes, missing, extra and found-instead-of records. */
  predicate StillNeededForEquivalence(d: Difference): (r: bool)
    ensures r <==> d.mode in {Attribute, Missing, Extra, FoundInsteadOf}
  {
    d.mode != Moved && d.mode != Value
  }

  /** The equality filter keeps every kind but found-instead-of records. */
  predicate StillNeededForEquality(d: Difference): (r: bool)
    ensures r <==> d.mode in {Attribute, Value, Missing, Extra, Moved}
  {
    d.mode != FoundInsteadOf
  }

  /** The two filters never drop the same record, and each factory's record
      is dropped by exactly the filters its kind calls for. */
  lemma StillNeededFilters(name: string, v: Obj, w: Obj, i: int, j: int, d: Difference)
    ensures !StillNeededForEquivalence(d) ==> StillNeededForEquality(d)
    ensures !StillNeededForEquivalence(WasFoundElseWhere(name, v, i, j))
    ensures !StillNeededForEquivalence(DoesNotHaveExpectedValue(name, v, w, i))
    ensures StillNeededForEquivalence(DoesNotHaveExpectedAttribute(name, v, w, i))
    ensures StillNeededForEquivalence(WasNotFound(name, w, i))
    ensures StillNeededForEquivalence(WasNotExpected(name, v, i))
    ensures StillNeededForEquivalence(WasFoundInsteadOf(name, v, w))
    ensures !StillNeededForEquality(WasFoundInsteadOf(name, v, w))
    ensures StillNeededForEquality(WasFoundElseWhere(name, v, i, j))
  {
  }

  /** The sentence describing a record. `properly` is ToStringProperlyFormatted
      and `plain` is the object's own ToString (used by the Moved sentence). */
  function GetMessage(d: Difference, forEquivalence: bool, properly: Obj -> string, plain: Obj -> string): (r: string)
    ensures |r| > 0
    ensures r[|r| - 1] == if d.mode == Extra && forEquivalence then ')' else '.'
  {
    if d.mode == Extra then
      if forEquivalence then
        d.firstName + " value should not exist (value " + properly(d.firstValue) + ")"
      else
        d.firstName + " should not exist (value " + properly(d.firstValue) + ")."
    else if d.mode == Missing then
      if forEquivalence then
        properly(d.secondValue) + " should be present but was not found."
      else
        d.firstName + " does not exist. Expected " + properly(d.secondValue) + "."
    else if d.mode == Moved then
      d.firstName + " value ('" + plain(d.firstValue) + "') was found at index "
        + IntToString(d.actualIndex) + " instead of " + IntToString(d.index) + "."
    else if d.mode == Attribute then
      d.firstName + " = " + properly(d.firstValue) + " instead of " + properly(d.secondValue) + "."
    else if d.mode == FoundInsteadOf then
      properly(d.firstValue) + " should not exist (found in " + d.firstName + "); "
        + properly(d.secondValue) + " should be found instead."
    else
      d.firstName + " = " + properly(d.firstValue) + " instead of " + properly(d.secondValue) + "."
  }

  /** Only Extra and Missing sentences depend on the comparison mode. */
  lemma MessageModeIndependence(d: Difference, properly: Obj -> string, plain: Obj -> string)
    ensures d.mode !in {Extra, Missing} ==>
              GetMessage(d, true, properly, plain) == GetMessage(d, false, properly, plain)
    ensures d.mode == Extra ==>
              GetMessage(d, true, properly, plain) != GetMessage(d, false, properly, plain)
  {
  }

  /** The Missing sentence does change with the mode: one witness. */
  lemma MissingMessageDependsOnMode()
    ensures var d := WasNotFound("a[2]", Int(3), 2);
            var show := (o: Obj) => "3";
            GetMessage(d, true, show, show) != GetMessage(d, false, show, show)
  {
    var show := (o: Obj) => "3";
    var d := WasNotFound("a[2]", Int(3), 2);
    assert GetMessage(d, true, show, show)[0] == '3';
    assert GetMessage(d, false, show, show)[0] == 'a';
  }

  /** A Value record reads exactly like the Attribute record with the same fields. */
  lemma ValueReadsAsAttribute(d: Difference, forEquivalence: bool, properly: Obj -> string, plain: Obj -> string)
    requires d.mode == Value
    ensures GetMessage(d, forEquivalence, properly, plain)
         == GetMessage(d.(mode := Attribute), forEquivalence, properly, plain)
  {
  }

  /** A sentence reads only the fields its kind defines. */
  lemma MessageReadsDefinedFields(d: Difference, forEquivalence: bool, properly: Obj -> string, plain: Obj -> string,
                                  other: Obj, otherIndex: int)
    ensures d.mode == Missing ==>
              GetMessage(d, forEquivalence, properly, plain)
              == GetMessage(d.(firstValue := other), forEquivalence, properly, plain)
    ensures d.mode in {Extra, Moved} ==>
              GetMessage(d, forEquivalence, properly, plain)
              == GetMessage(d.(secondValue := other), forEquivalence, properly, plain)
    ensures d.mode != Moved ==>
              GetMessage(d, forEquivalence, properly, plain)
              == GetMessage(d.(actualIndex := otherIndex), forEquivalence, properly, plain)
  {
  }

  /** The Moved sentence cites where the value was found before where it
      was expected: the entry's name and value, then the actual index, then
      " instead of " and the expected index. */
  lemma MovedSentence(d: Difference, forEquivalence: bool, properly: Obj -> string, plain: Obj -> string)
    requires d.mode == Moved
    ensures GetMessage(d, forEquivalence, properly, plain)
         == (d.firstName + " value ('" + plain(d.firstValue) + "') was found at index ")
            + (IntToString(d.actualIndex) + (" instead of " + (IntToString(d.index) + ".")))
  {
  }

  /** Two sentences with the same text around two rendered integers agree on
      both integers. */
  lemma {:induction false} TwoNumbersRead(prefix: string, a1: int, i1: int, a2: int, i2: int)
    requires prefix + (IntToString(a1) + (" instead of " + (IntToString(i1) + ".")))
          == prefix + (IntToString(a2) + (" instead of " + (IntToString(i2) + ".")))
    ensures a1 == a2 && i1 == i2
  {
    var s1, s2 := IntToString(a1), IntToString(a2);
    var j1, j2 := IntToString(i1), IntToString(i2);
    var tail1, tail2 := " instead of " + (j1 + "."), " instead of " + (j2 + ".");
    assert s1 + tail1 == (prefix + (s1 + tail1))[|prefix|..];
    assert s2 + tail2 == (prefix + (s2 + tail2))[|prefix|..];
    SplitAtNonNumeral(s1, tail1, s2, tail2);
    IntToStringInjective(a1, a2);
    assert j1 + "." == tail1[12..];
    assert j2 + "." == tail2[12..];
    SplitAtNonNumeral(j1, ".", j2, ".");
    IntToStringInjective(i1, i2);
  }

  /** The Moved sentence determines both indices: two Moved records of the
      same entry read alike only when they agree on where the value was
      found and where it was expected. */
  lemma MovedMessageDeterminesIndices(d1: Difference, d2: Difference, forEquivalence: bool,
                                      properly: Obj -> string, plain: Obj -> string)
    requires d1.mode == Moved && d2.mode == Moved
    requires d1.firstName == d2.firstName && plain(d1.firstValue) == plain(d2.firstValue)
    requires GetMessage(d1, forEquivalence, properly, plain) == GetMessage(d2, forEquivalence, properly, plain)
    ensures d1.actualIndex == d2.actualIndex && d1.index == d2.index
  {
    MovedSentence(d1, forEquivalence, properly, plain);
    MovedSentence(d2, forEquivalence, properly, plain);
    var prefix := d1.firstName + " value ('" + plain(d1.firstValue) + "') was found at index ";
    TwoNumbersRead(prefix, d1.actualIndex, d1.index, d2.actualIndex, d2.index);
  }

  /** The Moved sentence tells its two indices apart: exchanging two
      different indices of a Moved record changes its sentence. */
  lemma MovedMessageTellsIndicesApart(d: Difference, forEquivalence: bool,
                                          properly: Obj -> string, plain: Obj -> string)
    requires d.mode == Moved && d.actualIndex != d.index
    ensures GetMessage(d, forEquivalence, properly, plain)
         != GetMessage(d.(actualIndex := d.index, index := d.actualIndex), forEquivalence, properly, plain)
  {
    var e := d.(actualIndex := d.index, index := d.actualIndex);
    if GetMessage(d, forEquivalence, properly, plain) == GetMessage(e, forEquivalence, properly, plain) {
      MovedMessageDeterminesIndices(d, e, forEquivalence, properly, plain);
      assert false;
    }
  }
}
