/** The check on an exception raised by checked code, and its `DueTo<TE>()`
    step, which looks down the chain of inner exceptions for one whose type
    is exactly `TE` and continues the check on it. */
module LambdaExceptionCheck {
  import opened Outcomes

  /** An exception: its runtime type and its inner exception, if any. */
  datatype Exn = Exn(typeName: string, inner: Option<Exn>)

  /** `LambdaExceptionCheck<T>`: the exception under check and whether the
      check is negated. */
  datatype LambdaCheck = LambdaCheck(value: Exn, negated: bool)

  const NoInnerMessage := "There is no inner exception."
  const NotOfTypeMessage := "The {0} is not of the expected type."

  /** `e` followed by its inner exception, that one's inner exception, and so
      on down to the innermost. */
  function Chain(e: Exn): (r: seq<Exn>)
    ensures |r| > 0 && r[0] == e
    ensures forall k | 0 < k < |r| :: r[k - 1].inner == Some(r[k])
    ensures r[|r| - 1].inner.None?
  {
    match e.inner
    case None => [e]
    case Some(i) => [e] + Chain(i)
  }

  /** The first exception of `es` whose type is exactly `typeName`. */
  function FirstOfType(es: seq<Exn>, typeName: string): (r: Option<nat>)
    ensures r.None? <==> forall k | 0 <= k < |es| :: es[k].typeName != typeName
    ensures r.Some? ==> r.value < |es| && es[r.value].typeName == typeName
    ensures r.Some? ==> forall k | 0 <= k < r.value :: es[k].typeName != typeName
  {
    if es == [] then None
    else if es[0].typeName == typeName then Some(0)
    else match FirstOfType(es[1..], typeName)
      case None => None
      case Some(k) => Some(k + 1)
  }

  /** `DueTo<TE>()`: refused under negation; fails when the exception has no
      inner exception, or when no exception from the inner one down has
      type `typeName`; otherwise continues on the first that has, keeping
      the negation flag. */
  method DueTo(check: LambdaCheck, typeName: string) returns (verdict: Verdict, next: Option<LambdaCheck>)
    ensures next.Some? <==> verdict.Pass?
    ensures check.negated ==> verdict == Error(NegationRefused("DueTo"))
    ensures !check.negated && check.value.inner.None? ==> verdict == Fail(Says(NoInnerMessage))
    ensures !check.negated && check.value.inner.Some? ==>
              var chain := Chain(check.value.inner.value);
              match FirstOfType(chain, typeName)
              case None => verdict == Fail(Says(NotOfTypeMessage))
              case Some(k) => next == Some(LambdaCheck(chain[k], check.negated))
  {
    if check.negated {
      return Error(NegationRefused("DueTo")), None;
    }
    if check.value.inner.None? {
      return Fail(Says(NoInnerMessage)), None;
    }
    var chain := Chain(check.value.inner.value);
    var resultException := check.value.inner;
    ghost var k := 0;
    while resultException.Some?
      invariant 0 <= k <= |chain|
      invariant resultException.Some? <==> k < |chain|
      invariant resultException.Some? ==> resultException.value == chain[k]
      invariant forall j | 0 <= j < k :: chain[j].typeName != typeName
      decreases |chain| - k
    {
      if resultException.value.typeName == typeName {
        break;
      }
      assert k + 1 < |chain| ==> chain[k].inner == Some(chain[k + 1]);
      resultException := resultException.value.inner;
      k := k + 1;
    }
    if resultException.None? {
      assert FirstOfType(chain, typeName).None?;
      return Fail(Says(NotOfTypeMessage)), None;
    }
    assert FirstOfType(chain, typeName) == Some(k);
    verdict, next := Pass, Some(LambdaCheck(resultException.value, check.negated));
  }

  /** The chain below the exception `DueTo` continues on is the rest of the
      chain it searched: a further `DueTo` looks strictly deeper. */
  lemma {:induction false} FoundContinuesTheChain(e: Exn, typeName: string)
    requires FirstOfType(Chain(e), typeName).Some?
    ensures var k := FirstOfType(Chain(e), typeName).value;
            Chain(e)[k..] == Chain(Chain(e)[k])
  {
    var chain := Chain(e);
    if chain[0].typeName != typeName {
      var i := e.inner.value;
      var rest := Chain(i);
      assert chain == [e] + rest;
      assert chain[1..] == rest;
      var j := FirstOfType(rest, typeName).value;
      assert FirstOfType(chain, typeName) == Some(j + 1);
      FoundContinuesTheChain(i, typeName);
      assert chain[j + 1..] == rest[j..];
    }
  }

  /** `ForkInstance`: a new check on the same exception, not negated. */
  function ForkInstance(check: LambdaCheck): (r: LambdaCheck)
    ensures r.value == check.value && !r.negated
  {
    LambdaCheck(check.value, false)
  }
}
