/** An index-wise structural comparison producing difference records, in
    equality mode, over nulls, scalars and lists. The walker that does this
    in the library is not part of this model; this one is reconstructed
    from the behaviour its unit tests pin down (labels `a[0]` and `a[1][0]`,
    the values 1 and 3, two records for two differing elements, and the
    label `a[1]` for a null element and for a longer or shorter list). */
module DifferenceFinders {
  import opened Numerals
  import opened DifferenceDetails

  /** The name of element `i` below `name`: `name[i]`. */
  function ElementLabel(name: string, i: int): string {
    name + "[" + IntToString(i) + "]"
  }

  /** The first index of `xs` holding `v`, if any. */
  function FirstIndexOf(xs: seq<Obj>, v: Obj): (r: int)
    ensures r == -1 <==> v !in xs
    ensures r != -1 ==> 0 <= r < |xs| && xs[r] == v && v !in xs[..r]
  {
    if xs == [] then -1
    else if xs[0] == v then 0
    else
      var r := FirstIndexOf(xs[1..], v);
      assert xs == [xs[0]] + xs[1..];
      if r == -1 then -1
      else
        assert xs[..r + 1] == [xs[0]] + xs[1..][..r];
        r + 1
  }

  /** The differences between a checked value and an expected one, labelled
      from `name`: none for two nulls or two equal scalars, one Value record
      when a null meets a value or the kinds or scalars differ, and the
      element-wise comparison for two lists. A comparison that is not between
      two lists gives at most one record, and two lists of different lengths
      always give one. */
  function ValueDifference(actual: Obj, name: string, expected: Obj): (r: seq<Difference>)
    ensures !(actual.Items? && expected.Items?) ==> |r| <= 1
    ensures actual.Items? && expected.Items? && |actual.items| != |expected.items| ==> r != []
    decreases actual, 1
  {
    if actual.Null? && expected.Null? then []
    else if actual.Items? && expected.Items? then Correlate(actual.items, expected.items, name, 0)
    else if actual == expected && !actual.Items? then []
    else [DoesNotHaveExpectedValue(name, actual, expected, 0)]
  }

  /** The record for an expected element `ys[k]` that has no counterpart at
      index `k` of the checked list: Moved to the first index of the checked
      list that holds it, or Missing when no index does. */
  function UnmatchedExpected(xs: seq<Obj>, ys: seq<Obj>, name: string, k: nat): (d: Difference)
    requires k < |ys|
    ensures d.firstName == ElementLabel(name, k) && d.index == k && Coherent(d)
    ensures d.mode == Moved <==> ys[k] in xs
    ensures d.mode == Moved ==>
              && d.firstValue == ys[k] && 0 <= d.actualIndex < |xs|
              && xs[d.actualIndex] == ys[k] && ys[k] !in xs[..d.actualIndex]
    ensures d.mode != Moved ==> d.mode == Missing && d.secondValue == ys[k]
  {
    var j := FirstIndexOf(xs, ys[k]);
    if j != -1 then WasFoundElseWhere(ElementLabel(name, k), ys[k], k, j)
    else WasNotFound(ElementLabel(name, k), ys[k], k)
  }

  /** The element-wise comparison from index `i` on: elements present on
      both sides are compared under `name[i]`; an expected element past the
      checked list's end is reported Moved when the checked list holds it
      elsewhere (the first such index), Missing otherwise; a checked element
      past the expected list's end is Extra. Lists of different lengths,
      compared from an index both still hold, always differ. */
  function Correlate(xs: seq<Obj>, ys: seq<Obj>, name: string, i: nat): (r: seq<Difference>)
    ensures i <= |xs| && i <= |ys| && |xs| != |ys| ==> r != []
    decreases Items(xs), 0, |xs| + |ys| - i
  {
    if i >= |xs| && i >= |ys| then []
    else
      var here :=
        if i < |xs| && i < |ys| then ValueDifference(xs[i], ElementLabel(name, i), ys[i])
        else if i < |ys| then [UnmatchedExpected(xs, ys, name, i)]
        else [WasNotExpected(ElementLabel(name, i), xs[i], i)];
      here + Correlate(xs, ys, name, i + 1)
  }

  /** One step of the comparison where both lists have element `i`. */
  lemma BothStep(xs: seq<Obj>, ys: seq<Obj>, name: string, i: nat)
    requires i < |xs| && i < |ys|
    ensures Correlate(xs, ys, name, i)
         == ValueDifference(xs[i], ElementLabel(name, i), ys[i]) + Correlate(xs, ys, name, i + 1)
  {
  }

  /** One step of the comparison past the end of the checked list. */
  lemma PastCheckedStep(xs: seq<Obj>, ys: seq<Obj>, name: string, i: nat)
    requires |xs| <= i < |ys|
    ensures Correlate(xs, ys, name, i) == [UnmatchedExpected(xs, ys, name, i)] + Correlate(xs, ys, name, i + 1)
  {
  }

  /** One step of the comparison past the end of the expected list. */
  lemma PastExpectedStep(xs: seq<Obj>, ys: seq<Obj>, name: string, i: nat)
    requires |ys| <= i < |xs|
    ensures Correlate(xs, ys, name, i)
         == [WasNotExpected(ElementLabel(name, i), xs[i], i)] + Correlate(xs, ys, name, i + 1)
  {
  }

  /** The records of the expected elements from index `i` on, each unmatched. */
  function UnmatchedFrom(xs: seq<Obj>, ys: seq<Obj>, name: string, i: nat): (r: seq<Difference>)
    ensures |r| == if i <= |ys| then |ys| - i else 0
    ensures forall j | 0 <= j < |r| :: r[j] == UnmatchedExpected(xs, ys, name, i + j)
    decreases |ys| - i
  {
    if i >= |ys| then []
    else
      var tail := UnmatchedFrom(xs, ys, name, i + 1);
      var r := [UnmatchedExpected(xs, ys, name, i)] + tail;
      assert forall j | 0 < j < |r| :: r[j] == tail[j - 1];
      r
  }

  /** Past the end of the checked list, each expected element `ys[i + j]`
      gives one record, `UnmatchedExpected`, for its own index. */
  lemma {:induction false} PastCheckedEnd(xs: seq<Obj>, ys: seq<Obj>, name: string, i: nat)
    requires |xs| <= i <= |ys|
    ensures Correlate(xs, ys, name, i) == UnmatchedFrom(xs, ys, name, i)
    decreases |ys| - i
  {
    if i < |ys| {
      PastCheckedEnd(xs, ys, name, i + 1);
      PastCheckedStep(xs, ys, name, i);
    }
  }

  /** The Extra records of the checked elements from index `i` on. */
  function ExtraFrom(xs: seq<Obj>, name: string, i: nat): (r: seq<Difference>)
    ensures |r| == if i <= |xs| then |xs| - i else 0
    ensures forall j | 0 <= j < |r| :: r[j] == WasNotExpected(ElementLabel(name, i + j), xs[i + j], i + j)
    decreases |xs| - i
  {
    if i >= |xs| then []
    else
      var tail := ExtraFrom(xs, name, i + 1);
      var r := [WasNotExpected(ElementLabel(name, i), xs[i], i)] + tail;
      assert forall j | 0 < j < |r| :: r[j] == tail[j - 1];
      r
  }

  /** Past the end of the expected list, each checked element `xs[i + j]`
      gives one Extra record labelled `name[i + j]` at that index. */
  lemma {:induction false} PastExpectedEnd(xs: seq<Obj>, ys: seq<Obj>, name: string, i: nat)
    requires |ys| <= i <= |xs|
    ensures var r := Correlate(xs, ys, name, i);
            && |r| == |xs| - i
            && forall j | 0 <= j < |r| :: r[j] == WasNotExpected(ElementLabel(name, i + j), xs[i + j], i + j)
    decreases |xs| - i
  {
    assert Correlate(xs, ys, name, i) == ExtraFrom(xs, name, i) by {
      ExtraTail(xs, ys, name, i);
    }
  }

  lemma {:induction false} ExtraTail(xs: seq<Obj>, ys: seq<Obj>, name: string, i: nat)
    requires |ys| <= i <= |xs|
    ensures Correlate(xs, ys, name, i) == ExtraFrom(xs, name, i)
    decreases |xs| - i
  {
    if i < |xs| {
      ExtraTail(xs, ys, name, i + 1);
      PastExpectedStep(xs, ys, name, i);
    }
  }

  /** Every record produced is coherent with its kind. */
  lemma {:induction false} ValueDifferenceCoherent(actual: Obj, name: string, expected: Obj)
    ensures forall d | d in ValueDifference(actual, name, expected) :: Coherent(d)
    decreases actual, 1
  {
    if actual.Items? && expected.Items? {
      CorrelateCoherent(actual.items, expected.items, name, 0);
    }
  }

  lemma {:induction false} CorrelateCoherent(xs: seq<Obj>, ys: seq<Obj>, name: string, i: nat)
    ensures forall d | d in Correlate(xs, ys, name, i) :: Coherent(d)
    decreases Items(xs), 0, |xs| + |ys| - i
  {
    if i < |xs| || i < |ys| {
      if i < |xs| && i < |ys| {
        ValueDifferenceCoherent(xs[i], ElementLabel(name, i), ys[i]);
      }
      CorrelateCoherent(xs, ys, name, i + 1);
    }
  }

  /** A value compared with itself has no difference. */
  lemma {:induction false} NoDifferenceWithItself(x: Obj, name: string)
    ensures ValueDifference(x, name, x) == []
    decreases x, 1
  {
    if x.Items? {
      NoDifferenceWithItselfFrom(x.items, name, 0);
    }
  }

  lemma {:induction false} NoDifferenceWithItselfFrom(xs: seq<Obj>, name: string, i: nat)
    ensures Correlate(xs, xs, name, i) == []
    decreases Items(xs), 0, |xs| - i
  {
    if i < |xs| {
      NoDifferenceWithItself(xs[i], ElementLabel(name, i));
      NoDifferenceWithItselfFrom(xs, name, i + 1);
    }
  }

  /** No difference means equal values: together with the lemma above, the
      walker finds nothing exactly for equal values. */
  lemma {:induction false} NoDifferenceMeansEqual(actual: Obj, name: string, expected: Obj)
    requires ValueDifference(actual, name, expected) == []
    ensures actual == expected
    decreases actual, 1
  {
    if actual.Items? && expected.Items? {
      NoDifferenceFromMeansEqual(actual.items, expected.items, name, 0);
      assert actual.items == actual.items[0..] && expected.items == expected.items[0..];
    }
  }

  lemma {:induction false} NoDifferenceFromMeansEqual(xs: seq<Obj>, ys: seq<Obj>, name: string, i: nat)
    requires i <= |xs| && i <= |ys|
    requires Correlate(xs, ys, name, i) == []
    ensures |xs| == |ys| && xs[i..] == ys[i..]
    decreases Items(xs), 0, |xs| + |ys| - i
  {
    if i < |xs| || i < |ys| {
      if i == |xs| {
        PastCheckedStep(xs, ys, name, i);
        assert false;
      }
      if i == |ys| {
        PastExpectedStep(xs, ys, name, i);
        assert false;
      }
      BothStep(xs, ys, name, i);
      NoDifferenceMeansEqual(xs[i], ElementLabel(name, i), ys[i]);
      NoDifferenceFromMeansEqual(xs, ys, name, i + 1);
      assert xs[i..] == [xs[i]] + xs[i + 1..] && ys[i..] == [ys[i]] + ys[i + 1..];
    }
  }

  // ---- the behaviour the unit tests pin down ----

  function IntList(xs: seq<int>): (r: Obj)
    ensures r.Items? && |r.items| == |xs|
    ensures forall k | 0 <= k < |xs| :: r.items[k] == Int(xs[k])
  {
    if xs == [] then Items([]) else Items([Int(xs[0])] + IntList(xs[1..]).items)
  }

  lemma ElementLabels()
    ensures ElementLabel("a", 0) == "a[0]" && ElementLabel("a", 1) == "a[1]"
    ensures ElementLabel("a[1]", 0) == "a[1][0]"
  {
    assert IntToString(0) == "0" && IntToString(1) == "1";
  }

  /** `[1, 2]` against `[3, 4]`: two records, the first for `a[0]` with the
      values 1 and 3. */
  lemma TwoDifferingElements()
    ensures var r := ValueDifference(IntList([1, 2]), "a", IntList([3, 4]));
            |r| == 2 && r[0].firstName == "a[0]" && r[0].firstValue == Int(1) && r[0].secondValue == Int(3)
  {
    ElementLabels();
    var xs, ys := IntList([1, 2]).items, IntList([3, 4]).items;
    assert xs == [Int(1), Int(2)] && ys == [Int(3), Int(4)];
    assert Correlate(xs, ys, "a", 2) == [];
  }

  /** `[[1, 2], [3, 4]]` against `[[1, 2], [1, 2]]`: the first record is for `a[1][0]`. */
  lemma NestedDifference()
    ensures var r := ValueDifference(Items([IntList([1, 2]), IntList([3, 4])]), "a",
                                     Items([IntList([1, 2]), IntList([1, 2])]));
            |r| > 0 && r[0].firstName == "a[1][0]"
  {
    ElementLabels();
    NoDifferenceWithItself(IntList([1, 2]), "a[0]");
    var inner := IntList([3, 4]).items;
    assert inner == [Int(3), Int(4)] && IntList([1, 2]).items == [Int(1), Int(2)];
  }

  /** A null element on either side is one record for `a[1]`. */
  lemma NullElement()
    ensures var r := ValueDifference(Items([IntList([1, 2]), Null]), "a",
                                     Items([IntList([1, 2]), IntList([3, 4])]));
            |r| > 0 && r[0].firstName == "a[1]"
    ensures var r := ValueDifference(Items([IntList([1, 2]), IntList([3, 4])]), "a",
                                     Items([IntList([1, 2]), Null]));
            |r| > 0 && r[0].firstName == "a[1]"
  {
    ElementLabels();
    NoDifferenceWithItself(IntList([1, 2]), "a[0]");
  }

  /** A list shorter or longer than expected: the first record is for `a[1]`. */
  lemma DifferentLengths()
    ensures var r := ValueDifference(Items([IntList([1, 2])]), "a",
                                     Items([IntList([1, 2]), IntList([3, 4])]));
            |r| > 0 && r[0].firstName == "a[1]"
    ensures var r := ValueDifference(Items([IntList([1, 2]), IntList([3, 4])]), "a",
                                     Items([IntList([1, 2])]));
            |r| > 0 && r[0].firstName == "a[1]"
  {
    ElementLabels();
    NoDifferenceWithItself(IntList([1, 2]), "a[0]");
  }

  /** `[1, 2]` against `[1, 2, 3]`: a single Missing record for index 2,
      expecting 3. */
  lemma MissingTail()
    ensures ValueDifference(IntList([1, 2]), "a", IntList([1, 2, 3]))
            == [WasNotFound(ElementLabel("a", 2), Int(3), 2)]
  {
    var xs, ys := IntList([1, 2]).items, IntList([1, 2, 3]).items;
    assert xs == [Int(1), Int(2)] && ys == [Int(1), Int(2), Int(3)];
    assert FirstIndexOf(xs, Int(3)) == -1;
  }
}
