/** The two refinements that can follow `Contains(values)`: `Once`, which
    asks every value to occur a single time, and `InThatOrder`, which asks
    the values to occur in the order given. Both refuse negation and hand
    back the link they were called on. */
module StringFluentSyntax {
  import opened Outcomes
  import opened Numerals
  import opened Ordinal
  import opened CheckMessages

  /** The extendable link `Contains` returns: the checked string, the values
      it was given, and whether the check was negated. */
  datatype Link = Link(sut: string, comparands: seq<string>, negated: bool)

  // ---- Once ----

  /** `v` occurs at two different positions of `s`. */
  predicate Repeats(s: string, v: string) {
    exists p, q | 0 <= p < q <= |s| :: OccursAt(s, v, p) && OccursAt(s, v, q)
  }

  /** The one case where the second search starts past the end of the string
      and .NET's `IndexOf` throws ArgumentOutOfRangeException. */
  predicate SearchesPastEnd(s: string, v: string) {
    s == "" && v == ""
  }

  /** The first occurrence of `v` and the next one after it, as the two
      searches of `Once` find them. */
  function Occurrences(s: string, v: string): (r: (int, int))
    requires !SearchesPastEnd(s, v)
    ensures r.0 == IndexOf(s, v, 0)
    ensures r.1 != -1 <==> Repeats(s, v)
    ensures r.1 != -1 ==> r.0 < r.1 && OccursAt(s, v, r.0) && OccursAt(s, v, r.1)
    ensures r.1 != -1 ==> forall p | r.0 < p < r.1 :: !OccursAt(s, v, p)
  {
    var first := IndexOf(s, v, 0);
    SecondSearchInRange(s, v);
    var second := IndexOf(s, v, first + 1);
    SecondSearchDecidesRepeats(s, v);
    (first, second)
  }

  lemma SecondSearchInRange(s: string, v: string)
    requires !SearchesPastEnd(s, v)
    ensures IndexOf(s, v, 0) + 1 <= |s|
  {
  }

  lemma SecondSearchDecidesRepeats(s: string, v: string)
    requires !SearchesPastEnd(s, v)
    ensures IndexOf(s, v, 0) + 1 <= |s|
    ensures IndexOf(s, v, IndexOf(s, v, 0) + 1) != -1 <==> Repeats(s, v)
  {
    var first := IndexOf(s, v, 0);
    SecondSearchInRange(s, v);
    if Repeats(s, v) {
      var p, q :| 0 <= p < q <= |s| && OccursAt(s, v, p) && OccursAt(s, v, q);
      assert first + 1 <= q;
    }
  }

  /** What `Once` concludes about the values `vs`, read in order: the first
      value that occurs twice fails the check, naming its first two
      positions. */
  function OnceVerdict(s: string, vs: seq<string>, render: string -> string): (r: Verdict)
    ensures !r.Error? || r == Error(ArgumentOutOfRange)
    ensures r.Error? <==> s == "" && "" in vs
  {
    if vs == [] then Pass
    else if SearchesPastEnd(s, vs[0]) then Error(ArgumentOutOfRange)
    else if Repeats(s, vs[0]) then
      var (first, second) := Occurrences(s, vs[0]);
      Fail(Says(OnceMessage(vs[0], first, second, render)))
    else
      assert vs == [vs[0]] + vs[1..];
      OnceVerdict(s, vs[1..], render)
  }

  /** `Once` passes exactly when no value occurs twice (and the search never
      starts past the end); otherwise it stops at the first value that
      does, and reports that value. */
  lemma {:induction false} OnceVerdictMeansOnce(s: string, vs: seq<string>, render: string -> string)
    ensures OnceVerdict(s, vs, render).Pass? <==>
              forall k | 0 <= k < |vs| :: !Repeats(s, vs[k]) && !SearchesPastEnd(s, vs[k])
    ensures OnceVerdict(s, vs, render).Fail? ==>
              exists k | 0 <= k < |vs| ::
                && (forall j | 0 <= j < k :: !Repeats(s, vs[j]) && !SearchesPastEnd(s, vs[j]))
                && !SearchesPastEnd(s, vs[k]) && Repeats(s, vs[k])
                && OnceVerdict(s, vs, render)
                   == Fail(Says(OnceMessage(vs[k], Occurrences(s, vs[k]).0, Occurrences(s, vs[k]).1, render)))
  {
    if vs != [] && !SearchesPastEnd(s, vs[0]) && !Repeats(s, vs[0]) {
      var rest := vs[1..];
      OnceVerdictMeansOnce(s, rest, render);
      assert forall k | 1 <= k < |vs| :: vs[k] == rest[k - 1];
      assert OnceVerdict(s, vs, render) == OnceVerdict(s, rest, render);
      if OnceVerdict(s, vs, render).Fail? {
        var k :| 0 <= k < |rest| &&
                 (forall j | 0 <= j < k :: !Repeats(s, rest[j]) && !SearchesPastEnd(s, rest[j])) &&
                 !SearchesPastEnd(s, rest[k]) && Repeats(s, rest[k]) &&
                 OnceVerdict(s, rest, render)
                 == Fail(Says(OnceMessage(rest[k], Occurrences(s, rest[k]).0, Occurrences(s, rest[k]).1, render)));
        assert rest[k] == vs[k + 1];
        assert forall j | 0 <= j < k + 1 :: !Repeats(s, vs[j]) && !SearchesPastEnd(s, vs[j]) by {
          forall j | 0 <= j < k + 1 ensures !Repeats(s, vs[j]) && !SearchesPastEnd(s, vs[j]) {
            if j > 0 {
              assert vs[j] == rest[j - 1];
            }
          }
        }
      }
    }
  }

  /** `Once`: refused under negation; otherwise searches every value twice,
      from the start and then just after its first occurrence. */
  method Once(link: Link, render: string -> string) returns (verdict: Verdict, next: Link)
    ensures next == link
    ensures link.negated ==> verdict == Error(NegationRefused("Once"))
    ensures !link.negated ==> verdict == OnceVerdict(link.sut, link.comparands, render)
  {
    next := link;
    if link.negated {
      return Error(NegationRefused("Once")), next;
    }
    var s, vs := link.sut, link.comparands;
    verdict := Pass;
    for k := 0 to |vs|
      invariant OnceVerdict(s, vs[k..], render) == OnceVerdict(s, vs, render)
    {
      assert vs[k..][1..] == vs[k + 1..];
      var content := vs[k];
      var firstIndex := IndexOf(s, content, 0);
      if firstIndex + 1 > |s| {
        // only the empty value in the empty string gets here
        return Error(ArgumentOutOfRange), next;
      }
      var lastIndexOf := IndexOf(s, content, firstIndex + 1);
      SecondSearchDecidesRepeats(s, content);
      if lastIndexOf != -1 {
        return Fail(Says(OnceMessage(content, firstIndex, lastIndexOf, render))), next;
      }
    }
  }

  // ---- InThatOrder ----

  const OrderMessage := "The {0} does not contain the expected strings in the correct order."

  /** `ps` places each value of `vs` at an occurrence in `s`, the positions
      never going back and the first at or after `from`. The same position
      may serve several values. */
  ghost predicate IsChainFrom(s: string, vs: seq<string>, ps: seq<int>, from: int) {
    && |ps| == |vs|
    && (forall k | 0 <= k < |vs| :: OccursAt(s, vs[k], ps[k]))
    && (|ps| > 0 ==> from <= ps[0])
    && (forall k | 0 < k < |ps| :: ps[k - 1] <= ps[k])
  }

  /** The greedy search of `InThatOrder`: each value is searched from where
      the previous one started. */
  function InOrderFrom(s: string, vs: seq<string>, from: nat): (r: bool)
    requires from <= |s|
    ensures r ==> forall k | 0 <= k < |vs| :: IndexOf(s, vs[k], from) != -1
  {
    if vs == [] then true
    else
      var p := IndexOf(s, vs[0], from);
      if p == -1 then false
      else
        var r := InOrderFrom(s, vs[1..], p);
        assert r ==> forall k | 0 < k < |vs| :: IndexOf(s, vs[k], from) != -1 by {
          if r {
            forall k | 0 < k < |vs| ensures IndexOf(s, vs[k], from) != -1 {
              assert vs[k] == vs[1..][k - 1];
              SearchFromEarlier(s, vs[k], from, p);
            }
          }
        }
        r
  }

  /** A search that succeeds from some start also succeeds from any earlier one. */
  lemma SearchFromEarlier(s: string, v: string, from: nat, p: nat)
    requires from <= p <= |s| && IndexOf(s, v, p) != -1
    ensures IndexOf(s, v, from) != -1
  {
    var q := IndexOf(s, v, p);
    assert OccursAt(s, v, q);
  }

  /** The greedy search succeeds exactly when some chain exists. */
  lemma {:induction false} InOrderMeansChain(s: string, vs: seq<string>, from: nat)
    requires from <= |s|
    ensures InOrderFrom(s, vs, from) <==> exists ps :: IsChainFrom(s, vs, ps, from)
  {
    if InOrderFrom(s, vs, from) {
      var ps := GreedyChain(s, vs, from);
      assert IsChainFrom(s, vs, ps, from);
    }
    if ps :| IsChainFrom(s, vs, ps, from) {
      ChainMeansInOrder(s, vs, ps, from);
    }
  }

  /** Soundness: the positions the greedy search finds form a chain. */
  lemma {:induction false} GreedyChain(s: string, vs: seq<string>, from: nat) returns (ps: seq<int>)
    requires from <= |s| && InOrderFrom(s, vs, from)
    ensures IsChainFrom(s, vs, ps, from)
  {
    if vs == [] {
      ps := [];
    } else {
      var p := IndexOf(s, vs[0], from);
      var rest := GreedyChain(s, vs[1..], p);
      ps := [p] + rest;
      forall k | 0 < k < |vs| ensures OccursAt(s, vs[k], ps[k]) {
        assert vs[k] == vs[1..][k - 1];
      }
      forall k | 0 < k < |ps| ensures ps[k - 1] <= ps[k] {
        if k > 1 {
          assert ps[k - 1] == rest[k - 2] && ps[k] == rest[k - 1];
        }
      }
    }
  }

  /** Completeness: if any chain exists, the greedy search, which always
      takes the earliest occurrence, finds one. */
  lemma {:induction false} ChainMeansInOrder(s: string, vs: seq<string>, ps: seq<int>, from: nat)
    requires from <= |s| && IsChainFrom(s, vs, ps, from)
    ensures InOrderFrom(s, vs, from)
  {
    if vs != [] {
      var p := IndexOf(s, vs[0], from);
      assert OccursAt(s, vs[0], ps[0]) && from <= ps[0];
      assert p != -1 && p <= ps[0];
      var rest := ps[1..];
      forall k | 0 <= k < |vs[1..]| ensures OccursAt(s, vs[1..][k], rest[k]) {
        assert vs[1..][k] == vs[k + 1] && rest[k] == ps[k + 1];
      }
      forall k | 0 < k < |rest| ensures rest[k - 1] <= rest[k] {
        assert rest[k - 1] == ps[k] && rest[k] == ps[k + 1];
      }
      if |rest| > 0 {
        assert rest[0] == ps[1] && ps[0] <= ps[1];
      }
      ChainMeansInOrder(s, vs[1..], rest, p);
    }
  }

  /** A value listed twice in a row needs a single occurrence: the search for
      the second copy starts on the first one. */
  lemma RepeatedValueNeedsOneOccurrence(s: string, v: string)
    ensures InOrderFrom(s, [v, v], 0) <==> IsSubstring(v, s)
  {
    IndexOfDecidesContains(s, v);
    var p := IndexOf(s, v, 0);
    assert [v, v][1..] == [v];
    if p != -1 {
      assert IndexOf(s, v, p) == p;
      assert [v][1..] == [];
      assert InOrderFrom(s, [v], p);
    }
  }

  /** `InThatOrder`: refused under negation; otherwise fails exactly when the
      greedy search loses a value, the link being handed back either way. */
  method InThatOrder(link: Link) returns (verdict: Verdict, next: Link)
    ensures next == link
    ensures link.negated ==> verdict == Error(NegationRefused("InThatOrder"))
    ensures !link.negated ==>
              verdict == if InOrderFrom(link.sut, link.comparands, 0) then Pass else Fail(Says(OrderMessage))
  {
    next := link;
    if link.negated {
      return Error(NegationRefused("InThatOrder")), next;
    }
    var s, vs := link.sut, link.comparands;
    var lastIndex := 0;
    for k := 0 to |vs|
      invariant 0 <= lastIndex <= |s|
      invariant InOrderFrom(s, vs[k..], lastIndex) == InOrderFrom(s, vs, 0)
    {
      assert vs[k..][1..] == vs[k + 1..];
      lastIndex := IndexOf(s, vs[k], lastIndex);
      if lastIndex < 0 {
        return Fail(Says(OrderMessage)), next;
      }
    }
    verdict := Pass;
  }
}
