/** The part of .NET composite formatting (`string.Format`) that label
    messages use: `{n}` is replaced by the n-th argument, `{{` and `}}` stand
    for single braces, and any other brace is a FormatException. */
module CompositeFormat {
  import opened Outcomes
  import opened Numerals

  /** `s` holds no brace at all. */
  predicate NoBraces(s: string) {
    forall k | 0 <= k < |s| :: s[k] != '{' && s[k] != '}'
  }

  /** Prefixes a successful result; a failure stays a failure. */
  function Then(prefix: string, r: Option<string>): (t: Option<string>)
    ensures t.Some? <==> r.Some?
    ensures t.Some? ==> t.value == prefix + r.value
  {
    match r
    case None => None
    case Some(s) => Some(prefix + s)
  }

  /** The number of decimal digits `s` starts with. */
  function DigitRun(s: string): (n: nat)
    ensures n <= |s| && AllDigits(s[..n])
    ensures n < |s| ==> !IsDigit(s[n])
  {
    if s == [] || !IsDigit(s[0]) then 0
    else
      var n := 1 + DigitRun(s[1..]);
      assert forall k | 1 <= k < n :: s[..n][k] == s[1..][..n - 1][k - 1];
      n
  }

  /** `string.Format(fmt, args)`, `None` standing for the FormatException
      raised by a malformed format or an index past the arguments. */
  function Format(fmt: string, args: seq<string>): Option<string>
    decreases |fmt|
  {
    if fmt == [] then Some("")
    else if |fmt| >= 2 && fmt[0] == '{' && fmt[1] == '{' then Then("{", Format(fmt[2..], args))
    else if |fmt| >= 2 && fmt[0] == '}' && fmt[1] == '}' then Then("}", Format(fmt[2..], args))
    else if fmt[0] == '}' then None
    else if fmt[0] == '{' then
      var n := DigitRun(fmt[1..]);
      if n == 0 || 1 + n == |fmt| || fmt[1 + n] != '}' then None
      else
        var index := DigitsValue(fmt[1..][..n]);
        if index >= |args| then None else Then(args[index], Format(fmt[2 + n..], args))
    else Then([fmt[0]], Format(fmt[1..], args))
  }

  /** Text without braces is copied unchanged in front of the rest. */
  lemma {:induction false} LiteralPrefix(a: string, b: string, args: seq<string>)
    requires NoBraces(a)
    ensures Format(a + b, args) == Then(a, Format(b, args))
  {
    if a != [] {
      var s := a + b;
      assert s[0] == a[0] && s[1..] == a[1..] + b;
      assert s[0] != '{' && s[0] != '}';
      assert Format(s, args) == Then([a[0]], Format(a[1..] + b, args));
      assert NoBraces(a[1..]) by {
        assert forall k | 0 <= k < |a[1..]| :: a[1..][k] == a[k + 1];
      }
      LiteralPrefix(a[1..], b, args);
      if Format(b, args).Some? {
        var x := Format(b, args).value;
        assert [a[0]] + (a[1..] + x) == a + x;
      }
    } else {
      assert a + b == b;
      if Format(b, args).Some? {
        assert a + Format(b, args).value == Format(b, args).value;
      }
    }
  }

  /** The placeholder for argument `n`: `{n}`. Messages write their
      placeholders through it rather than as part of one literal, so that
      proofs about formatting them do not unfold `Format` over every
      character of the literal. */
  function Hole(n: nat): (h: string)
    ensures |h| >= 3 && h[0] == '{' && h[|h| - 1] == '}'
  {
    "{" + NatToString(n) + "}"
  }

  lemma HoleText()
    ensures Hole(0) == "{0}" && Hole(1) == "{1}"
  {
    assert NatToString(0) == "0" && NatToString(1) == "1";
  }

  /** A placeholder holding the decimal index of an argument is replaced by
      that argument. */
  lemma Placeholder(n: nat, b: string, args: seq<string>)
    requires n < |args|
    ensures Format(Hole(n) + b, args) == Then(args[n], Format(b, args))
  {
    var digits := NatToString(n);
    var s := Hole(n) + b;
    var tail := s[1..];
    assert tail == digits + ("}" + b);
    assert tail[..|digits|] == digits;
    assert forall k | 0 <= k < |digits| :: tail[k] == digits[k];
    assert tail[|digits|] == '}';
    DigitRunStopsAt(tail, |digits|);
    assert s[1 + |digits|] == '}';
    NatToStringRoundTrip(n);
    assert s[2 + |digits|..] == b;
  }

  lemma {:induction false} DigitRunStopsAt(s: string, n: nat)
    requires n < |s| && AllDigits(s[..n]) && !IsDigit(s[n])
    ensures DigitRun(s) == n
  {
    if n > 0 {
      assert IsDigit(s[..n][0]);
      assert s[1..][..n - 1] == s[..n][1..];
      DigitRunStopsAt(s[1..], n - 1);
    }
  }

  /** Every brace written twice: how literal text is made safe to use as a
      format. */
  function DoubleBraces(s: string): (r: string)
    ensures |r| >= |s|
  {
    if s == [] then []
    else (if s[0] == '{' || s[0] == '}' then [s[0], s[0]] else [s[0]]) + DoubleBraces(s[1..])
  }

  /** A doubled brace reads as one brace. */
  lemma DoubledBraceStep(c: char, rest: string, args: seq<string>)
    requires c == '{' || c == '}'
    ensures Format([c, c] + rest, args) == Then([c], Format(rest, args))
  {
    var s := [c, c] + rest;
    assert s[0] == c && s[1] == c && s[2..] == rest;
  }

  /** Any other character is copied. */
  lemma LiteralStep(c: char, rest: string, args: seq<string>)
    requires c != '{' && c != '}'
    ensures Format([c] + rest, args) == Then([c], Format(rest, args))
  {
    var s := [c] + rest;
    assert s[0] == c && s[1..] == rest;
  }

  /** Prefixing twice is prefixing with the concatenation. */
  lemma ThenThen(a: string, b: string, r: Option<string>)
    ensures Then(a, Then(b, r)) == Then(a + b, r)
  {
    if r.Some? {
      assert a + (b + r.value) == (a + b) + r.value;
    }
  }

  /** The first character of brace-doubled text reads as itself. */
  lemma DoubledHead(t: string, b: string, args: seq<string>)
    requires t != []
    ensures Format(DoubleBraces(t) + b, args) == Then([t[0]], Format(DoubleBraces(t[1..]) + b, args))
  {
    var c, rest := t[0], DoubleBraces(t[1..]);
    if c == '{' || c == '}' {
      assert DoubleBraces(t) + b == [c, c] + (rest + b);
      DoubledBraceStep(c, rest + b, args);
    } else {
      assert DoubleBraces(t) + b == [c] + (rest + b);
      LiteralStep(c, rest + b, args);
    }
  }

  /** Formatting undoes the doubling in front of the rest: brace-doubled
      text comes out as it went in, whatever it holds, and no argument is
      consulted for it. */
  lemma {:induction false} DoubledPrefix(t: string, b: string, args: seq<string>)
    ensures Format(DoubleBraces(t) + b, args) == Then(t, Format(b, args))
  {
    if t == [] {
      assert DoubleBraces(t) + b == b;
      if Format(b, args).Some? {
        assert t + Format(b, args).value == Format(b, args).value;
      }
    } else {
      DoubledHead(t, b, args);
      DoubledPrefix(t[1..], b, args);
      ThenThen([t[0]], t[1..], Format(b, args));
      assert [t[0]] + t[1..] == t;
    }
  }

  /** Brace-doubled text on its own formats back to itself. */
  lemma FormatUndoesDoubleBraces(s: string, args: seq<string>)
    ensures Format(DoubleBraces(s), args) == Some(s)
  {
    DoubledPrefix(s, "", args);
    assert DoubleBraces(s) + "" == DoubleBraces(s);
    assert s + "" == s;
  }

  /** A message made of brace-free text, the placeholder `{0}`, brace-free
      text, brace-doubled text and brace-free text formats to the first
      argument in place of the placeholder and every text as written. */
  lemma OneHoleMessage(lead: string, mid: string, text: string, trail: string, args: seq<string>)
    requires NoBraces(lead) && NoBraces(mid) && NoBraces(trail) && |args| >= 1
    ensures Format(lead + (Hole(0) + (mid + (DoubleBraces(text) + trail))), args)
         == Some(lead + (args[0] + (mid + (text + trail))))
  {
    var doubled := DoubleBraces(text);
    var tail := mid + (doubled + trail);
    var rest := Format(trail, args);
    LiteralPrefix(trail, "", args);
    assert trail + "" == trail;
    DoubledPrefix(text, trail, args);
    LiteralPrefix(mid, doubled + trail, args);
    ThenThen(mid, text, rest);
    Placeholder(0, tail, args);
    ThenThen(args[0], mid + text, rest);
    LiteralPrefix(lead, Hole(0) + tail, args);
    ThenThen(lead, args[0] + (mid + text), rest);
    assert lead + (args[0] + (mid + text)) + trail == lead + (args[0] + (mid + (text + trail)));
  }

  /** The same message with nothing after the brace-doubled text. */
  lemma OneHoleMessageAtEnd(lead: string, mid: string, text: string, args: seq<string>)
    requires NoBraces(lead) && NoBraces(mid) && |args| >= 1
    ensures Format(lead + (Hole(0) + (mid + DoubleBraces(text))), args) == Some(lead + (args[0] + (mid + text)))
  {
    OneHoleMessage(lead, mid, text, "", args);
    assert DoubleBraces(text) + "" == DoubleBraces(text);
    assert text + "" == text;
  }

  lemma NoBracesConcat(a: string, b: string)
    requires NoBraces(a) && NoBraces(b)
    ensures NoBraces(a + b)
  {
    assert forall k | |a| <= k < |a + b| :: (a + b)[k] == b[k - |a|];
  }

  /** A rendered integer holds no brace. */
  lemma NumeralHasNoBraces(i: int)
    ensures NoBraces(IntToString(i))
  {
    var s := IntToString(i);
    assert forall k | 0 <= k < |s| :: IsNumeral(s[k]);
  }
}
