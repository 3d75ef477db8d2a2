/** The pattern `MatchesWildcards` hands to the regular-expression engine:
    `"^" + Regex.Escape(expression).Replace("\\*", ".*").Replace("\\?", ".") + "$"`,
    with .NET's `Regex.Escape` and ordinal `String.Replace` written out, and
    proved equal to a character-by-character translation of the wildcards. */
module RegexPatterns {

  const FormFeed: char := 12 as char

  /** The characters `Regex.Escape` prefixes with a backslash. */
  predicate IsMetachar(c: char) {
    || c == '\t' || c == '\n' || c == FormFeed || c == '\r' || c == ' '
    || c == '#' || c == '$' || c == '(' || c == ')' || c == '*' || c == '+'
    || c == '.' || c == '?' || c == '[' || c == '\\' || c == '^' || c == '{' || c == '|'
  }

  /** What follows the backslash: control characters become letters. */
  function EscapedLetter(c: char): char {
    if c == '\t' then 't'
    else if c == '\n' then 'n'
    else if c == FormFeed then 'f'
    else if c == '\r' then 'r'
    else c
  }

  function EscapeChar(c: char): (r: string)
    ensures |r| > 0 && r[0] != '*' && r[0] != '?'
  {
    if IsMetachar(c) then ['\\', EscapedLetter(c)] else [c]
  }

  /** `Regex.Escape`. */
  function Escape(s: string): (r: string)
    ensures r == [] || (r[0] != '*' && r[0] != '?')
  {
    if s == [] then [] else EscapeChar(s[0]) + Escape(s[1..])
  }

  /** Ordinal `String.Replace`: every leftmost, non-overlapping occurrence of
      `pat`, scanning left to right, is replaced by `rep`. */
  function Replace(s: string, pat: string, rep: string): string
    requires |pat| > 0
    decreases |s|
  {
    if |s| < |pat| then s
    else if s[..|pat|] == pat then rep + Replace(s[|pat|..], pat, rep)
    else [s[0]] + Replace(s[1..], pat, rep)
  }

  /** The pattern built by `MatchesWildcards`, as the source writes it:
      anchored by `^` at the start and `$` at the end. */
  function WildcardPattern(expression: string): (r: string)
    ensures |r| >= 2 && r[0] == '^' && r[|r| - 1] == '$'
  {
    "^" + Replace(Replace(Escape(expression), "\\*", ".*"), "\\?", ".") + "$"
  }

  /** The pattern text for one wildcard character: `.*` for `*`, `.` for `?`,
      and the character as `Regex.Escape` writes it otherwise. What the
      engine then matches (`.` excludes a newline, `$` also accepts one just
      before the end) is the engine's affair. */
  function WildcardChar(c: char): string {
    if c == '*' then ".*" else if c == '?' then "." else EscapeChar(c)
  }

  function Translate(s: string): string {
    if s == [] then [] else WildcardChar(s[0]) + Translate(s[1..])
  }

  /** The escape-then-replace construction is the character-by-character
      translation of the pattern text, between `^` and `$`. */
  lemma WildcardPatternIsTranslation(expression: string)
    ensures WildcardPattern(expression) == "^" + Translate(expression) + "$"
  {
    EscapeThenStars(expression);
    StarsThenQuestionMarks(expression);
  }

  // ---- the proof ----

  /** The text after the first replacement: `*` already translated. */
  function StarChar(c: char): (r: string)
    ensures |r| > 0 && r[0] != '?'
  {
    if c == '*' then ".*" else EscapeChar(c)
  }

  function Stars(s: string): (r: string)
    ensures r == [] || r[0] != '?'
  {
    if s == [] then [] else StarChar(s[0]) + Stars(s[1..])
  }

  lemma ReplaceHit(s: string, pat: string, rep: string)
    requires 0 < |pat| <= |s| && s[..|pat|] == pat
    ensures Replace(s, pat, rep) == rep + Replace(s[|pat|..], pat, rep)
  {
  }

  lemma ReplaceMiss(s: string, pat: string, rep: string)
    requires 0 < |pat| && s != []
    requires !(|pat| <= |s| && s[..|pat|] == pat)
    ensures Replace(s, pat, rep) == [s[0]] + Replace(s[1..], pat, rep)
  {
    if |s| < |pat| {
      assert s == [s[0]] + s[1..];
    }
  }

  /** A character that cannot start `pat` is copied. */
  lemma PlainCopied(c: char, rest: string, pat: string, rep: string)
    requires |pat| == 2 && pat[0] == '\\' && c != '\\'
    ensures Replace([c] + rest, pat, rep) == [c] + Replace(rest, pat, rep)
  {
    var s := [c] + rest;
    assert s[0] == c;
    ReplaceMiss(s, pat, rep);
    assert s[1..] == rest;
  }

  /** An escape pair other than `pat` is copied, provided an escaped
      backslash is not followed by the second character of `pat`. */
  lemma PairCopied(l: char, rest: string, pat: string, rep: string)
    requires |pat| == 2 && pat[0] == '\\' && l != pat[1]
    requires l == '\\' ==> rest == [] || rest[0] != pat[1]
    ensures Replace(['\\', l] + rest, pat, rep) == ['\\', l] + Replace(rest, pat, rep)
  {
    var s := ['\\', l] + rest;
    assert s[..2] == ['\\', l];
    ReplaceMiss(s, pat, rep);
    assert s[1..] == [l] + rest;
    var t := [l] + rest;
    if l != '\\' {
      PlainCopied(l, rest, pat, rep);
    } else {
      assert t[0] == '\\';
      assert |t| >= 2 ==> t[1] == rest[0];
      ReplaceMiss(t, pat, rep);
      assert t[1..] == rest;
    }
  }

  /** The escape pair equal to `pat` is replaced. */
  lemma PairReplaced(rest: string, pat: string, rep: string)
    requires |pat| == 2
    ensures Replace(pat + rest, pat, rep) == rep + Replace(rest, pat, rep)
  {
    var s := pat + rest;
    assert s[..2] == pat;
    ReplaceHit(s, pat, rep);
    assert s[2..] == rest;
  }

  /** One escaped character goes through the `\*` replacement as its translation. */
  lemma EscapedCharThenStars(c: char, rest: string)
    requires rest == [] || rest[0] != '*'
    ensures Replace(EscapeChar(c) + rest, "\\*", ".*") == StarChar(c) + Replace(rest, "\\*", ".*")
  {
    var e, t := EscapeChar(c), StarChar(c);
    if c == '*' {
      assert e == "\\*" && t == ".*";
      PairReplaced(rest, "\\*", ".*");
    } else if IsMetachar(c) {
      assert e == ['\\', EscapedLetter(c)] && t == e;
      PairCopied(EscapedLetter(c), rest, "\\*", ".*");
    } else {
      assert e == [c] && t == e;
      PlainCopied(c, rest, "\\*", ".*");
    }
  }

  /** One character of `Stars` goes through the `\?` replacement as its translation. */
  lemma StarCharThenQuestionMarks(c: char, rest: string)
    requires rest == [] || rest[0] != '?'
    ensures Replace(StarChar(c) + rest, "\\?", ".") == WildcardChar(c) + Replace(rest, "\\?", ".")
  {
    var t, w := StarChar(c), WildcardChar(c);
    if c == '*' {
      assert t == ".*" && w == ".*";
      StarThenQuestionMarks(rest);
    } else if c == '?' {
      assert t == "\\?" && w == ".";
      PairReplaced(rest, "\\?", ".");
    } else if IsMetachar(c) {
      assert t == ['\\', EscapedLetter(c)] && w == t;
      PairCopied(EscapedLetter(c), rest, "\\?", ".");
    } else {
      assert t == [c] && w == t;
      PlainCopied(c, rest, "\\?", ".");
    }
  }

  /** The `.*` a star became is copied by the `\?` replacement. */
  lemma StarThenQuestionMarks(rest: string)
    ensures Replace(".*" + rest, "\\?", ".") == ".*" + Replace(rest, "\\?", ".")
  {
    var pat := "\\?";
    PlainCopied('*', rest, pat, ".");
    PlainCopied('.', "*" + rest, pat, ".");
    assert ".*" + rest == ['.'] + ("*" + rest);
    assert ['.'] + ("*" + Replace(rest, pat, ".")) == ".*" + Replace(rest, pat, ".");
  }

  lemma {:induction false} EscapeThenStars(s: string)
    ensures Replace(Escape(s), "\\*", ".*") == Stars(s)
  {
    if s != [] {
      EscapedCharThenStars(s[0], Escape(s[1..]));
      EscapeThenStars(s[1..]);
    }
  }

  lemma {:induction false} StarsThenQuestionMarks(s: string)
    ensures Replace(Stars(s), "\\?", ".") == Translate(s)
  {
    if s != [] {
      StarCharThenQuestionMarks(s[0], Stars(s[1..]));
      StarsThenQuestionMarks(s[1..]);
    }
  }
}
