/** Ordinal (character-by-character) substring search, as .NET's
    `String.IndexOf(value, startIndex, StringComparison.Ordinal)` and
    `String.Contains(value)` perform it. */
module Ordinal {

  /** `v` occurs in `s` starting at position `p`. The empty string occurs at
      every position from 0 to `|s|`. */
  predicate OccursAt(s: string, v: string, p: int) {
    0 <= p && p + |v| <= |s| && s[p..p + |v|] == v
  }

  /** `String.Contains(value)`: `v` occurs somewhere in `s`. */
  predicate IsSubstring(v: string, s: string) {
    exists p | 0 <= p <= |s| :: OccursAt(s, v, p)
  }

  /** `s.IndexOf(v, start, Ordinal)`: the first position at or after `start`
      where `v` occurs, or -1. .NET throws ArgumentOutOfRangeException when
      `start` is past the end; callers check that themselves. */
  function IndexOf(s: string, v: string, start: nat): (r: int)
    requires start <= |s|
    ensures r == -1 || (start <= r <= |s| && OccursAt(s, v, r))
    ensures r == -1 <==> forall p | start <= p <= |s| :: !OccursAt(s, v, p)
    ensures r != -1 ==> forall p | start <= p < r :: !OccursAt(s, v, p)
    decreases |s| - start
  {
    if OccursAt(s, v, start) then start
    else if start == |s| then -1
    else IndexOf(s, v, start + 1)
  }

  /** Searching from 0 decides `String.Contains`. */
  lemma IndexOfDecidesContains(s: string, v: string)
    ensures IndexOf(s, v, 0) != -1 <==> IsSubstring(v, s)
  {
    if IsSubstring(v, s) {
      var p :| 0 <= p <= |s| && OccursAt(s, v, p);
    }
  }
}
