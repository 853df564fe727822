/**
 * The string operations of Go's `strings` package that the scanner relies on:
 * `ToLower` (modelled on ASCII letters), `Contains`, `HasSuffix` and `Join`.
 * Strings are sequences of characters.
 */
module Text {

  /** ASCII lower-casing of one character; other characters are unchanged. */
  function LowerChar(c: char): char
  {
    if 'A' <= c <= 'Z' then (c as int + 32) as char else c
  }

  /** `strings.ToLower`, restricted to ASCII letters. */
  function Lower(s: string): string
  {
    seq(|s|, i requires 0 <= i < |s| => LowerChar(s[i]))
  }

  predicate StartsWith(s: string, prefix: string)
  {
    |prefix| <= |s| && s[..|prefix|] == prefix
  }

  /** `sub` occurs in `s` starting at index `i`. */
  predicate OccursAt(s: string, sub: string, i: int)
  {
    0 <= i && i + |sub| <= |s| && s[i..i + |sub|] == sub
  }

  /** `strings.Contains`: `sub` occurs somewhere in `s` (the empty string is contained everywhere). */
  predicate Contains(s: string, sub: string)
  {
    exists i :: 0 <= i <= |s| - |sub| && OccursAt(s, sub, i)
  }

  /** An occurrence inside either half of a concatenation is an occurrence in the whole. */
  lemma ContainsConcat(a: string, b: string, sub: string)
    requires Contains(a, sub) || Contains(b, sub)
    ensures Contains(a + b, sub)
  {
    if Contains(a, sub) {
      var i :| 0 <= i <= |a| - |sub| && OccursAt(a, sub, i);
      assert (a + b)[i..i + |sub|] == a[i..i + |sub|];
      assert OccursAt(a + b, sub, i);
    } else {
      var i :| 0 <= i <= |b| - |sub| && OccursAt(b, sub, i);
      assert (a + b)[|a| + i..|a| + i + |sub|] == b[i..i + |sub|];
      assert OccursAt(a + b, sub, |a| + i);
    }
  }

  /** `strings.HasSuffix`. */
  predicate HasSuffix(s: string, suffix: string)
  {
    |suffix| <= |s| && s[|s| - |suffix|..] == suffix
  }

  /** `strings.Join`: the elements with `sep` between neighbours. */
  function Join(xs: seq<string>, sep: string): string
  {
    if |xs| == 0 then ""
    else if |xs| == 1 then xs[0]
    else xs[0] + sep + Join(xs[1..], sep)
  }

  /** Whatever occurs in one element occurs in the join, whatever the separator. */
  lemma {:induction false} JoinKeepsOccurrence(xs: seq<string>, sep: string, k: int, sub: string)
    requires 0 <= k < |xs| && Contains(xs[k], sub)
    ensures Contains(Join(xs, sep), sub)
  {
    if |xs| > 1 {
      if k == 0 {
        ContainsConcat(xs[0], sep, sub);
        ContainsConcat(xs[0] + sep, Join(xs[1..], sep), sub);
      } else {
        JoinKeepsOccurrence(xs[1..], sep, k - 1, sub);
        ContainsConcat(xs[0] + sep, Join(xs[1..], sep), sub);
      }
    }
  }
}
