/** Text primitives the listing filter and the sort rely on: lowercasing,
    suffix tests, and the code-point lexicographic order Python uses to
    compare `str` values. */
module Strings {

  /** Lowercase one character. Only the ASCII letters `A`..`Z` are mapped;
      every other character is returned unchanged. */
  function LowerChar(c: char): (r: char)
    ensures 'A' <= c <= 'Z' ==> 'a' <= r <= 'z' && r as int - c as int == 32
    ensures !('A' <= c <= 'Z') ==> r == c
  {
    if 'A' <= c <= 'Z' then (c as int + 32) as char else c
  }

  /** Lowercase a string character by character. */
  function Lower(s: string): string
  {
    seq(|s|, i requires 0 <= i < |s| => LowerChar(s[i]))
  }

  /** `s` ends with `suffix` (Python's `str.endswith` with one argument). */
  predicate EndsWith(s: string, suffix: string)
  {
    |suffix| <= |s| && s[|s| - |suffix|..] == suffix
  }

  /** Python's `<=` on `str`: compare code point by code point; when one
      string is a prefix of the other, the shorter one comes first. */
  predicate LessEq(a: string, b: string)
  {
    |a| == 0 || (|b| > 0 && (a[0] < b[0] || (a[0] == b[0] && LessEq(a[1..], b[1..]))))
  }

  lemma {:induction false} LessEqReflexive(a: string)
    ensures LessEq(a, a)
  {
    if |a| > 0 {
      LessEqReflexive(a[1..]);
    }
  }

  lemma {:induction false} LessEqAntisymmetric(a: string, b: string)
    requires LessEq(a, b) && LessEq(b, a)
    ensures a == b
  {
    if |a| > 0 {
      assert |b| > 0 && a[0] == b[0];
      LessEqAntisymmetric(a[1..], b[1..]);
      assert a == [a[0]] + a[1..];
      assert b == [b[0]] + b[1..];
    }
  }

  lemma {:induction false} LessEqTransitive(a: string, b: string, c: string)
    requires LessEq(a, b) && LessEq(b, c)
    ensures LessEq(a, c)
  {
    if |a| > 0 && a[0] == b[0] && b[0] == c[0] {
      LessEqTransitive(a[1..], b[1..], c[1..]);
    }
  }

  lemma {:induction false} LessEqTotal(a: string, b: string)
    ensures LessEq(a, b) || LessEq(b, a)
  {
    if |a| > 0 && |b| > 0 && a[0] == b[0] {
      LessEqTotal(a[1..], b[1..]);
    }
  }

  /** The order is case-sensitive: every upper-case ASCII letter sorts before
      every lower-case one, so a leading capital outranks any lower-case
      first letter. */
  lemma UpperBeforeLower(a: string, b: string)
    requires |a| > 0 && 'A' <= a[0] <= 'Z'
    requires |b| > 0 && 'a' <= b[0] <= 'z'
    ensures LessEq(a, b) && !LessEq(b, a)
  {
  }
}
