/**
 * The few `java.lang.String` and commons-lang `StringUtils` operations that
 * the ignore-path helpers rely on, stated over `seq<char>`.
 */
module JavaStrings {

  /** `k` occurs in `s` starting at position `i`. */
  predicate OccursAt(s: string, k: string, i: int)
  {
    0 <= i && i + |k| <= |s| && s[i..i + |k|] == k
  }

  /** `k` occurs somewhere in `s`. */
  predicate Contains(s: string, k: string)
  {
    exists i :: 0 <= i <= |s| && OccursAt(s, k, i)
  }

  /** `s.indexOf(k)`: the first position at which `k` occurs in `s`, or -1. */
  function IndexOf(s: string, k: string): (r: int)
    ensures r >= 0 ==> OccursAt(s, k, r) && forall j :: 0 <= j < r ==> !OccursAt(s, k, j)
    ensures r < 0 ==> r == -1 && !Contains(s, k)
  {
    IndexOfFrom(s, k, 0)
  }

  /** The first position at or after `from` at which `k` occurs in `s`, or -1. */
  function IndexOfFrom(s: string, k: string, from: nat): (r: int)
    ensures r >= 0 ==> from <= r && OccursAt(s, k, r)
    ensures r >= 0 ==> forall j :: from <= j < r ==> !OccursAt(s, k, j)
    ensures r < 0 ==> r == -1 && forall j :: from <= j ==> !OccursAt(s, k, j)
    decreases |s| - from
  {
    if from + |k| > |s| then -1
    else if s[from..from + |k|] == k then from
    else IndexOfFrom(s, k, from + 1)
  }

  /** `Character.isWhitespace` on a character. */
  predicate IsWhitespace(c: char)
  {
    || c == ' ' || c == '\t' || c == '\n' || c == '\r'
    || c == '\U{B}' || c == '\U{C}'
    || ('\U{1C}' <= c <= '\U{1F}')
    || c == '\U{1680}'
    || ('\U{2000}' <= c <= '\U{2006}') || ('\U{2008}' <= c <= '\U{200A}')
    || c == '\U{2028}' || c == '\U{2029}' || c == '\U{205F}' || c == '\U{3000}'
  }

  /** `StringUtils.isBlank` on a non-null string: empty or whitespace only. */
  predicate IsBlank(s: string)
  {
    forall i :: 0 <= i < |s| ==> IsWhitespace(s[i])
  }
}
