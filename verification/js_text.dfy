/**
 * Character classes and small scanners over strings, with the meaning the
 * ECMAScript regular-expression engine gives them.  Strings are sequences of
 * Unicode scalar values; none of the classes below contains a surrogate, so
 * reading a JavaScript string as code units instead changes no answer here.
 */
module JsText {
  import opened Wrappers

  /** The ECMAScript line terminators: the characters `.` refuses to match. */
  predicate IsLineTerminator(c: char) {
    c == '\n' || c == '\r' || c == '\U{2028}' || c == '\U{2029}'
  }

  /** The class `\s`: ECMAScript WhiteSpace together with LineTerminator. */
  predicate IsSpace(c: char) {
    || c == '\t' || c == '\U{000B}' || c == '\U{000C}' || c == ' ' || c == '\U{00A0}'
    || c == '\U{1680}' || ('\U{2000}' <= c <= '\U{200A}') || c == '\U{202F}'
    || c == '\U{205F}' || c == '\U{3000}' || c == '\U{FEFF}'
    || IsLineTerminator(c)
  }

  /** Every character of s[lo..hi] is in `\s`. */
  predicate AllSpace(s: string, lo: int, hi: int)
    requires 0 <= lo <= hi <= |s|
  {
    forall i | lo <= i < hi :: IsSpace(s[i])
  }

  /** No character of s[lo..hi] is a line terminator, so `.` matches each one. */
  predicate NoTerminator(s: string, lo: int, hi: int)
    requires 0 <= lo <= hi <= |s|
  {
    forall i | lo <= i < hi :: !IsLineTerminator(s[i])
  }

  /** `/\S/.test(s)`: some character of s is outside `\s`. */
  predicate HasNonSpace(s: string) {
    exists i | 0 <= i < |s| :: !IsSpace(s[i])
  }

  /** Length of the longest run of `\s` characters starting at i. */
  function SpaceRun(s: string, i: nat): (n: nat)
    requires i <= |s|
    ensures i + n <= |s|
    ensures AllSpace(s, i, i + n)
    ensures i + n < |s| ==> !IsSpace(s[i + n])
    decreases |s| - i
  {
    if i < |s| && IsSpace(s[i]) then 1 + SpaceRun(s, i + 1) else 0
  }

  /** The end of s[..hi] once its trailing `\s` characters are cut off. */
  function TrimmedEnd(s: string, hi: nat): (e: nat)
    requires hi <= |s|
    ensures e <= hi
    ensures AllSpace(s, e, hi)
    ensures e > 0 ==> !IsSpace(s[e - 1])
    decreases hi
  {
    if hi > 0 && IsSpace(s[hi - 1]) then TrimmedEnd(s, hi - 1) else hi
  }

  /** The first index at or after i holding c. */
  function IndexFrom(s: string, c: char, i: nat): (r: Option<nat>)
    requires i <= |s|
    ensures r.Some? ==> i <= r.value < |s| && s[r.value] == c
    ensures r.Some? ==> forall m | i <= m < r.value :: s[m] != c
    ensures r.None? ==> forall m | i <= m < |s| :: s[m] != c
    decreases |s| - i
  {
    if i == |s| then None
    else if s[i] == c then Some(i)
    else IndexFrom(s, c, i + 1)
  }

  /** The first line terminator at or after i, or |s| when there is none. */
  function NextTerminator(s: string, i: nat): (q: nat)
    requires i <= |s|
    ensures i <= q <= |s|
    ensures NoTerminator(s, i, q)
    ensures q < |s| ==> IsLineTerminator(s[q])
    decreases |s| - i
  {
    if i == |s| || IsLineTerminator(s[i]) then i else NextTerminator(s, i + 1)
  }

  /** The last index in [lo, hi) whose character is not a line terminator. */
  function LastNonTerminator(s: string, lo: nat, hi: nat): (r: Option<nat>)
    requires lo <= hi <= |s|
    ensures r.Some? ==> lo <= r.value < hi && !IsLineTerminator(s[r.value])
    ensures r.Some? ==> forall b | r.value < b < hi :: IsLineTerminator(s[b])
    ensures r.None? ==> forall b | lo <= b < hi :: IsLineTerminator(s[b])
    decreases hi - lo
  {
    if hi == lo then None
    else if !IsLineTerminator(s[hi - 1]) then Some(hi - 1)
    else LastNonTerminator(s, lo, hi - 1)
  }
}
