/** Python's notion of white space, substrings, and the alphabet of tokens. */
module Texts {
  /** `str.isspace` on one character. */
  predicate IsSpace(c: char) {
    var n := c as int;
    || 9 <= n <= 13 || 28 <= n <= 32 || n == 133 || n == 160 || n == 5760 || 8192 <= n <= 8202
    || n == 8232 || n == 8233 || n == 8239 || n == 8287 || n == 12288
  }

  /** `[A-Z0-9_]`, what a token consists of between its brackets. */
  predicate SurrogateChar(c: char) {
    'A' <= c <= 'Z' || '0' <= c <= '9' || c == '_'
  }

  /** `not text.strip()` */
  predicate Blank(text: string) {
    forall i :: 0 <= i < |text| ==> IsSpace(text[i])
  }

  /** `s in text` */
  predicate Occurs(s: string, text: string) {
    exists i :: 0 <= i <= |text| && s <= text[i..]
  }

  /** `text[a:b]` for non-negative bounds: clamped, never out of range. */
  function Slice(text: string, a: nat, b: nat): string {
    var hi := if b < |text| then b else |text|;
    if a < hi then text[a..hi] else ""
  }

  /** The first visible position from `i` on, or the end. */
  function SkipBlanks(s: string, i: nat): (n: nat)
    requires i <= |s|
    ensures i <= n <= |s| && (n < |s| ==> !IsSpace(s[n]))
    ensures forall j :: i <= j < n ==> IsSpace(s[j])
    decreases |s| - i
  {
    if i < |s| && IsSpace(s[i]) then SkipBlanks(s, i + 1) else i
  }

  /** Just after the last visible position before `n`, or the start. */
  function DropBlanks(s: string, n: nat): (m: nat)
    requires n <= |s|
    ensures m <= n && (0 < m ==> !IsSpace(s[m - 1]))
    ensures forall j :: m <= j < n ==> IsSpace(s[j])
  {
    if n > 0 && IsSpace(s[n - 1]) then DropBlanks(s, n - 1) else n
  }

  /** `len(s) - len(s.lstrip())` */
  function LeadingBlanks(s: string): (n: nat)
    ensures n <= |s|
  {
    SkipBlanks(s, 0)
  }

  /** `len(s) - len(s.rstrip())` */
  function TrailingBlanks(s: string): (n: nat)
    ensures n <= |s|
  {
    |s| - DropBlanks(s, |s|)
  }

  /** `s.strip()` */
  function Strip(s: string): (r: string)
    ensures r != "" ==> !IsSpace(r[0]) && !IsSpace(r[|r| - 1])
  {
    if Blank(s) then "" else s[LeadingBlanks(s)..|s| - TrailingBlanks(s)]
  }

  /** Stripping takes away white space at both ends, and all of it. */
  lemma StripIs(s: string) returns (a: nat, b: nat)
    ensures a <= b <= |s| && Strip(s) == s[a..b]
    ensures forall i :: 0 <= i < a || b <= i < |s| ==> IsSpace(s[i])
    ensures a < b ==> !IsSpace(s[a]) && !IsSpace(s[b - 1])
  {
    if Blank(s) {
      a, b := 0, 0;
    } else {
      var i :| 0 <= i < |s| && !IsSpace(s[i]);
      a, b := LeadingBlanks(s), |s| - TrailingBlanks(s);
      assert a <= i < b;
    }
  }
}
