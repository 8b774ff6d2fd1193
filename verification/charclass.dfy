/** Character classes of Go's RE2 syntax that occur in the scheme regular
    expression of `rawURL`, and a scanner for maximal runs of them. */
module CharClass {

  /** `\w`: ASCII letters, digits and the underscore (Go's `\w` is ASCII only). */
  predicate IsWordChar(c: char) {
    ('0' <= c <= '9') || ('A' <= c <= 'Z') || ('a' <= c <= 'z') || c == '_'
  }

  /** `\d`: ASCII digits. */
  predicate IsDigit(c: char) {
    '0' <= c <= '9'
  }

  /** `[\w:.]`, the characters allowed between the brackets of an IPv6 host. */
  predicate IsBracketChar(c: char) {
    IsWordChar(c) || c == ':' || c == '.'
  }

  /** `[\w\._-]`, the characters of a plain host name. */
  predicate IsNameChar(c: char) {
    IsWordChar(c) || c == '.' || c == '-'
  }

  /** Length of the longest prefix of `s` whose characters all satisfy `p`:
      what a greedy `[class]*` consumes when nothing after it forces a
      backtrack. */
  function Span(s: string, p: char -> bool): (n: nat)
    ensures n <= |s|
    ensures forall i :: 0 <= i < n ==> p(s[i])
    ensures n < |s| ==> !p(s[n])
    decreases |s|
  {
    if |s| > 0 && p(s[0]) then 1 + Span(s[1..], p) else 0
  }

  /** A prefix of class characters that cannot be extended is the span. */
  lemma SpanUnique(s: string, p: char -> bool, k: nat)
    requires k <= |s|
    requires forall i :: 0 <= i < k ==> p(s[i])
    requires k < |s| ==> !p(s[k])
    ensures Span(s, p) == k
  {
  }
}
