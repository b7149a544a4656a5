/** Stretches of text at either end on which a predicate is constant. */
module LineSpans {
  import opened Brackets

  /** The length of the longest prefix on which p is `want`. */
  function Span(t: Text, p: Char -> bool, want: bool): (n: nat)
    ensures n <= |t| && (forall i | 0 <= i < n :: p(t[i]) == want)
    ensures n < |t| ==> p(t[n]) != want
  {
    if t == [] || p(t[0]) != want then 0 else 1 + Span(t[1..], p, want)
  }

  /** The length of the longest suffix on which p is `want`. */
  function SpanBack(t: Text, p: Char -> bool, want: bool): (n: nat)
    ensures n <= |t| && (forall i | |t| - n <= i < |t| :: p(t[i]) == want)
    ensures n < |t| ==> p(t[|t| - n - 1]) != want
  {
    if t == [] || p(t[|t| - 1]) != want then 0 else 1 + SpanBack(t[..|t| - 1], p, want)
  }
}
