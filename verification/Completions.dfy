/** The part of the line that a completion replaces, and what it is replaced by. */
module Completions {
  import opened Brackets
  import opened KillRings
  import opened LineSpans

  /** A text that came from a C string. */
  type CText = t: Text | NoZero(t)

  /** strchr(breakChars, c): c is cut down to a byte, and a zero byte finds the end of the string. */
  predicate IsBreak(c: Char) {
    c % 0x100 in {0x20, 0x3D, 0x2B, 0x2D, 0x2F, 0x5C, 0x2A, 0x3F, 0x22, 0x27, 0x60, 0x26, 0x3C, 0x3E, 0x3B, 0x7C,
                  0x40, 0x7B, 0x28, 0x5B, 0x5D, 0x29, 0x7D, 0}
  }

  /** How much of the text before the cursor is the item to complete. */
  function ItemLength(left: Text): nat { SpanBack(left, IsBreak, false) }

  predicate CommonPrefix(cs: seq<Text>, n: nat)
    requires cs != []
  {
    n <= |cs[0]| && forall j | 0 <= j < |cs| :: n <= |cs[j]| && cs[j][..n] == cs[0][..n]
  }

  predicate IsLongest(cs: seq<Text>, n: nat)
    requires cs != []
  {
    CommonPrefix(cs, n) && !CommonPrefix(cs, n + 1)
  }

  function LongestFrom(cs: seq<Text>, n: nat): (r: nat)
    requires cs != [] && CommonPrefix(cs, n)
    ensures IsLongest(cs, r)
    decreases |cs[0]| - n
  {
    if CommonPrefix(cs, n + 1) then LongestFrom(cs, n + 1) else n
  }

  /** The length of the longest common prefix. */
  function Longest(cs: seq<Text>): (r: nat)
    requires cs != []
    ensures IsLongest(cs, r)
  {
    LongestFrom(cs, 0)
  }

  lemma ShorterIsCommon(cs: seq<Text>, m: nat, n: nat)
    requires cs != [] && m <= n && CommonPrefix(cs, n)
    ensures CommonPrefix(cs, m)
  {
    forall j | 0 <= j < |cs| ensures m <= |cs[j]| && cs[j][..m] == cs[0][..m] {
      assert cs[j][..m] == cs[j][..n][..m] && cs[0][..m] == cs[0][..n][..m];
    }
  }

  lemma LongestIsUnique(cs: seq<Text>, m: nat, n: nat)
    requires cs != [] && IsLongest(cs, m) && IsLongest(cs, n)
    ensures m == n
  {
    if m < n {
      ShorterIsCommon(cs, m + 1, n);
    } else if n < m {
      ShorterIsCommon(cs, n + 1, m);
    }
  }

  /** A character of a text, or its terminator. */
  function CharAt(t: Text, k: nat): Char
    requires k <= |t|
  {
    if k < |t| then t[k] else 0
  }

  /** One more character is common if it is there and agrees in every two neighbours. */
  lemma OneMoreCommon(cs: seq<CText>, n: nat)
    requires |cs| > 1 && CommonPrefix(cs, n)
    requires forall j | 0 <= j < |cs| - 1 :: CharAt(cs[j], n) != 0 && CharAt(cs[j], n) == CharAt(cs[j + 1], n)
    ensures CommonPrefix(cs, n + 1)
  {
    forall j | 0 <= j < |cs| ensures n + 1 <= |cs[j]| && cs[j][..n + 1] == cs[0][..n + 1] {
      SameChar(cs, n, j);
      assert cs[j][..n + 1] == cs[j][..n] + [cs[j][n]] && cs[0][..n + 1] == cs[0][..n] + [cs[0][n]];
    }
  }

  lemma {:induction false} SameChar(cs: seq<CText>, n: nat, j: nat)
    requires |cs| > 1 && CommonPrefix(cs, n) && j < |cs|
    requires forall j | 0 <= j < |cs| - 1 :: CharAt(cs[j], n) != 0 && CharAt(cs[j], n) == CharAt(cs[j + 1], n)
    ensures n < |cs[j]| && n < |cs[0]| && cs[j][n] == cs[0][n]
  {
    assert CharAt(cs[0], n) != 0;
    if j > 0 {
      SameChar(cs, n, j - 1);
      assert CharAt(cs[j - 1], n) == CharAt(cs[j], n);
    }
  }

  lemma CommonChars(cs: seq<CText>, n: nat, j: nat)
    requires j + 1 < |cs| && CommonPrefix(cs, n + 1)
    ensures CharAt(cs[j], n) != 0 && CharAt(cs[j], n) == CharAt(cs[j + 1], n)
  {
    assert cs[j][..n + 1][n] == cs[0][..n + 1][n] && cs[j + 1][..n + 1][n] == cs[0][..n + 1][n];
  }

  /** The search for the longest common prefix. */
  method LongestCommonPrefix(cs: seq<CText>) returns (n: nat)
    requires cs != []
    ensures n == Longest(cs)
  {
    n := 0;
    if |cs| == 1 {
      n := |cs[0]|;
    } else {
      var keepGoing := true;
      while keepGoing
        invariant CommonPrefix(cs, n) && (!keepGoing ==> !CommonPrefix(cs, n + 1))
        decreases |cs[0]| - n, keepGoing
      {
        var j := 0;
        while j < |cs| - 1 && keepGoing
          invariant 0 <= j <= |cs| - 1
          invariant forall i | 0 <= i < j :: CharAt(cs[i], n) != 0 && CharAt(cs[i], n) == CharAt(cs[i + 1], n)
          invariant !keepGoing ==> !CommonPrefix(cs, n + 1)
          decreases |cs| - j, keepGoing
        {
          var c1, c2 := CharAt(cs[j], n), CharAt(cs[j + 1], n);
          if c1 == 0 || c2 == 0 || c1 != c2 {
            if CommonPrefix(cs, n + 1) { CommonChars(cs, n, j); }
            keepGoing := false;
          } else {
            j := j + 1;
          }
        }
        if keepGoing {
          OneMoreCommon(cs, n);
          n := n + 1;
        }
      }
    }
    LongestIsUnique(cs, n, Longest(cs));
  }
}
