/** The search for a match told by counting positions: which one it finds, and when it flags it. */
module BracketLaws {
  import opened Brackets

  /** The positions from a to before b that hold the character x. */
  function Places(t: Text, x: Char, a: nat, b: nat): set<nat>
    requires a <= b <= |t|
  {
    set m: nat | a <= m < b && t[m] == x
  }

  /** The positions whose character has the low byte of an opening bracket, and is not x. */
  function OtherOpening(t: Text, x: Char, a: nat, b: nat): set<nat>
    requires a <= b <= |t|
  {
    set m: nat | a <= m < b && t[m] != x && (t[m] % 0x100 == 0x28 || t[m] % 0x100 == 0x5B || t[m] % 0x100 == 0x7B)
  }

  /** The positions whose character has the low byte of a closing bracket, or a zero one, and is not x. */
  function OtherClosing(t: Text, x: Char, a: nat, b: nat): set<nat>
    requires a <= b <= |t|
  {
    set m: nat | a <= m < b && t[m] != x
                 && (t[m] % 0x100 == 0x29 || t[m] % 0x100 == 0x5D || t[m] % 0x100 == 0x7D || t[m] % 0x100 == 0)
  }

  lemma OneMore(s: set<nat>, s': set<nat>, b: nat, holds: bool)
    requires b !in s && forall m :: m in s' <==> m in s || (holds && m == b)
    ensures |s'| == |s| + if holds then 1 else 0
  {
    assert s' == if holds then s + {b} else s;
  }

  lemma OneMorePlace(t: Text, x: Char, a: nat, b: nat)
    requires a <= b < |t|
    ensures |Places(t, x, a, b + 1)| == |Places(t, x, a, b)| + if t[b] == x then 1 else 0
  {
    OneMore(Places(t, x, a, b), Places(t, x, a, b + 1), b, t[b] == x);
  }

  lemma OneMoreOpening(t: Text, x: Char, a: nat, b: nat)
    requires a <= b < |t|
    ensures |OtherOpening(t, x, a, b + 1)|
         == |OtherOpening(t, x, a, b)| + if LowOpening(t[b]) && t[b] != x then 1 else 0
  {
    OneMore(OtherOpening(t, x, a, b), OtherOpening(t, x, a, b + 1), b, LowOpening(t[b]) && t[b] != x);
  }

  lemma OneMoreClosing(t: Text, x: Char, a: nat, b: nat)
    requires a <= b < |t|
    ensures |OtherClosing(t, x, a, b + 1)|
         == |OtherClosing(t, x, a, b)| + if LowClosing(t[b]) && t[b] != x then 1 else 0
  {
    OneMore(OtherClosing(t, x, a, b), OtherClosing(t, x, a, b + 1), b, LowClosing(t[b]) && t[b] != x);
  }

  lemma {:induction false} BalanceCounts(k: Kind, t: Text, a: nat, b: nat)
    requires a <= b <= |t|
    ensures Balance(k, t[a..b]) == |Places(t, Opener(k), a, b)| - |Places(t, Closer(k), a, b)|
    decreases b
  {
    hide Balance, Weight, Places, OtherBalance, OtherWeight;
    if a == b {
      NothingCounted(k, t, a);
    } else {
      BalanceCounts(k, t, a, b - 1);
      OneMoreRight(k, t, a, b - 1);
      WeightIs(k, t[b - 1]);
      OneMorePlace(t, Opener(k), a, b - 1);
      OneMorePlace(t, Closer(k), a, b - 1);
    }
  }

  lemma NothingCounted(k: Kind, t: Text, a: nat)
    requires a <= |t|
    ensures Balance(k, t[a..a]) == 0 && OtherBalance(k, t[a..a]) == 0
    ensures forall x :: Places(t, x, a, a) == {} && OtherOpening(t, x, a, a) == {} && OtherClosing(t, x, a, a) == {}
  {
    assert t[a..a] == [];
  }

  lemma WeightIs(k: Kind, c: Char)
    ensures Weight(k, c) == (if c == Opener(k) then 1 else 0) - (if c == Closer(k) then 1 else 0)
  {
  }

  predicate LowOpening(c: Char) { c % 0x100 == 0x28 || c % 0x100 == 0x5B || c % 0x100 == 0x7B }

  predicate LowClosing(c: Char) {
    c % 0x100 == 0x29 || c % 0x100 == 0x5D || c % 0x100 == 0x7D || c % 0x100 == 0
  }

  lemma OtherWeightIs(k: Kind, c: Char)
    ensures OtherWeight(k, c) == (if LowOpening(c) && c != Opener(k) then 1 else 0)
                               - (if LowClosing(c) && c != Closer(k) then 1 else 0)
  {
  }

  lemma {:induction false} OtherCounts(k: Kind, t: Text, a: nat, b: nat)
    requires a <= b <= |t|
    ensures OtherBalance(k, t[a..b]) == |OtherOpening(t, Opener(k), a, b)| - |OtherClosing(t, Closer(k), a, b)|
    decreases b
  {
    hide Balance, Weight, OtherBalance, OtherWeight, OtherOpening, OtherClosing, LowOpening, LowClosing;
    if a == b {
      NothingCounted(k, t, a);
    } else {
      OtherCounts(k, t, a, b - 1);
      OneMoreRight(k, t, a, b - 1);
      OtherWeightIs(k, t[b - 1]);
      OneMoreOpening(t, Opener(k), a, b - 1);
      OneMoreClosing(t, Closer(k), a, b - 1);
    }
  }

  /** The other bracket of an opening one. */
  predicate Pair(open: Char, close: Char) {
    (open == 0x28 && close == 0x29) || (open == 0x5B && close == 0x5D) || (open == 0x7B && close == 0x7D)
  }

  /** From a to b, both included, as many opening as closing brackets of the kind stand. */
  predicate Even(t: Text, open: Char, close: Char, a: nat, b: nat)
    requires a <= b < |t|
  {
    |Places(t, open, a, b + 1)| == |Places(t, close, a, b + 1)|
  }

  lemma PairKind(open: Char, close: Char) returns (k: Kind)
    requires Pair(open, close)
    ensures Opener(k) == open && Closer(k) == close && KindAt(open) == k && KindAt(close) == k
    ensures Direction(open) == 1 && Direction(close) == -1
  {
    k := KindAt(open);
  }

  lemma CountRight(k: Kind, t: Text, i: nat, m: nat)
    requires i <= m < |t| && t[i] == Opener(k)
    ensures UpTo(k, t, i, m) == |Places(t, Opener(k), i, m + 1)| - |Places(t, Closer(k), i, m + 1)|
  {
    hide Balance, Weight, Places;
    WeightIs(k, t[i]);
    OneMoreLeft(k, t, i, m + 1);
    BalanceCounts(k, t, i, m + 1);
  }

  lemma CountLeft(k: Kind, t: Text, i: nat, m: nat)
    requires m <= i < |t| && t[i] == Closer(k)
    ensures DownTo(k, t, i, m) == |Places(t, Opener(k), m, i + 1)| - |Places(t, Closer(k), m, i + 1)|
  {
    hide Balance, Weight, Places;
    WeightIs(k, t[i]);
    OneMoreRight(k, t, m, i);
    BalanceCounts(k, t, m, i + 1);
  }

  lemma OpenerMatches(k: Kind, t: Text, i: nat, j: nat)
    requires i < |t| && j < |t| && t[i] == Opener(k) && KindAt(t[i]) == k && Direction(t[i]) == 1
    ensures Matches(t, i, j) <==>
              (i < j && Even(t, Opener(k), Closer(k), i, j)
               && forall m | i < m < j :: !Even(t, Opener(k), Closer(k), i, m))
  {
    hide Places, Balance, KindAt, Direction, Opener, Closer, UpTo;
    forall m | i <= m < |t| ensures UpTo(k, t, i, m) == 0 <==> Even(t, Opener(k), Closer(k), i, m) {
      CountRight(k, t, i, m);
    }
  }

  lemma CloserMatches(k: Kind, t: Text, i: nat, j: nat)
    requires i < |t| && j < |t| && t[i] == Closer(k) && KindAt(t[i]) == k && Direction(t[i]) == -1
    ensures Matches(t, i, j) <==>
              (j < i && Even(t, Opener(k), Closer(k), j, i)
               && forall m | j < m < i :: !Even(t, Opener(k), Closer(k), m, i))
  {
    hide Places, Balance, KindAt, Direction, Opener, Closer, DownTo;
    forall m | 0 <= m <= i ensures DownTo(k, t, i, m) == 0 <==> Even(t, Opener(k), Closer(k), m, i) {
      CountLeft(k, t, i, m);
    }
  }

  /** From an opening bracket the match is the nearest position to the right up to which the brackets of
      the kind come out even; from a closing one it is the nearest such position to the left. */
  lemma MatchLaw(t: Text, i: nat, j: nat, open: Char, close: Char)
    requires i < |t| && j < |t| && Pair(open, close)
    ensures t[i] == open ==>
              (Matches(t, i, j) <==>
                 i < j && Even(t, open, close, i, j) && forall m | i < m < j :: !Even(t, open, close, i, m))
    ensures t[i] == close ==>
              (Matches(t, i, j) <==>
                 j < i && Even(t, open, close, j, i) && forall m | j < m < i :: !Even(t, open, close, m, i))
  {
    hide Matches, Even, KindAt, Direction, Opener, Closer;
    var k := PairKind(open, close);
    if t[i] == open { OpenerMatches(k, t, i, j); }
    if t[i] == close { CloserMatches(k, t, i, j); }
  }

  /** The match of a bracket is flagged if and only if strictly between the two, the characters that look
      opening, and are not the opening one of the kind, are not as many as those that look closing, and
      are not the closing one. */
  lemma FlagLaw(t: Text, i: nat, j: nat, open: Char, close: Char)
    requires i < |t| && j < |t| && Pair(open, close) && (t[i] == open || t[i] == close) && Matches(t, i, j)
    ensures i != j
    ensures var a, b := if i < j then i + 1 else j + 1, if i < j then j else i;
            Uneven(t, i, j) <==> |OtherOpening(t, open, a, b)| != |OtherClosing(t, close, a, b)|
  {
    hide OtherBalance, Balance, KindAt, Direction, Opener, Closer, OtherOpening, OtherClosing, OtherWeight, Weight;
    var k := PairKind(open, close);
    MatchEnd(t, i, j);
    MatchApart(t, i, j);
    EndsWeighNothing(k);
    if i < j {
      OneMoreRight(k, t, i + 1, j);
      OtherCounts(k, t, i + 1, j);
    } else {
      OneMoreLeft(k, t, j, i);
      OtherCounts(k, t, j + 1, i);
    }
  }

  lemma EndsWeighNothing(k: Kind)
    ensures OtherWeight(k, Opener(k)) == 0 && OtherWeight(k, Closer(k)) == 0
  {
  }

  lemma MatchApart(t: Text, i: nat, j: nat)
    requires i < |t| && j < |t| && Matches(t, i, j)
    ensures Direction(t[i]) == 1 ==> i < j
    ensures Direction(t[i]) != 1 ==> j < i
  {
    hide Balance;
  }

  /** "([])": the brackets match, and nothing is wrong between them. */
  lemma BalancedLine(t: Text)
    requires t == [0x28, 0x5B, 0x5D, 0x29]
    ensures Matches(t, 0, 3) && !Uneven(t, 0, 3)
  {
    hide Matches, Uneven, OtherOpening, OtherClosing;
    BalancedMatch(t);
    FlagLaw(t, 0, 3, 0x28, 0x29);
    NothingCounted(Round, t, 1);
    OneMoreOpening(t, 0x28, 1, 1);
    OneMoreOpening(t, 0x28, 1, 2);
    OneMoreClosing(t, 0x29, 1, 1);
    OneMoreClosing(t, 0x29, 1, 2);
  }

  lemma BalancedMatch(t: Text)
    requires t == [0x28, 0x5B, 0x5D, 0x29]
    ensures Matches(t, 0, 3)
  {
    hide UpTo;
    CountsUp(Round, t, 3);
  }

  /** "(])": they match, and something is. */
  lemma UnbalancedLine(t: Text)
    requires t == [0x28, 0x5D, 0x29]
    ensures Matches(t, 0, 2) && Uneven(t, 0, 2)
  {
    hide Matches, Uneven, OtherOpening, OtherClosing;
    UnbalancedMatch(t);
    FlagLaw(t, 0, 2, 0x28, 0x29);
    NothingCounted(Round, t, 1);
    OneMoreOpening(t, 0x28, 1, 1);
    OneMoreClosing(t, 0x29, 1, 1);
  }

  lemma UnbalancedMatch(t: Text)
    requires t == [0x28, 0x5D, 0x29]
    ensures Matches(t, 0, 2)
  {
    hide UpTo;
    CountsUp(Round, t, 2);
  }

  /** The counts of a scan to the right over a short line. */
  lemma CountsUp(k: Kind, t: Text, n: nat)
    requires 0 < n <= 3 && n < |t|
    ensures UpTo(k, t, 0, 1) == 1 + Weight(k, t[1])
    ensures n > 1 ==> UpTo(k, t, 0, 2) == 1 + Weight(k, t[1]) + Weight(k, t[2])
    ensures n > 2 ==> UpTo(k, t, 0, 3) == 1 + Weight(k, t[1]) + Weight(k, t[2]) + Weight(k, t[3])
  {
    hide Balance, Weight, OtherBalance, OtherWeight;
    NothingCounted(k, t, 1);
    OneMoreRight(k, t, 1, 1);
    if n > 1 { OneMoreRight(k, t, 1, 2); }
    if n > 2 { OneMoreRight(k, t, 1, 3); }
  }
}
