/** The search for the bracket that matches the one under the cursor. */
module Brackets {

  /** char32_t */
  type Char = x: int | 0 <= x < 0x1_0000_0000
  type Text = seq<Char>

  datatype Kind = Brace | Square | Round

  function Opener(k: Kind): Char {
    match k case Brace => 0x7B case Square => 0x5B case Round => 0x28
  }

  function Closer(k: Kind): Char {
    match k case Brace => 0x7D case Square => 0x5D case Round => 0x29
  }

  /** strchr("}])", c): c is cut down to a byte, and a zero byte finds the end of the string. */
  predicate LooksClosing(c: Char) {
    c % 0x100 in {0x7D, 0x5D, 0x29, 0}
  }

  /** strchr("{[(", c) */
  predicate LooksOpening(c: Char) {
    c % 0x100 in {0x7B, 0x5B, 0x28, 0}
  }

  predicate IsBracket(c: Char) {
    c in {0x7D, 0x5D, 0x29, 0x7B, 0x5B, 0x28}
  }

  /** +1 for a scan to the right, -1 for one to the left, 0 for none. */
  function Direction(c: Char): int {
    if LooksClosing(c) then -1 else if LooksOpening(c) then 1 else 0
  }

  /** What the scan counts brackets of; anything that merely looks like one counts as round. */
  function KindAt(c: Char): Kind {
    if c == 0x7D || c == 0x7B then Brace else if c == 0x5D || c == 0x5B then Square else Round
  }

  /** What c adds to the count of the brackets of the kind. */
  function Weight(k: Kind, c: Char): int {
    if LooksClosing(c) then (if c == Closer(k) then -1 else 0)
    else if LooksOpening(c) then (if c == Opener(k) then 1 else 0)
    else 0
  }

  /** What c adds to the count of the other brackets. */
  function OtherWeight(k: Kind, c: Char): int {
    if LooksClosing(c) then (if c == Closer(k) then 0 else -1)
    else if LooksOpening(c) then (if c == Opener(k) then 0 else 1)
    else 0
  }

  function Balance(k: Kind, t: Text): int {
    if t == [] then 0 else Weight(k, t[0]) + Balance(k, t[1..])
  }

  function OtherBalance(k: Kind, t: Text): int {
    if t == [] then 0 else OtherWeight(k, t[0]) + OtherBalance(k, t[1..])
  }

  /** The count of the scan to the right from i, once it has passed m. */
  function UpTo(k: Kind, t: Text, i: nat, m: nat): int
    requires i <= m < |t|
  {
    1 + Balance(k, t[i + 1..m + 1])
  }

  /** The count of the scan to the left from i, once it has passed m. */
  function DownTo(k: Kind, t: Text, i: nat, m: nat): int
    requires m <= i < |t|
  {
    -1 + Balance(k, t[m..i])
  }

  /**
   From the bracket at i, j is the nearest position in the direction of the scan at which the
   brackets of its kind, both ends included, come out even.
   */
  ghost predicate Matches(t: Text, i: nat, j: nat)
    requires i < |t| && j < |t|
  {
    var k, d := KindAt(t[i]), Direction(t[i]);
    if d == 1 then i < j && UpTo(k, t, i, j) == 0 && forall m | i < m < j :: UpTo(k, t, i, m) != 0
    else if d == -1 then j < i && DownTo(k, t, i, j) == 0 && forall m | j < m < i :: DownTo(k, t, i, m) != 0
    else false
  }

  /** The brackets of the other kinds between i and j do not come out even. */
  predicate Uneven(t: Text, i: nat, j: nat)
    requires i < |t| && j < |t|
  {
    if i < j then OtherBalance(KindAt(t[i]), t[i + 1..j + 1]) != 0
    else if j < i then OtherBalance(KindAt(t[i]), t[j..i]) != 0
    else false
  }

  // ---- The scan ----------------------------------------------------------------------

  lemma {:induction false} BalanceSplit(k: Kind, a: Text, b: Text)
    ensures Balance(k, a + b) == Balance(k, a) + Balance(k, b)
    ensures OtherBalance(k, a + b) == OtherBalance(k, a) + OtherBalance(k, b)
  {
    if a == [] {
      assert a + b == b;
    } else {
      assert (a + b)[1..] == a[1..] + b;
      BalanceSplit(k, a[1..], b);
    }
  }

  lemma BalanceOne(k: Kind, c: Char)
    ensures Balance(k, [c]) == Weight(k, c) && OtherBalance(k, [c]) == OtherWeight(k, c)
  {
  }

  lemma OneMoreRight(k: Kind, t: Text, a: nat, b: nat)
    requires a <= b < |t|
    ensures Balance(k, t[a..b + 1]) == Balance(k, t[a..b]) + Weight(k, t[b])
    ensures OtherBalance(k, t[a..b + 1]) == OtherBalance(k, t[a..b]) + OtherWeight(k, t[b])
  {
    assert t[a..b + 1] == t[a..b] + [t[b]];
    BalanceSplit(k, t[a..b], [t[b]]);
    BalanceOne(k, t[b]);
  }

  lemma OneMoreLeft(k: Kind, t: Text, a: nat, b: nat)
    requires a < b <= |t|
    ensures Balance(k, t[a..b]) == Weight(k, t[a]) + Balance(k, t[a + 1..b])
    ensures OtherBalance(k, t[a..b]) == OtherWeight(k, t[a]) + OtherBalance(k, t[a + 1..b])
  {
    assert t[a..b] == [t[a]] + t[a + 1..b];
    BalanceSplit(k, [t[a]], t[a + 1..b]);
    BalanceOne(k, t[a]);
  }

  lemma SlicesJoin(k: Kind, t: Text, a: nat, b: nat, c: nat)
    requires a <= b <= c <= |t|
    ensures Balance(k, t[a..c]) == Balance(k, t[a..b]) + Balance(k, t[b..c])
    ensures OtherBalance(k, t[a..c]) == OtherBalance(k, t[a..b]) + OtherBalance(k, t[b..c])
  {
    assert t[a..c] == t[a..b] + t[b..c];
    BalanceSplit(k, t[a..b], t[b..c]);
  }

  /** The counters of a scan that is about to look at position i. */
  ghost predicate Scanned(k: Kind, t: Text, pos: nat, i: int, d: int, unmatched: int, unmatchedOther: int)
    requires pos < |t|
  {
    if d == 1 then
      && pos < i <= |t| && unmatched == UpTo(k, t, pos, i - 1) && unmatchedOther == OtherBalance(k, t[pos + 1..i])
      && forall m | pos < m < i :: UpTo(k, t, pos, m) != 0
    else
      && -1 <= i < pos && unmatched == DownTo(k, t, pos, i + 1) && unmatchedOther == OtherBalance(k, t[i + 1..pos])
      && forall m | i < m < pos :: DownTo(k, t, pos, m) != 0
  }

  lemma ScanStep(k: Kind, t: Text, pos: nat, i: int, d: int, unmatched: int, unmatchedOther: int)
    requires pos < |t| && 0 <= i < |t| && (d == 1 || d == -1) && Scanned(k, t, pos, i, d, unmatched, unmatchedOther)
    ensures unmatched + Weight(k, t[i])
         == if d == 1 then UpTo(k, t, pos, i) else DownTo(k, t, pos, i)
    ensures unmatchedOther + OtherWeight(k, t[i])
         == if d == 1 then OtherBalance(k, t[pos + 1..i + 1]) else OtherBalance(k, t[i..pos])
    ensures unmatched + Weight(k, t[i]) != 0 ==>
              Scanned(k, t, pos, i + d, d, unmatched + Weight(k, t[i]), unmatchedOther + OtherWeight(k, t[i]))
  {
    hide Balance, OtherBalance, Weight, OtherWeight;
    if d == 1 { OneMoreRight(k, t, pos + 1, i); } else { OneMoreLeft(k, t, i, pos); }
  }

  lemma ScanFound(t: Text, pos: nat, i: int, unmatched: int, unmatchedOther: int)
    requires pos < |t| && 0 <= i < |t| && Direction(t[pos]) != 0
    requires Scanned(KindAt(t[pos]), t, pos, i, Direction(t[pos]), unmatched, unmatchedOther)
    requires unmatched + Weight(KindAt(t[pos]), t[i]) == 0
    ensures Matches(t, pos, i)
    ensures unmatchedOther + OtherWeight(KindAt(t[pos]), t[i]) != 0 <==> Uneven(t, pos, i)
  {
    hide Balance, OtherBalance, Weight, OtherWeight, KindAt;
    ScanStep(KindAt(t[pos]), t, pos, i, Direction(t[pos]), unmatched, unmatchedOther);
  }

  lemma ScanFailed(t: Text, pos: nat, i: int, unmatched: int, unmatchedOther: int)
    requires pos < |t| && Direction(t[pos]) != 0 && (i == -1 || i == |t|)
    requires Scanned(KindAt(t[pos]), t, pos, i, Direction(t[pos]), unmatched, unmatchedOther)
    ensures forall j: nat | j < |t| :: !Matches(t, pos, j)
  {
    hide Balance, OtherBalance, KindAt;
  }

  /** The kind of bracket to look for, and the direction to look in. */
  method PartsOf(c: Char) returns (scanDirection: int, part1: Char, part2: Char)
    ensures scanDirection == Direction(c)
    ensures scanDirection != 0 ==> part1 == Closer(KindAt(c)) && part2 == Opener(KindAt(c))
  {
    scanDirection, part1, part2 := 0, 0, 0;
    if LooksClosing(c) {
      scanDirection := -1;
      if c == 0x7D { part1, part2 := 0x7D, 0x7B; }
      else if c == 0x5D { part1, part2 := 0x5D, 0x5B; }
      else { part1, part2 := 0x29, 0x28; }
    } else if LooksOpening(c) {
      scanDirection := 1;
      if c == 0x7B { part1, part2 := 0x7D, 0x7B; }
      else if c == 0x5B { part1, part2 := 0x5D, 0x5B; }
      else { part1, part2 := 0x29, 0x28; }
    }
  }

  /** One turn of the scan: what the character adds to the two counts. */
  method Count(c: Char, part1: Char, part2: Char, ghost k: Kind, before: int, beforeOther: int)
    returns (unmatched: int, unmatchedOther: int)
    requires part1 == Closer(k) && part2 == Opener(k)
    ensures unmatched == before + Weight(k, c) && unmatchedOther == beforeOther + OtherWeight(k, c)
  {
    unmatched, unmatchedOther := before, beforeOther;
    if LooksClosing(c) {
      if c == part1 { unmatched := unmatched - 1; } else { unmatchedOther := unmatchedOther - 1; }
    } else if LooksOpening(c) {
      if c == part2 { unmatched := unmatched + 1; } else { unmatchedOther := unmatchedOther + 1; }
    }
  }

  /** The part of refreshLine that looks for the match of the character under the cursor. */
  method FindMatch(buf32: array<Char>, len: nat, pos: nat) returns (highlight: int, indicateError: bool)
    requires len <= buf32.Length
    ensures -1 <= highlight < len
    ensures highlight == -1 ==> !indicateError
    ensures highlight == -1 && pos < len ==> forall j: nat | j < len :: !Matches(buf32[..len], pos, j)
    ensures highlight >= 0 ==> pos < len && Matches(buf32[..len], pos, highlight)
    ensures highlight >= 0 ==> (indicateError <==> Uneven(buf32[..len], pos, highlight))
  {
    hide KindAt, Direction, Closer, Opener, Weight, OtherWeight, Scanned, Matches, Uneven, Balance, OtherBalance;
    highlight, indicateError := -1, false;
    if pos >= len { return; }
    ghost var t := buf32[..len];
    ghost var k := KindAt(t[pos]);
    var scanDirection, part1, part2 := PartsOf(buf32[pos]);
    DirectionIs(t[pos]);
    if scanDirection == 0 {
      NoDirection(t, pos);
      return;
    }
    var unmatched, unmatchedOther, i := scanDirection, 0, pos + scanDirection;
    ScanBegins(k, t, pos, scanDirection);
    while 0 <= i < len
      invariant -1 <= i <= len
      invariant Scanned(k, t, pos, i, scanDirection, unmatched, unmatchedOther)
      decreases if scanDirection == 1 then len - i else i
    {
      ScanStep(k, t, pos, i, scanDirection, unmatched, unmatchedOther);
      ghost var before, beforeOther := unmatched, unmatchedOther;
      unmatched, unmatchedOther := Count(buf32[i], part1, part2, k, unmatched, unmatchedOther);
      if unmatched == 0 {
        ScanFound(t, pos, i, before, beforeOther);
        highlight := i;
        indicateError := unmatchedOther != 0;
        return;
      }
      i := i + scanDirection;
    }
    ScanFailed(t, pos, i, unmatched, unmatchedOther);
  }

  lemma DirectionIs(c: Char)
    ensures Direction(c) in {-1, 0, 1}
  {
  }

  lemma NoDirection(t: Text, pos: nat)
    requires pos < |t| && Direction(t[pos]) == 0
    ensures forall j: nat | j < |t| :: !Matches(t, pos, j)
  {
  }

  lemma ScanBegins(k: Kind, t: Text, pos: nat, d: int)
    requires pos < |t| && (d == 1 || d == -1)
    ensures Scanned(k, t, pos, pos + d, d, d, 0)
  {
    assert t[pos + 1..pos + 1] == [] && t[pos..pos] == [];
  }

  // ---- Matching is mutual ------------------------------------------------------------

  /** A match ends on a bracket of the kind, of the other side. */
  lemma MatchEnd(t: Text, i: nat, j: nat)
    requires i < |t| && j < |t| && Matches(t, i, j)
    ensures KindAt(t[j]) == KindAt(t[i]) && IsBracket(t[j])
    ensures Direction(t[j]) == -Direction(t[i])
    ensures t[j] == if Direction(t[i]) == 1 then Closer(KindAt(t[i])) else Opener(KindAt(t[i]))
  {
    var k := KindAt(t[i]);
    if Direction(t[i]) == 1 {
      OneMoreRight(k, t, i + 1, j);
      RightPositive(t, i, j);
    } else {
      OneMoreLeft(k, t, j, i);
      LeftNegative(t, i, j);
    }
  }

  /** Short of the match the count of a scan to the right stays positive. */
  lemma {:induction false} RightPositive(t: Text, i: nat, j: nat)
    requires i < j <= |t| && Direction(t[i]) == 1
    requires forall m | i < m < j :: UpTo(KindAt(t[i]), t, i, m) != 0
    ensures UpTo(KindAt(t[i]), t, i, j - 1) > 0
    decreases j
  {
    hide KindAt, Direction, Balance, OtherBalance;
    var k := KindAt(t[i]);
    if j > i + 1 {
      RightPositive(t, i, j - 1);
      OneMoreRight(k, t, i + 1, j - 1);
      assert UpTo(k, t, i, j - 1) != 0;
    } else {
      NothingPassed(k, t, i);
    }
  }

  lemma NothingPassed(k: Kind, t: Text, i: nat)
    requires i < |t|
    ensures UpTo(k, t, i, i) == 1 && DownTo(k, t, i, i) == -1
  {
    assert t[i + 1..i + 1] == [] && t[i..i] == [];
  }

  /** Short of the match the count of a scan to the left stays negative. */
  lemma {:induction false} LeftNegative(t: Text, i: nat, j: nat)
    requires j < i < |t| && Direction(t[i]) == -1
    requires forall m | j < m < i :: DownTo(KindAt(t[i]), t, i, m) != 0
    ensures DownTo(KindAt(t[i]), t, i, j + 1) < 0
    decreases i - j
  {
    hide KindAt, Direction, Balance, OtherBalance;
    var k := KindAt(t[i]);
    if j + 1 < i {
      LeftNegative(t, i, j + 1);
      OneMoreLeft(k, t, j + 1, i);
      assert DownTo(k, t, i, j + 1) != 0;
    } else {
      NothingPassed(k, t, i);
    }
  }

  /**
   If the scan from i finds j, the scan from j finds i with the same verdict, if and only if
   there is a bracket at i, and not just a character whose low byte looks like one.
   */
  lemma MatchIsMutual(t: Text, i: nat, j: nat)
    requires i < |t| && j < |t| && Matches(t, i, j)
    ensures Matches(t, j, i) <==> IsBracket(t[i])
    ensures IsBracket(t[i]) ==> (Uneven(t, j, i) <==> Uneven(t, i, j))
  {
    MatchEnd(t, i, j);
    var k := KindAt(t[i]);
    if Matches(t, j, i) { MatchEnd(t, j, i); }
    if IsBracket(t[i]) {
      if Direction(t[i]) == 1 { BackAgain(t, i, j); } else { ForthAgain(t, i, j); }
    }
  }

  lemma BackAgain(t: Text, i: nat, j: nat)
    requires i < |t| && j < |t| && Matches(t, i, j) && IsBracket(t[i]) && Direction(t[i]) == 1
    ensures Matches(t, j, i) && (Uneven(t, j, i) <==> Uneven(t, i, j))
  {
    MatchEnd(t, i, j);
    var k := KindAt(t[i]);
    assert Weight(k, t[i]) == 1 && OtherWeight(k, t[i]) == 0;
    assert Weight(k, t[j]) == -1 && OtherWeight(k, t[j]) == 0;
    hide KindAt, IsBracket, Weight, OtherWeight, Balance, OtherBalance;
    OneMoreRight(k, t, i + 1, j);
    OneMoreLeft(k, t, i, j);
    forall m | i < m < j ensures DownTo(k, t, j, m) != 0 {
      SlicesJoin(k, t, i + 1, m, j);
      RightPositive(t, i, m);
    }
  }

  lemma ForthAgain(t: Text, i: nat, j: nat)
    requires i < |t| && j < |t| && Matches(t, i, j) && IsBracket(t[i]) && Direction(t[i]) == -1
    ensures Matches(t, j, i) && (Uneven(t, j, i) <==> Uneven(t, i, j))
  {
    MatchEnd(t, i, j);
    var k := KindAt(t[i]);
    assert Weight(k, t[i]) == -1 && OtherWeight(k, t[i]) == 0;
    assert Weight(k, t[j]) == 1 && OtherWeight(k, t[j]) == 0;
    hide KindAt, IsBracket, Weight, OtherWeight, Balance, OtherBalance;
    OneMoreLeft(k, t, j, i);
    OneMoreRight(k, t, j + 1, i);
    forall m | j < m < i ensures UpTo(k, t, j, m) != 0 {
      SlicesJoin(k, t, j + 1, m + 1, i);
      LeftNegative(t, i, m);
    }
  }

  /** A scan finds one match at most. */
  lemma MatchIsUnique(t: Text, i: nat, j: nat, j': nat)
    requires i < |t| && j < |t| && j' < |t| && Matches(t, i, j) && Matches(t, i, j')
    ensures j == j'
  {
    hide KindAt, Balance;
  }

  /** U+0129 looks like a closing parenthesis to the scan, but is not found again. */
  lemma FalseBracket()
    ensures var t: Text := [0x28, 0x129]; Matches(t, 1, 0) && !Matches(t, 0, 1)
  {
    var t: Text := [0x28, 0x129];
    assert t[0..1] == [0x28];
    BalanceOne(Round, 0x28);
    MatchIsMutual(t, 1, 0);
  }
}
