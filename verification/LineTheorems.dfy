/** What the editing commands undo, keep and restore. */
module LineTheorems {
  import opened Numbers
  import opened Brackets
  import opened KillRings
  import opened LineEdits
  import opened Completions

  predicate AllKills(ks: seq<Command>) {
    forall i | 0 <= i < |ks| :: IsKill(ks[i])
  }

  // ---- Kill, then yank ---------------------------------------------------------------

  /** The line, with the most recent killed text at the cursor, is the original. */
  predicate Covers(e: Editor, orig: Text) {
    && e.ring.last == ActionKill
    && if e.ring.recent == [] then e.line.Text() == orig
       else e.ring.index == 0 && e.line.left + e.ring.recent[0] + e.line.right == orig
  }

  /** A kill takes its text from one side of the cursor. */
  lemma KillTakes(e: Editor, buflen: nat, p: Char -> bool, k: Command)
    requires Good(e, buflen) && IsKill(k)
    ensures var n := KillAmount(e.line, p, k);
            Do(e, buflen, p, k) == if KillsAhead(k) then KilledAhead(e, n) else KilledBehind(e, n)
  {
  }

  lemma AheadCovers(e: Editor, n: nat, orig: Text)
    requires n <= |e.line.right| && Covers(e, orig)
    ensures Covers(KilledAhead(e, n), orig)
  {
    var l := e.line;
    var top: Text := if e.ring.recent == [] then [] else e.ring.recent[0];
    assert l.right == l.right[..n] + l.right[n..];
    Regroup(l.left, top, l.right[..n], l.right[n..]);
  }

  lemma BehindCovers(e: Editor, n: nat, orig: Text)
    requires n <= |e.line.left| && Covers(e, orig)
    ensures Covers(KilledBehind(e, n), orig)
  {
    var l, a := e.line, |e.line.left| - n;
    var top: Text := if e.ring.recent == [] then [] else e.ring.recent[0];
    assert l.left == l.left[..a] + l.left[a..];
    Regroup(l.left[..a], l.left[a..], top, l.right);
  }

  lemma KillCovers(e: Editor, buflen: nat, p: Char -> bool, k: Command, orig: Text)
    requires Good(e, buflen) && IsKill(k) && Covers(e, orig)
    ensures Covers(Do(e, buflen, p, k), orig)
  {
    hide GoodSlots, KillAmount, Covers;
    KillTakes(e, buflen, p, k);
    hide Do;
    if KillsAhead(k) {
      AheadCovers(e, KillAmount(e.line, p, k), orig);
    } else {
      BehindCovers(e, KillAmount(e.line, p, k), orig);
    }
  }

  lemma Regroup(a: Text, b: Text, c: Text, d: Text)
    ensures a + (b + c) + d == (a + b) + c + d
    ensures a + (b + c) + d == a + b + (c + d)
    ensures a + [] + d == a + d
  {
  }

  /** The first kill of a run, if it takes something or finds the ring empty. */
  lemma FirstKillCovers(e: Editor, buflen: nat, p: Char -> bool, k: Command)
    requires Good(e, buflen) && IsKill(k) && e.ring.last != ActionKill
    requires KillAmount(e.line, p, k) > 0 || e.ring.recent == []
    ensures Covers(Do(e, buflen, p, k), e.line.Text())
  {
    hide GoodSlots, KillAmount;
    KillTakes(e, buflen, p, k);
    hide Do, Covers;
    if KillsAhead(k) {
      FirstAhead(e, KillAmount(e.line, p, k));
    } else {
      FirstBehind(e, KillAmount(e.line, p, k));
    }
  }

  lemma FirstAhead(e: Editor, n: nat)
    requires n <= |e.line.right| && e.ring.last != ActionKill && (n > 0 || e.ring.recent == [])
    ensures Covers(KilledAhead(e, n), e.line.Text())
  {
    var l := e.line;
    assert l.right == l.right[..n] + l.right[n..];
    Regroup(l.left, [], l.right[..n], l.right[n..]);
  }

  lemma FirstBehind(e: Editor, n: nat)
    requires n <= |e.line.left| && e.ring.last != ActionKill && (n > 0 || e.ring.recent == [])
    ensures Covers(KilledBehind(e, n), e.line.Text())
  {
    var l := e.line;
    assert l.left == l.left[..|l.left| - n] + l.left[|l.left| - n..];
  }

  lemma {:induction false} KillsCover(e: Editor, buflen: nat, p: Char -> bool, ks: seq<Command>, orig: Text)
    requires Good(e, buflen) && AllKills(ks) && Covers(e, orig)
    ensures Covers(DoAll(e, buflen, p, ks), orig)
    decreases |ks|
  {
    hide Good, Do, Covers;
    if ks != [] {
      DoKeepsGood(e, buflen, p, ks[0]);
      KillCovers(e, buflen, p, ks[0], orig);
      KillsCover(Do(e, buflen, p, ks[0]), buflen, p, ks[1..], orig);
    }
  }

  lemma YankUncovers(e: Editor, buflen: nat, p: Char -> bool, orig: Text)
    requires Good(e, buflen) && Covers(e, orig) && |orig| <= buflen
    ensures Do(e, buflen, p, CtrlY).line.Text() == orig
  {
    if e.ring.recent != [] {
      var text := e.ring.recent[0];
      assert |orig| == |e.line.left| + |text| + |e.line.right|;
      assert text[..|text|] == text;
    }
  }

  /**
   Kill, then yank: any run of kills that follows some other action, and whose first kill takes
   something or finds the ring empty, is undone by ctrl-Y.
   */
  lemma KillThenYank(e: Editor, buflen: nat, p: Char -> bool, ks: seq<Command>)
    requires Good(e, buflen) && AllKills(ks) && ks != [] && e.ring.last != ActionKill
    requires KillAmount(e.line, p, ks[0]) > 0 || e.ring.recent == []
    ensures Do(DoAll(e, buflen, p, ks), buflen, p, CtrlY).line.Text() == e.line.Text()
  {
    hide KillAmount;
    FirstKillCovers(e, buflen, p, ks[0]);
    DoKeepsGood(e, buflen, p, ks[0]);
    hide Do, Covers;
    KillsCover(Do(e, buflen, p, ks[0]), buflen, p, ks[1..], e.line.Text());
    YankUncovers(DoAll(e, buflen, p, ks), buflen, p, e.line.Text());
  }

  // ---- When a run begins with an empty kill ------------------------------------------

  /** What of a text the buffer has room for beside a line of the length. */
  function Fit(text: Text, buflen: nat, length: nat): Text
    requires length <= buflen
  {
    text[..Min(|text|, buflen - length)]
  }

  /** What a run of kills leaves of a line, and what it has taken on either side of the cursor. */
  datatype Cut = Cut(line: Line, back: Text, ahead: Text)

  function CutBy(c: Cut, p: Char -> bool, k: Command): Cut
    requires IsKill(k)
  {
    var n, l := KillAmount(c.line, p, k), c.line;
    if KillsAhead(k) then Cut(DeletedAhead(l, n), c.back, c.ahead + l.right[..n])
    else Cut(DeletedBehind(l, n), l.left[|l.left| - n..] + c.back, c.ahead)
  }

  function CutAll(c: Cut, p: Char -> bool, ks: seq<Command>): Cut
    requires AllKills(ks)
    decreases |ks|
  {
    if ks == [] then c else CutAll(CutBy(c, p, ks[0]), p, ks[1..])
  }

  predicate Parts(c: Cut, orig: Text) { c.line.left + c.back + c.ahead + c.line.right == orig }

  lemma CutParts(c: Cut, p: Char -> bool, k: Command, orig: Text)
    requires IsKill(k) && Parts(c, orig)
    ensures Parts(CutBy(c, p, k), orig)
  {
    hide KillAmount;
    var n, l := KillAmount(c.line, p, k), c.line;
    if KillsAhead(k) { PartsAhead(c, n, orig); } else { PartsBehind(c, n, orig); }
  }

  lemma PartsAhead(c: Cut, n: nat, orig: Text)
    requires Parts(c, orig) && n <= |c.line.right|
    ensures Parts(Cut(DeletedAhead(c.line, n), c.back, c.ahead + c.line.right[..n]), orig)
  {
    var r := c.line.right;
    assert r == r[..n] + r[n..];
    FiveParts(c.line.left, c.back, c.ahead, r[..n], r[n..]);
  }

  lemma PartsBehind(c: Cut, n: nat, orig: Text)
    requires Parts(c, orig) && n <= |c.line.left|
    ensures Parts(Cut(DeletedBehind(c.line, n), c.line.left[|c.line.left| - n..] + c.back, c.ahead), orig)
  {
    var l, i := c.line.left, |c.line.left| - n;
    assert l == l[..i] + l[i..];
    FiveParts(l[..i], l[i..], c.back, c.ahead, c.line.right);
  }

  lemma FiveParts(a: Text, b: Text, c: Text, d: Text, e: Text)
    ensures a + b + (c + d) + e == a + b + c + (d + e)
    ensures a + (b + c) + d + e == (a + b) + c + d + e
  {
  }

  lemma {:induction false} CutAllParts(c: Cut, p: Char -> bool, ks: seq<Command>, orig: Text)
    requires AllKills(ks) && Parts(c, orig)
    ensures Parts(CutAll(c, p, ks), orig)
    decreases |ks|
  {
    hide Parts, CutBy;
    if ks != [] {
      CutParts(c, p, ks[0], orig);
      CutAllParts(CutBy(c, p, ks[0]), p, ks[1..], orig);
    }
  }

  /** What was cut has been joined to the text that was the most recent in the ring r. */
  predicate JoinedTo(r: Ring, e: Editor, c: Cut) {
    r.recent != [] && e.line == c.line
    && e.ring == r.(last := ActionKill, recent := [c.back + r.recent[0] + c.ahead] + r.recent[1..])
  }

  lemma JoinMore(r: Ring, e: Editor, c: Cut, text: Text, forward: bool)
    requires JoinedTo(r, e, c)
    ensures KillText(e.ring, text, forward).(last := ActionKill)
         == r.(last := ActionKill,
               recent := [if forward then c.back + r.recent[0] + (c.ahead + text)
                          else (text + c.back) + r.recent[0] + c.ahead]
                         + r.recent[1..])
  {
    var top := c.back + r.recent[0] + c.ahead;
    assert top + text == c.back + r.recent[0] + (c.ahead + text);
    assert text + top == (text + c.back) + r.recent[0] + c.ahead;
    assert e.ring.recent[1..] == r.recent[1..] && e.ring.recent == [top] + r.recent[1..];
    if text == [] { assert c.ahead + text == c.ahead && text + c.back == c.back; }
  }

  lemma KillJoins(r: Ring, e: Editor, c: Cut, buflen: nat, p: Char -> bool, k: Command)
    requires Good(e, buflen) && IsKill(k) && JoinedTo(r, e, c)
    ensures JoinedTo(r, Do(e, buflen, p, k), CutBy(c, p, k))
  {
    hide GoodSlots, KillAmount, KillText, Good;
    KillTakes(e, buflen, p, k);
    var n, l := KillAmount(e.line, p, k), e.line;
    if KillsAhead(k) {
      JoinMore(r, e, c, l.right[..n], true);
    } else {
      JoinMore(r, e, c, l.left[|l.left| - n..], false);
    }
    hide Do;
  }

  lemma {:induction false} KillsJoin(r: Ring, e: Editor, c: Cut, buflen: nat, p: Char -> bool, ks: seq<Command>)
    requires Good(e, buflen) && AllKills(ks) && JoinedTo(r, e, c)
    ensures JoinedTo(r, DoAll(e, buflen, p, ks), CutAll(c, p, ks))
    decreases |ks|
  {
    hide Good, Do, JoinedTo, CutBy;
    if ks != [] {
      DoKeepsGood(e, buflen, p, ks[0]);
      KillJoins(r, e, c, buflen, p, ks[0]);
      KillsJoin(r, Do(e, buflen, p, ks[0]), CutBy(c, p, ks[0]), buflen, p, ks[1..]);
    }
  }

  lemma EmptyKill(e: Editor, buflen: nat, p: Char -> bool, k: Command)
    requires Good(e, buflen) && IsKill(k) && KillAmount(e.line, p, k) == 0
    ensures Do(e, buflen, p, k) == e.(ring := e.ring.(last := ActionKill))
    ensures CutBy(Cut(e.line, [], []), p, k) == Cut(e.line, [], [])
  {
    hide Good, Do, KillAmount, KillsAhead, KilledAhead, KilledBehind, CutBy;
    KillTakes(e, buflen, p, k);
    NothingKilled(e);
    NothingCut(e.line, p, k);
  }

  lemma NothingCut(l: Line, p: Char -> bool, k: Command)
    requires IsKill(k) && KillAmount(l, p, k) == 0
    ensures CutBy(Cut(l, [], []), p, k) == Cut(l, [], [])
  {
    hide KillAmount;
    assert l.left[|l.left|..] == [] && l.left[..|l.left|] == l.left;
  }

  /** What the run takes of the line. */
  function Taken(e: Editor, p: Char -> bool, ks: seq<Command>): Cut
    requires AllKills(ks)
  {
    CutAll(Cut(e.line, [], []), p, ks)
  }

  /** What a yank after the run puts in, if the run has begun with an empty kill: the most recent
      text with what was taken on both its sides, or another text of the ring, as far as it fits. */
  function Refill(e: Editor, buflen: nat, c: Cut): Text
    requires e.ring.index < |e.ring.recent| && |c.line.Text()| <= buflen
  {
    Fit(if e.ring.index == 0 then c.back + e.ring.recent[0] + c.ahead else e.ring.recent[e.ring.index],
        buflen, |c.line.Text()|)
  }

  lemma YankRefills(e: Editor, e': Editor, c: Cut, buflen: nat, p: Char -> bool)
    requires Good(e', buflen) && JoinedTo(e.ring, e', c) && e.ring.index < |e.ring.recent|
    ensures |c.line.Text()| <= buflen
    ensures Do(e', buflen, p, CtrlY).line.Text() == c.line.left + Refill(e, buflen, c) + c.line.right
  {
    hide GoodSlots;
    assert c.line.left[..|c.line.left|] == c.line.left;
  }

  lemma SameMiddle(a: Text, x: Text, y: Text, b: Text)
    ensures a + x + b == a + y + b <==> x == y
  {
    if a + x + b == a + y + b {
      assert |x| == |y|;
      assert x == (a + x + b)[|a|..|a| + |x|] && y == (a + y + b)[|a|..|a| + |y|];
    }
  }

  /**
   What the yank puts in happens to be what the run took. The most recent text is never empty, so
   that with it the buffer has to be full, and to cut off as much as was put in between; any other
   text of the ring has to be what was taken, or to go on from it where the buffer is full.
   */
  predicate ByChance(e: Editor, buflen: nat, c: Cut)
    requires e.ring.index < |e.ring.recent|
  {
    var full, taken := |e.line.Text()| == buflen, c.back + c.ahead;
    if e.ring.index == 0 then full && c.ahead <= e.ring.recent[0] + c.ahead
    else taken == e.ring.recent[e.ring.index] || (full && taken <= e.ring.recent[e.ring.index])
  }

  lemma RefillExactly(e: Editor, buflen: nat, c: Cut)
    requires e.ring.index < |e.ring.recent| && e.ring.recent[0] != []
    requires |c.line.Text()| + |c.back| + |c.ahead| == |e.line.Text()| <= buflen
    ensures Refill(e, buflen, c) == c.back + c.ahead <==> ByChance(e, buflen, c)
  {
    var top, room, taken := e.ring.recent[0], buflen - |c.line.Text()|, c.back + c.ahead;
    if e.ring.index == 0 {
      var put := c.back + top + c.ahead;
      assert put == c.back + (top + c.ahead);
      CutShort(c.back, top + c.ahead, c.ahead);
      assert |put| > |taken|;
    }
  }

  /** A text cut off at a length has so much of another in front if and only if the rest has. */
  lemma CutShort(a: Text, x: Text, y: Text)
    requires |y| <= |x|
    ensures (a + x)[..|a + y|] == a + y <==> y <= x
  {
    assert (a + x)[..|a + y|] == a + x[..|y|];
    if a + x[..|y|] == a + y {
      assert x[..|y|] == (a + x[..|y|])[|a|..] && y == (a + y)[|a|..];
    }
  }

  /**
   From every line: a run of kills that follows some other action is undone by ctrl-Y if and only
   if its first kill takes something, or finds the ring empty, or what the yank puts in happens to
   be what the run took.
   */
  lemma KillYankExact(e: Editor, buflen: nat, p: Char -> bool, ks: seq<Command>)
    requires Good(e, buflen) && AllKills(ks) && ks != [] && e.ring.last != ActionKill
    ensures e.ring.recent != [] ==> e.ring.index < |e.ring.recent|
    ensures Do(DoAll(e, buflen, p, ks), buflen, p, CtrlY).line.Text() == e.line.Text()
            <==> KillAmount(e.line, p, ks[0]) > 0 || e.ring.recent == [] || ByChance(e, buflen, Taken(e, p, ks))
  {
    hide Do, DoAll, CutAll, KillAmount, Refill, Good, Parts, ByChance;
    var c := Taken(e, p, ks);
    RingOk(e, buflen);
    TakenParts(e, p, ks);
    if KillAmount(e.line, p, ks[0]) > 0 || e.ring.recent == [] {
      KillThenYank(e, buflen, p, ks);
    } else {
      EmptyRun(e, buflen, p, ks);
      YankRefills(e, DoAll(e, buflen, p, ks), c, buflen, p);
      SameMiddle(c.line.left, Refill(e, buflen, c), c.back + c.ahead, c.line.right);
      MiddleParts(c, e.line.Text());
      RefillExactly(e, buflen, c);
    }
  }

  lemma RingOk(e: Editor, buflen: nat)
    requires Good(e, buflen)
    ensures |e.line.Text()| <= buflen
    ensures e.ring.recent != [] ==> e.ring.index < |e.ring.recent| && e.ring.recent[0] != []
  {
  }

  lemma MiddleParts(c: Cut, orig: Text)
    requires Parts(c, orig)
    ensures c.line.left + (c.back + c.ahead) + c.line.right == orig
  {
  }

  lemma TakenParts(e: Editor, p: Char -> bool, ks: seq<Command>)
    requires AllKills(ks)
    ensures var c := Taken(e, p, ks);
            Parts(c, e.line.Text()) && |c.line.Text()| + |c.back| + |c.ahead| == |e.line.Text()|
  {
    hide CutAll;
    assert e.line.left + [] + [] + e.line.right == e.line.Text();
    CutAllParts(Cut(e.line, [], []), p, ks, e.line.Text());
  }

  lemma EmptyRun(e: Editor, buflen: nat, p: Char -> bool, ks: seq<Command>)
    requires Good(e, buflen) && AllKills(ks) && ks != [] && KillAmount(e.line, p, ks[0]) == 0 && e.ring.recent != []
    ensures JoinedTo(e.ring, DoAll(e, buflen, p, ks), Taken(e, p, ks)) && Good(DoAll(e, buflen, p, ks), buflen)
  {
    hide Do, KillAmount, Good, CutBy, JoinedTo;
    EmptyKill(e, buflen, p, ks[0]);
    DoKeepsGood(e, buflen, p, ks[0]);
    JoinedNothing(e);
    KillsJoin(e.ring, Do(e, buflen, p, ks[0]), Cut(e.line, [], []), buflen, p, ks[1..]);
  }

  lemma JoinedNothing(e: Editor)
    requires e.ring.recent != []
    ensures JoinedTo(e.ring, e.(ring := e.ring.(last := ActionKill)), Cut(e.line, [], []))
  {
    var r := e.ring;
    assert [] + r.recent[0] + [] == r.recent[0] && [r.recent[0]] + r.recent[1..] == r.recent;
  }

  /** With the ring at its most recent text and room left in the buffer, nothing happens to fit. */
  lemma KillYankWithRoom(e: Editor, buflen: nat, p: Char -> bool, ks: seq<Command>)
    requires Good(e, buflen) && AllKills(ks) && ks != [] && e.ring.last != ActionKill
    requires e.ring.index == 0 && |e.line.Text()| < buflen
    ensures Do(DoAll(e, buflen, p, ks), buflen, p, CtrlY).line.Text() == e.line.Text()
            <==> KillAmount(e.line, p, ks[0]) > 0 || e.ring.recent == []
  {
    hide Do, DoAll, Taken, KillAmount, Good;
    KillYankExact(e, buflen, p, ks);
  }

  /** The cursor at the end of a line, and a text in the ring: ctrl-K takes nothing, ctrl-U takes the
      line, and ctrl-Y gives the line with that text behind it. */
  lemma EmptyKillSpoils(text: Text, old': Text, buflen: nat, p: Char -> bool)
    requires NoZero(text) && NoZero(old') && old' != [] && |text| + |old'| <= buflen
    ensures var e := Editor(Line(text, []), Ring([old'], 0, ActionOther, 0));
            && Good(e, buflen)
            && Do(DoAll(e, buflen, p, [CtrlK, CtrlU]), buflen, p, CtrlY).line.Text() == text + old'
  {
    var e := Editor(Line(text, []), Ring([old'], 0, ActionOther, 0));
    EmptyKill(e, buflen, p, CtrlK);
    var e1, e2 := e.(ring := e.ring.(last := ActionKill)), Editor(Line([], []), Ring([text + old'], 0, ActionKill, 0));
    TakesAll(text, old', buflen, p);
    assert Good(e2, buflen);
    GivesAll(text + old', buflen, p);
    hide Do, Good;
    assert [CtrlK, CtrlU][1..] == [CtrlU] && [CtrlU][1..] == [];
    assert DoAll(e1, buflen, p, [CtrlU]) == e2;
  }

  lemma TakesAll(text: Text, old': Text, buflen: nat, p: Char -> bool)
    requires NoZero(text) && NoZero(old') && old' != [] && |text| <= buflen
    ensures var e := Editor(Line(text, []), Ring([old'], 0, ActionKill, 0));
            Good(e, buflen) && Do(e, buflen, p, CtrlU) == Editor(Line([], []), Ring([text + old'], 0, ActionKill, 0))
  {
    assert text[0..] == text && text[..0] == [];
    if text == [] { assert text + old' == old'; }
  }

  lemma GivesAll(text: Text, buflen: nat, p: Char -> bool)
    requires NoZero(text) && text != [] && |text| <= buflen
    ensures var e := Editor(Line([], []), Ring([text], 0, ActionKill, 0));
            Good(e, buflen) && Do(e, buflen, p, CtrlY).line.Text() == text
  {
    assert text[..|text|] == text;
  }

  // ---- Yank, then yank-pop -----------------------------------------------------------

  function Pops(n: nat): seq<Command> { seq(n, i => MetaY) }

  /** A yank puts the current text before the cursor, as far as it fits. */
  lemma YankInserts(e: Editor, buflen: nat, p: Char -> bool)
    requires Good(e, buflen) && e.ring.recent != []
    ensures var r, text := Do(e, buflen, p, CtrlY), Fit(e.ring.recent[e.ring.index], buflen, |e.line.Text()|);
            && r.line == Line(e.line.left + text, e.line.right)
            && r.ring == e.ring.(last := ActionYank, lastYankSize := |text|)
  {
    assert e.line.left[..|e.line.left|] == e.line.left;
  }

  /** A yank-pop replaces exactly the text yanked last by the next one of the ring, and leaves
      both sides alone. */
  lemma PopReplaces(left: Text, yanked: Text, right: Text, ring: Ring, buflen: nat, p: Char -> bool)
    requires Good(Editor(Line(left + yanked, right), ring), buflen)
    requires ring.last == ActionYank && ring.lastYankSize == |yanked| && ring.recent != []
    ensures NextIndex(ring.index, |ring.recent|) < |ring.recent|
    ensures var i := NextIndex(ring.index, |ring.recent|);
            var text := Fit(ring.recent[i], buflen, |left + right|);
            Do(Editor(Line(left + yanked, right), ring), buflen, p, MetaY)
            == Editor(Line(left + text, right), ring.(index := i, lastYankSize := |text|))
  {
    assert (left + yanked)[..|left + yanked| - |yanked|] == left;
  }

  /** The place n turns after i in a ring of the size. */
  function Ahead(i: nat, n: nat, size: nat): nat {
    if n == 0 then i else NextIndex(Ahead(i, n - 1, size), size)
  }

  lemma {:induction false} AheadIs(i: nat, n: nat, size: nat)
    requires i < size && n <= size
    ensures Ahead(i, n, size) == if i + n < size then i + n else i + n - size
  {
    if n > 0 { AheadIs(i, n - 1, size); }
  }

  lemma {:induction false} AheadBound(i: nat, n: nat, size: nat)
    requires i < size
    ensures Ahead(i, n, size) < size
  {
    if n > 0 { AheadBound(i, n - 1, size); }
  }

  /** The editor after a yank and n yank-pops: the text n places on in the ring, as far as it
      fits, stands where the first one was yanked. */
  function Popped(e: Editor, buflen: nat, n: nat): Editor
    requires Good(e, buflen) && e.ring.recent != []
  {
    AheadBound(e.ring.index, n, |e.ring.recent|);
    var i := Ahead(e.ring.index, n, |e.ring.recent|);
    var text := Fit(e.ring.recent[i], buflen, |e.line.Text()|);
    Editor(Line(e.line.left + text, e.line.right), e.ring.(index := i, last := ActionYank, lastYankSize := |text|))
  }

  lemma PopsAgain(e: Editor, buflen: nat, p: Char -> bool, n: nat)
    requires Good(e, buflen) && e.ring.recent != [] && Good(Popped(e, buflen, n), buflen)
    ensures Do(Popped(e, buflen, n), buflen, p, MetaY) == Popped(e, buflen, n + 1)
  {
    AheadBound(e.ring.index, n, |e.ring.recent|);
    hide GoodSlots, NoZero;
    var i := Ahead(e.ring.index, n, |e.ring.recent|);
    var text := Fit(e.ring.recent[i], buflen, |e.line.Text()|);
    PopReplaces(e.line.left, text, e.line.right, Popped(e, buflen, n).ring, buflen, p);
    hide Do;
  }

  lemma {:induction false} YankPops(e: Editor, buflen: nat, p: Char -> bool, n: nat)
    requires Good(e, buflen) && e.ring.recent != []
    ensures Good(Do(e, buflen, p, CtrlY), buflen)
    ensures DoAll(Do(e, buflen, p, CtrlY), buflen, p, Pops(n)) == Popped(e, buflen, n)
  {
    DoKeepsGood(e, buflen, p, CtrlY);
    if n == 0 {
      YankInserts(e, buflen, p);
    } else {
      hide Do, Good, Popped;
      YankPops(e, buflen, p, n - 1);
      assert Pops(n) == Pops(n - 1) + [MetaY];
      DoAllAppend(Do(e, buflen, p, CtrlY), buflen, p, Pops(n - 1), MetaY);
      PopsAgain(e, buflen, p, n - 1);
    }
  }

  /** As many yank-pops as the ring has texts come back to the yank alone. */
  lemma YankPopCycle(e: Editor, buflen: nat, p: Char -> bool)
    requires Good(e, buflen) && e.ring.recent != []
    ensures Good(Do(e, buflen, p, CtrlY), buflen)
    ensures DoAll(Do(e, buflen, p, CtrlY), buflen, p, Pops(|e.ring.recent|)) == Do(e, buflen, p, CtrlY)
  {
    var size := |e.ring.recent|;
    YankPops(e, buflen, p, size);
    YankInserts(e, buflen, p);
    hide Do;
    AheadIs(e.ring.index, size, size);
  }

  // ---- What edits keep ---------------------------------------------------------------

  /** Moves change no text, and leave the kill ring's texts alone. */
  lemma MovesKeepText(e: Editor, buflen: nat, p: Char -> bool, cmd: Command)
    requires Good(e, buflen) && IsMove(cmd)
    ensures var r := Do(e, buflen, p, cmd);
            r.line.Text() == e.line.Text() && r.ring == e.ring.(last := ActionOther)
  {
    hide GoodSlots, Moved, WordAhead, WordBehind;
    var a, b := |e.line.left|, |e.line.Text()|;
    assert b == a + |e.line.right|;
    match cmd
    case CtrlA => MovedText(e.line, 0);
    case CtrlB => MovedText(e.line, if a > 0 then a - 1 else 0);
    case MetaB => MovedText(e.line, a - WordBehind(e.line.left, p));
    case CtrlC => MovedText(e.line, b);
    case CtrlE => MovedText(e.line, b);
    case CtrlM => MovedText(e.line, b);
    case CtrlF => MovedText(e.line, Min(a + 1, b));
    case MetaF => MovedText(e.line, a + WordAhead(e.line.right, p));
    case _ =>
  }

  lemma MovedText(l: Line, k: nat)
    requires k <= |l.Text()|
    ensures Moved(l, k).Text() == l.Text()
  {
  }

  /** A character typed and rubbed out again leaves the line as it was. */
  lemma InsertThenRubOut(e: Editor, buflen: nat, p: Char -> bool, c: Char)
    requires Good(e, buflen) && Insertable(c) && |e.line.Text()| < buflen
    ensures Good(Do(e, buflen, p, Insert(c)), buflen)
    ensures Do(Do(e, buflen, p, Insert(c)), buflen, p, CtrlH).line == e.line
  {
    DoKeepsGood(e, buflen, p, Insert(c));
    hide GoodSlots;
    var l := e.line.left + [c];
    assert l[..|l| - 1] == e.line.left;
  }

  /** Exchanging characters changes their order only; at the end of the line twice is nothing. */
  lemma TransposeKeepsChars(l: Line)
    ensures multiset(Transposed(l).Text()) == multiset(l.Text())
    ensures l.right == [] ==> Transposed(Transposed(l)) == l
  {
    if |l.left| > 0 && |l.Text()| >= 2 {
      if l.right == [] { TransposeAtEnd(l.left); } else { TransposeInside(l); }
    }
  }

  lemma TransposeAtEnd(t: Text)
    requires |t| >= 2
    ensures var l := Line(t, []);
            multiset(Transposed(l).Text()) == multiset(l.Text()) && Transposed(Transposed(l)) == l
  {
    var b, x, y := t[..|t| - 2], t[|t| - 2], t[|t| - 1];
    hide Transposed;
    assert t == b + [x, y];
    TransposedPair(b, x, y);
    TransposedPair(b, y, x);
    Swapped(b, x, y, []);
  }

  lemma TransposedPair(b: Text, x: Char, y: Char)
    ensures Transposed(Line(b + [x, y], [])) == Line(b + [y, x], [])
  {
    assert (b + [x, y])[..|b|] == b;
  }

  lemma TransposeInside(l: Line)
    requires l.left != [] && l.right != []
    ensures multiset(Transposed(l).Text()) == multiset(l.Text())
  {
    var a := |l.left| - 1;
    var b, x, y, d := l.left[..a], l.left[a], l.right[0], l.right[1..];
    assert l.Text() == b + [x, y] + d;
    assert Transposed(l).Text() == b + [y, x] + d;
    Swapped(b, x, y, d);
  }

  lemma Swapped(b: Text, x: Char, y: Char, d: Text)
    ensures multiset(b + [x, y] + d) == multiset(b + [y, x] + d)
  {
    assert multiset(b + [x, y] + d) == multiset(b) + multiset{x, y} + multiset(d);
    assert multiset(b + [y, x] + d) == multiset(b) + multiset{x, y} + multiset(d);
  }

  // ---- Completion --------------------------------------------------------------------

  /** A completion leaves alone what is before the item and what is after the cursor, never makes
      the item shorter, and puts a common prefix of all the completions in its place. */
  lemma CompletionKeepsBothSides(l: Line, buflen: nat, cs: seq<CText>)
    requires |l.Text()| <= buflen
    ensures var r, start := Completed(l, buflen, cs), |l.left| - ItemLength(l.left);
            && r.right == l.right && start <= |l.left| <= |r.left| && r.left[..start] == l.left[..start]
            && (r != l ==> CommonPrefix(cs, |r.left| - start) && r.left[start..] == cs[0][..|r.left| - start])
            && |r.Text()| <= buflen
  {
    if cs != [] && Longest(cs) > ItemLength(l.left) {
      var n := Min(Longest(cs), ItemLength(l.left) + buflen - |l.Text()|);
      ShorterIsCommon(cs, n, Longest(cs));
      hide Longest;
      assert (l.left[..|l.left| - ItemLength(l.left)] + cs[0][..n])[|l.left| - ItemLength(l.left)..] == cs[0][..n];
    }
  }

  /** A completion without break characters is final: the same completions change nothing more. */
  lemma CompletionIsFinal(l: Line, buflen: nat, cs: seq<CText>)
    requires |l.Text()| <= buflen && cs != []
    requires forall i | 0 <= i < Longest(cs) :: !IsBreak(cs[0][i])
    ensures |Completed(l, buflen, cs).Text()| <= buflen
    ensures Completed(Completed(l, buflen, cs), buflen, cs) == Completed(l, buflen, cs)
  {
    hide Longest, IsBreak, ItemLength, Completed;
    CompletionKeepsBothSides(l, buflen, cs);
    CompletedForm(l, buflen, cs);
    if Longest(cs) > ItemLength(l.left) {
      var n := Min(Longest(cs), ItemLength(l.left) + buflen - |l.Text()|);
      var head := l.left[..|l.left| - ItemLength(l.left)];
      HeadBreaks(l.left);
      NoBreaks(cs[0], Longest(cs), n);
      ItemAfter(head, cs[0][..n]);
      CompletedAgain(head, l.right, buflen, cs, n);
    }
  }

  lemma NoBreaks(t: Text, longest: nat, n: nat)
    requires n <= longest <= |t| && forall i | 0 <= i < longest :: !IsBreak(t[i])
    ensures forall i | 0 <= i < n :: !IsBreak(t[..n][i])
  {
  }

  /** A completion either changes nothing or, as far as there is room, puts in the whole prefix. */
  lemma CompletedForm(l: Line, buflen: nat, cs: seq<CText>)
    requires |l.Text()| <= buflen && cs != []
    ensures Longest(cs) <= ItemLength(l.left) ==> Completed(l, buflen, cs) == l
    ensures Longest(cs) > ItemLength(l.left) ==>
              var n := Min(Longest(cs), ItemLength(l.left) + buflen - |l.Text()|);
              var head := l.left[..|l.left| - ItemLength(l.left)];
              && Completed(l, buflen, cs) == Line(head + cs[0][..n], l.right)
              && |head| + n + |l.right| <= buflen && (n < Longest(cs) ==> |head| + n + |l.right| == buflen)
  {
    hide Longest, ItemLength;
    HeadBreaks(l.left);
    assert |l.Text()| == |l.left| + |l.right|;
  }

  lemma HeadBreaks(left: Text)
    ensures var start := |left| - ItemLength(left);
            0 <= start <= |left| && (start > 0 ==> IsBreak(left[..start][start - 1]))
  {
    hide IsBreak;
  }

  lemma CompletedAgain(head: Text, right: Text, buflen: nat, cs: seq<CText>, n: nat)
    requires cs != [] && n <= Longest(cs) && ItemLength(head + cs[0][..n]) == n && |head| + n + |right| <= buflen
    requires n < Longest(cs) ==> |head| + n + |right| == buflen
    ensures var l := Line(head + cs[0][..n], right); Completed(l, buflen, cs) == l
  {
    var l := Line(head + cs[0][..n], right);
    assert l.left[..|l.left| - n] == head;
    hide Longest, ItemLength;
    assert |l.Text()| == |head| + n + |right|;
  }

  /** What is put in after a break, or at the start of the line, is the item from then on. */
  lemma {:induction false} ItemAfter(left: Text, item: Text)
    requires left != [] ==> IsBreak(left[|left| - 1])
    requires forall i | 0 <= i < |item| :: !IsBreak(item[i])
    ensures ItemLength(left + item) == |item|
  {
    hide IsBreak;
    if item == [] {
      assert left + item == left;
    } else {
      assert (left + item)[..|left + item| - 1] == left + item[..|item| - 1];
      ItemAfter(left, item[..|item| - 1]);
    }
  }
}
