/** The editing commands of the line editor, as edits of the text at the cursor. */
module LineEdits {
  import opened Numbers
  import opened Brackets
  import opened KillRings
  import opened LineSpans
  import opened Completions

  /** The text before the cursor and the text from the cursor on. */
  datatype Line = Line(left: Text, right: Text) {
    function Text(): Text { left + right }
  }

  datatype Editor = Editor(line: Line, ring: Ring)

  /** The keys that edit the line or leave it; ctrl-J acts as ctrl-M does, and delete and DEL as
      ctrl-D does on a line that has text. With the tab key go the completions that the callback
      proposes. */
  datatype Command =
    | CtrlA | CtrlB | MetaB | CtrlC | MetaC | CtrlD | MetaD | CtrlE | CtrlF | MetaF | CtrlH | MetaH
    | CtrlK | MetaL | CtrlM | CtrlT | CtrlU | MetaU | CtrlW | CtrlY | MetaY | Insert(c: Char)
    | Tab(completions: seq<CText>)

  predicate IsSpace(c: Char) { c == 0x20 }

  function Upper(c: Char): Char { if 0x61 <= c <= 0x7A then c - 0x20 else c }
  function Lower(c: Char): Char { if 0x41 <= c <= 0x5A then c + 0x20 else c }

  /** How far the next word reaches: past what is no part of a word, then past the word. */
  function WordAhead(t: Text, p: Char -> bool): (n: nat)
    ensures Span(t, p, false) <= n <= |t|
  {
    var gap := Span(t, p, false);
    gap + Span(t[gap..], p, true)
  }

  function WordBehind(t: Text, p: Char -> bool): (n: nat)
    ensures n <= |t|
  {
    var gap := SpanBack(t, p, false);
    gap + SpanBack(t[..|t| - gap], p, true)
  }

  /** ctrl-W: past the blanks, then past what is not blank. */
  function BlankBehind(t: Text): (n: nat)
    ensures n <= |t|
  {
    var gap := SpanBack(t, IsSpace, true);
    gap + SpanBack(t[..|t| - gap], IsSpace, false)
  }

  function Each(t: Text, f: Char -> Char): (r: Text)
    ensures |r| == |t| && forall i | 0 <= i < |r| :: r[i] == f(t[i])
  {
    seq(|t|, i requires 0 <= i < |t| => f(t[i]))
  }

  // ---- Moves and edits ---------------------------------------------------------------

  function Moved(l: Line, k: nat): Line
    requires k <= |l.Text()|
  {
    Line(l.Text()[..k], l.Text()[k..])
  }

  lemma MovedNowhere(l: Line)
    ensures Moved(l, |l.left|) == l
  {
  }

  function DeletedAhead(l: Line, n: nat): Line
    requires n <= |l.right|
  {
    l.(right := l.right[n..])
  }

  function DeletedBehind(l: Line, n: nat): Line
    requires n <= |l.left|
  {
    l.(left := l.left[..|l.left| - n])
  }

  /** Applies f to the next word and moves past it. */
  function Recased(l: Line, p: Char -> bool, f: Char -> Char): Line {
    var gap := Span(l.right, p, false);
    var n := WordAhead(l.right, p);
    Line(l.left + l.right[..gap] + Each(l.right[gap..n], f), l.right[n..])
  }

  /** Changing the case of the word that begins at the cursor. */
  function RecasedHere(l: Line, p: Char -> bool, f: Char -> Char): Line {
    var n := Span(l.right, p, true);
    Line(l.left + Each(l.right[..n], f), l.right[n..])
  }

  lemma RecasedParts(l: Line, p: Char -> bool, f: Char -> Char)
    ensures RecasedHere(Moved(l, |l.left| + Span(l.right, p, false)), p, f) == Recased(l, p, f)
  {
    hide Span;
    var gap := Span(l.right, p, false);
    MovedAhead(l, gap);
    TailParts(l.right, gap, Span(l.right[gap..], p, true));
  }

  lemma MovedAhead(l: Line, k: nat)
    requires k <= |l.right|
    ensures Moved(l, |l.left| + k) == Line(l.left + l.right[..k], l.right[k..])
  {
  }

  function Capitalized(l: Line, p: Char -> bool): Line {
    var gap := Span(l.right, p, false);
    var n := WordAhead(l.right, p);
    var word := l.right[gap..n];
    if word == [] then Line(l.left + l.right[..n], l.right[n..])
    else Line(l.left + l.right[..gap] + [Upper(word[0])] + Each(word[1..], Lower), l.right[n..])
  }

  lemma CapitalizedParts(l: Line, p: Char -> bool)
    ensures var m := Moved(l, |l.left| + Span(l.right, p, false));
            Capitalized(l, p) == RecasedHere(if m.right != [] && p(m.right[0])
              then Line(m.left + [Upper(m.right[0])], m.right[1..]) else m, p, Lower)
  {
    var gap := Span(l.right, p, false);
    MovedAhead(l, gap);
    CapitalizedTail(l.left + l.right[..gap], l.right[gap..], p);
    WordSplit(l.right, p);
  }

  lemma WordSplit(t: Text, p: Char -> bool)
    ensures var gap := Span(t, p, false); var n := Span(t[gap..], p, true);
            t[gap..WordAhead(t, p)] == t[gap..][..n] && t[WordAhead(t, p)..] == t[gap..][n..]
    ensures Span(t[Span(t, p, false)..], p, true) == 0 ==> WordAhead(t, p) == Span(t, p, false)
  {
    hide Span;
    var gap := Span(t, p, false);
    TailParts(t, gap, Span(t[gap..], p, true));
  }

  lemma TailParts(t: Text, k: nat, n: nat)
    requires k + n <= |t|
    ensures t[k..][..n] == t[k..k + n] && t[k..][n..] == t[k + n..]
  {
  }

  lemma CapitalizedTail(left: Text, r: Text, p: Char -> bool)
    ensures RecasedHere(if r != [] && p(r[0]) then Line(left + [Upper(r[0])], r[1..]) else Line(left, r), p, Lower)
         == var n := Span(r, p, true);
            if n == 0 then Line(left, r) else Line(left + [Upper(r[0])] + Each(r[1..n], Lower), r[n..])
  {
    var n := Span(r, p, true);
    if n > 0 {
      assert r[1..][..n - 1] == r[1..n] && r[1..][n - 1..] == r[n..];
    } else {
      assert left + Each([], Lower) == left && r[..0] == [] && r[0..] == r;
    }
  }

  /** Exchanges the characters about the cursor, or the last two at the end of the line. */
  function Transposed(l: Line): Line {
    var a, b := |l.left|, l.left;
    if a == 0 || |l.Text()| < 2 then l
    else if l.right == [] then Line(b[..a - 2] + [b[a - 1], b[a - 2]], [])
    else Line(b[..a - 1] + [l.right[0], b[a - 1]], l.right[1..])
  }

  /** c & (META | CTRL), and isControlChar */
  predicate Insertable(c: Char) {
    c / 0x2000_0000 % 4 == 0 && !(c < 0x20 || 0x7F <= c <= 0x9F)
  }

  function Inserted(l: Line, buflen: nat, c: Char): Line {
    if Insertable(c) && |l.Text()| < buflen then l.(left := l.left + [c]) else l
  }

  /** Puts the longest common prefix of the completions, as far as the buffer has room, in place of
      the item before the cursor, if it is longer than the item. */
  function Completed(l: Line, buflen: nat, cs: seq<CText>): Line
    requires |l.Text()| <= buflen
  {
    var itemLength := ItemLength(l.left);
    if cs == [] || Longest(cs) <= itemLength then l
    else Line(l.left[..|l.left| - itemLength] + cs[0][..Min(Longest(cs), itemLength + buflen - |l.Text()|)], l.right)
  }

  /** The commands that only move the cursor; the two that leave the editor move it to the end. */
  predicate IsMove(cmd: Command) {
    || cmd.CtrlA? || cmd.CtrlB? || cmd.MetaB? || cmd.CtrlC?
    || cmd.CtrlE? || cmd.CtrlF? || cmd.MetaF? || cmd.CtrlM?
  }

  predicate IsEdit(cmd: Command) {
    || cmd.CtrlD? || cmd.CtrlH? || cmd.MetaC? || cmd.MetaL?
    || cmd.MetaU? || cmd.CtrlT? || cmd.Insert?
  }

  // ---- Killing and yanking -----------------------------------------------------------

  predicate IsKill(cmd: Command) {
    cmd.CtrlK? || cmd.CtrlU? || cmd.CtrlW? || cmd.MetaD? || cmd.MetaH?
  }

  predicate KillsAhead(cmd: Command) { cmd == CtrlK || cmd == MetaD }

  /** How many characters a kill takes. */
  function KillAmount(l: Line, p: Char -> bool, cmd: Command): (n: nat)
    requires IsKill(cmd)
    ensures n <= if KillsAhead(cmd) then |l.right| else |l.left|
  {
    match cmd
    case CtrlK => |l.right|
    case MetaD => WordAhead(l.right, p)
    case CtrlU => |l.left|
    case CtrlW => BlankBehind(l.left)
    case _ => WordBehind(l.left, p)
  }

  function KilledAhead(e: Editor, n: nat): Editor
    requires n <= |e.line.right|
  {
    Editor(DeletedAhead(e.line, n), KillText(e.ring, e.line.right[..n], true).(last := ActionKill))
  }

  function KilledBehind(e: Editor, n: nat): Editor
    requires n <= |e.line.left|
  {
    Editor(DeletedBehind(e.line, n),
           KillText(e.ring, e.line.left[|e.line.left| - n..], false).(last := ActionKill))
  }

  lemma NothingKilled(e: Editor)
    ensures KilledAhead(e, 0) == KilledBehind(e, 0) == e.(ring := e.ring.(last := ActionKill))
  {
  }

  /** Puts the ring's text before the cursor in place of the last `drop` characters there, as far
      as the buffer has room. */
  function Yanked(e: Editor, buflen: nat, drop: nat): Editor
    requires GoodRing(e.ring) && e.ring.recent != [] && drop <= |e.line.left|
    requires |e.line.Text()| <= buflen
  {
    var text := e.ring.recent[e.ring.index];
    var n := Min(|text|, drop + buflen - |e.line.Text()|);
    Editor(Line(e.line.left[..|e.line.left| - drop] + text[..n], e.line.right),
           e.ring.(last := ActionYank, lastYankSize := n))
  }

  predicate GoodLine(l: Line, buflen: nat) {
    |l.Text()| <= buflen && NoZero(l.left) && NoZero(l.right)
  }

  /** What every command keeps: a line that fits the buffer, no zero in any text, and a yank that
      can still be found before the cursor. */
  predicate Good(e: Editor, buflen: nat) {
    && GoodLine(e.line, buflen) && GoodRing(e.ring)
    && (e.ring.last == ActionYank ==> e.ring.lastYankSize <= |e.line.left|)
  }

  function Other(e: Editor, l: Line): Editor { Editor(l, e.ring.(last := ActionOther)) }

  function Do(e: Editor, buflen: nat, p: Char -> bool, cmd: Command): Editor
    requires Good(e, buflen)
  {
    var l, a := e.line, |e.line.left|;
    match cmd
    case CtrlA => Other(e, Moved(l, 0))
    case CtrlB => Other(e, Moved(l, if a > 0 then a - 1 else 0))
    case MetaB => Other(e, Moved(l, a - WordBehind(l.left, p)))
    case MetaC => Other(e, Capitalized(l, p))
    case CtrlD => Other(e, DeletedAhead(l, Min(1, |l.right|)))
    case CtrlE => Other(e, Moved(l, |l.Text()|))
    case CtrlC => Other(e, Moved(l, |l.Text()|))
    case CtrlM => Other(e, Moved(l, |l.Text()|))
    case CtrlF => Other(e, Moved(l, Min(a + 1, |l.Text()|)))
    case MetaF => Other(e, Moved(l, a + WordAhead(l.right, p)))
    case CtrlH => Other(e, DeletedBehind(l, Min(1, a)))
    case MetaL => Other(e, Recased(l, p, Lower))
    case MetaU => Other(e, Recased(l, p, Upper))
    case CtrlT => Other(e, Transposed(l))
    case Insert(c) => Other(e, Inserted(l, buflen, c))
    case Tab(cs) => if a == 0 then e else Other(e, Completed(l, buflen, cs))
    case CtrlY => if e.ring.recent == [] then e else Yanked(e, buflen, 0)
    case MetaY =>
      if e.ring.last != ActionYank || e.ring.recent == [] then e
      else Yanked(e.(ring := Turned(e.ring)), buflen, e.ring.lastYankSize)
    case CtrlK => KilledAhead(e, KillAmount(l, p, cmd))
    case MetaD => KilledAhead(e, KillAmount(l, p, cmd))
    case CtrlU => KilledBehind(e, KillAmount(l, p, cmd))
    case CtrlW => KilledBehind(e, KillAmount(l, p, cmd))
    case MetaH => KilledBehind(e, KillAmount(l, p, cmd))
  }

  function DoAll(e: Editor, buflen: nat, p: Char -> bool, cmds: seq<Command>): (r: Editor)
    requires Good(e, buflen)
    ensures Good(r, buflen)
    decreases |cmds|
  {
    if cmds == [] then e
    else
      DoKeepsGood(e, buflen, p, cmds[0]);
      DoAll(Do(e, buflen, p, cmds[0]), buflen, p, cmds[1..])
  }

  /** The keys that leave the editor: ctrl-C, ctrl-M, and ctrl-D on an empty line. */
  predicate Leaves(cmd: Command, l: Line) {
    cmd == CtrlC || cmd == CtrlM || (cmd == CtrlD && l.Text() == [])
  }

  /** The i-th key leaves the editor, if it comes so far. */
  predicate LeavesAt(e: Editor, buflen: nat, p: Char -> bool, cmds: seq<Command>, i: nat)
    requires Good(e, buflen) && i < |cmds|
  {
    Leaves(cmds[i], DoAll(e, buflen, p, cmds[..i]).line)
  }

  lemma {:induction false} DoAllAppend(e: Editor, buflen: nat, p: Char -> bool, cmds: seq<Command>, c: Command)
    requires Good(e, buflen)
    ensures DoAll(e, buflen, p, cmds + [c]) == Do(DoAll(e, buflen, p, cmds), buflen, p, c)
    decreases |cmds|
  {
    hide Do, Good;
    if cmds == [] {
      assert cmds + [c] == [c] && [c][1..] == [];
    } else {
      DoKeepsGood(e, buflen, p, cmds[0]);
      assert (cmds + [c])[1..] == cmds[1..] + [c];
      DoAllAppend(Do(e, buflen, p, cmds[0]), buflen, p, cmds[1..], c);
    }
  }

  lemma YankedIsGood(e: Editor, buflen: nat, drop: nat)
    requires GoodLine(e.line, buflen) && GoodRing(e.ring)
    requires e.ring.recent != [] && drop <= |e.line.left|
    ensures Good(Yanked(e, buflen, drop), buflen)
  {
    assert GoodTexts(e.ring.recent);
  }

  lemma KillKeepsGood(e: Editor, buflen: nat, n: nat)
    requires Good(e, buflen)
    ensures n <= |e.line.right| ==> Good(KilledAhead(e, n), buflen)
    ensures n <= |e.line.left| ==> Good(KilledBehind(e, n), buflen)
  {
    if n <= |e.line.right| { KillIsGood(e.ring, e.line.right[..n], true); }
    if n <= |e.line.left| { KillIsGood(e.ring, e.line.left[|e.line.left| - n..], false); }
    hide GoodSlots;
  }

  lemma OtherIsGood(e: Editor, buflen: nat, l: Line)
    requires Good(e, buflen) && GoodLine(l, buflen)
    ensures Good(Other(e, l), buflen)
  {
  }

  lemma MovedIsGood(l: Line, buflen: nat, k: nat)
    requires GoodLine(l, buflen) && k <= |l.Text()|
    ensures GoodLine(Moved(l, k), buflen)
  {
  }

  lemma DeletedIsGood(l: Line, buflen: nat, n: nat)
    requires GoodLine(l, buflen)
    ensures n <= |l.right| ==> GoodLine(DeletedAhead(l, n), buflen)
    ensures n <= |l.left| ==> GoodLine(DeletedBehind(l, n), buflen)
  {
  }

  lemma TransposedIsGood(l: Line, buflen: nat)
    requires GoodLine(l, buflen)
    ensures GoodLine(Transposed(l), buflen)
  {
  }

  lemma InsertedIsGood(l: Line, buflen: nat, c: Char)
    requires GoodLine(l, buflen)
    ensures GoodLine(Inserted(l, buflen, c), buflen)
  {
  }

  lemma RecasedIsGood(l: Line, buflen: nat, p: Char -> bool, f: Char -> Char)
    requires GoodLine(l, buflen) && (f == Lower || f == Upper)
    ensures GoodLine(Recased(l, p, f), buflen)
  {
    hide WordAhead, Span;
  }

  lemma CapitalizedIsGood(l: Line, buflen: nat, p: Char -> bool)
    requires GoodLine(l, buflen)
    ensures GoodLine(Capitalized(l, p), buflen)
  {
    hide WordAhead, Span;
  }

  lemma CompletedIsGood(l: Line, buflen: nat, cs: seq<CText>)
    requires GoodLine(l, buflen)
    ensures GoodLine(Completed(l, buflen, cs), buflen)
  {
    hide Longest;
  }

  lemma MoveKeepsGood(e: Editor, buflen: nat, k: nat)
    requires Good(e, buflen) && k <= |e.line.Text()|
    ensures Good(Other(e, Moved(e.line, k)), buflen)
  {
    hide GoodSlots;
    MovedIsGood(e.line, buflen, k);
    OtherIsGood(e, buflen, Moved(e.line, k));
  }

  lemma EditKeepsGood(e: Editor, buflen: nat, p: Char -> bool, cmd: Command)
    requires Good(e, buflen) && IsEdit(cmd)
    ensures Good(Do(e, buflen, p, cmd), buflen)
  {
    hide GoodRing, GoodLine, Recased, Capitalized, DeletedAhead, DeletedBehind, Transposed, Inserted;
    var l := e.line;
    match cmd
    case MetaC => CapitalizedIsGood(l, buflen, p); OtherIsGood(e, buflen, Capitalized(l, p));
    case MetaL => RecasedIsGood(l, buflen, p, Lower); OtherIsGood(e, buflen, Recased(l, p, Lower));
    case MetaU => RecasedIsGood(l, buflen, p, Upper); OtherIsGood(e, buflen, Recased(l, p, Upper));
    case CtrlT => TransposedIsGood(l, buflen); OtherIsGood(e, buflen, Transposed(l));
    case CtrlD =>
      DeletedIsGood(l, buflen, Min(1, |l.right|));
      OtherIsGood(e, buflen, DeletedAhead(l, Min(1, |l.right|)));
    case CtrlH =>
      DeletedIsGood(l, buflen, Min(1, |l.left|));
      OtherIsGood(e, buflen, DeletedBehind(l, Min(1, |l.left|)));
    case Insert(c) => InsertedIsGood(l, buflen, c); OtherIsGood(e, buflen, Inserted(l, buflen, c));
    case _ =>
  }

  lemma MovingKeepsGood(e: Editor, buflen: nat, p: Char -> bool, cmd: Command)
    requires Good(e, buflen) && IsMove(cmd)
    ensures Good(Do(e, buflen, p, cmd), buflen)
  {
    hide Good, Moved;
    var a, b := |e.line.left|, |e.line.Text()|;
    match cmd
    case CtrlA => MoveKeepsGood(e, buflen, 0);
    case CtrlB => MoveKeepsGood(e, buflen, if a > 0 then a - 1 else 0);
    case MetaB => MoveKeepsGood(e, buflen, a - WordBehind(e.line.left, p));
    case CtrlC => MoveKeepsGood(e, buflen, b);
    case CtrlE => MoveKeepsGood(e, buflen, b);
    case CtrlM => MoveKeepsGood(e, buflen, b);
    case CtrlF => MoveKeepsGood(e, buflen, Min(a + 1, b));
    case MetaF => MoveKeepsGood(e, buflen, a + WordAhead(e.line.right, p));
    case _ =>
  }

  lemma YankKeepsGood(e: Editor, buflen: nat, p: Char -> bool, cmd: Command)
    requires Good(e, buflen) && (cmd == CtrlY || cmd == MetaY)
    ensures Good(Do(e, buflen, p, cmd), buflen)
  {
    hide GoodLine, GoodRing, Yanked, Turned;
    if cmd == CtrlY && e.ring.recent != [] {
      YankedIsGood(e, buflen, 0);
    } else if cmd == MetaY && e.ring.last == ActionYank && e.ring.recent != [] {
      TurnedIsGood(e.ring);
      YankedIsGood(e.(ring := Turned(e.ring)), buflen, e.ring.lastYankSize);
    }
  }

  lemma TabKeepsGood(e: Editor, buflen: nat, cs: seq<CText>)
    requires Good(e, buflen)
    ensures Good(Other(e, Completed(e.line, buflen, cs)), buflen)
  {
    hide GoodRing, Completed;
    CompletedIsGood(e.line, buflen, cs);
    OtherIsGood(e, buflen, Completed(e.line, buflen, cs));
  }

  lemma DoKeepsGood(e: Editor, buflen: nat, p: Char -> bool, cmd: Command)
    requires Good(e, buflen)
    ensures Good(Do(e, buflen, p, cmd), buflen)
  {
    hide Good, Completed, KilledAhead, KilledBehind, KillAmount;
    if IsKill(cmd) {
      KillKeepsGood(e, buflen, KillAmount(e.line, p, cmd));
    } else if IsMove(cmd) {
      MovingKeepsGood(e, buflen, p, cmd);
    } else if cmd == CtrlY || cmd == MetaY {
      YankKeepsGood(e, buflen, p, cmd);
    } else if cmd.Tab? {
      TabKeepsGood(e, buflen, cmd.completions);
    } else {
      EditKeepsGood(e, buflen, p, cmd);
    }
  }

  lemma TurnedIsGood(r: Ring)
    requires GoodRing(r)
    ensures GoodRing(Turned(r)) && Turned(r).recent == r.recent
  {
  }
}
