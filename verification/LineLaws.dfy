/** What every key does to the line, told by the characters and the positions of the text. */
module LineLaws {
  import opened Numbers
  import opened Brackets
  import opened KillRings
  import opened LineEdits
  import opened LineSpans
  import opened Completions

  // ---- Words -------------------------------------------------------------------------

  /** From c, past what is no part of a word, then past the word, up to b. */
  ghost predicate WordEnds(t: Text, p: Char -> bool, c: nat, b: nat) {
    c <= b <= |t| && exists a :: c <= a <= b && WordIn(t, p, c, a, b)
  }

  /** The first word at or after c is that from a to b; without one, both are the end of the text. */
  predicate WordIn(t: Text, p: Char -> bool, c: nat, a: nat, b: nat)
    requires c <= a <= b <= |t|
  {
    && (forall i | c <= i < a :: !p(t[i])) && (forall i | a <= i < b :: p(t[i]))
    && (a < b || a == |t|) && (b == |t| || !p(t[b]))
  }

  /** From c back, past what is no part of a word, then past the word, down to a. */
  ghost predicate WordBegins(t: Text, p: Char -> bool, c: nat, a: nat) {
    a <= c <= |t| && exists b :: a <= b <= c && WordBack(t, p, c, a, b)
  }

  predicate WordBack(t: Text, p: Char -> bool, c: nat, a: nat, b: nat)
    requires a <= b <= c <= |t|
  {
    && (forall i | b <= i < c :: !p(t[i])) && (forall i | a <= i < b :: p(t[i]))
    && (a < b || a == 0) && (a == 0 || !p(t[a - 1]))
  }

  lemma RightWord(r: Text, p: Char -> bool)
    ensures var a, b := Span(r, p, false), WordAhead(r, p);
            a <= b <= |r| && WordIn(r, p, 0, a, b)
  {
    hide Span;
    var gap := Span(r, p, false);
    WordFrom(r, r[gap..], p, gap, Span(r[gap..], p, true));
  }

  /** A word at the start of the tail u is a word of the text. */
  lemma WordFrom(r: Text, u: Text, p: Char -> bool, gap: nat, n: nat)
    requires gap <= |r| && u == r[gap..] && n <= |u| && (forall i | 0 <= i < gap :: !p(r[i]))
    requires (forall i | 0 <= i < n :: p(u[i])) && (n < |u| ==> !p(u[n])) && (gap < |r| ==> p(r[gap]))
    ensures WordIn(r, p, 0, gap, gap + n)
  {
    forall i | gap <= i < gap + n ensures p(r[i]) { assert r[i] == u[i - gap]; }
    assert gap < |r| ==> u[0] == r[gap];
    assert n < |u| ==> u[n] == r[gap + n];
  }

  lemma Shifted(left: Text, r: Text, p: Char -> bool, a: nat, b: nat)
    requires a <= b <= |r| && WordIn(r, p, 0, a, b)
    ensures WordIn(left + r, p, |left|, |left| + a, |left| + b)
  {
    forall i | |left| <= i < |left + r| ensures (left + r)[i] == r[i - |left|] { }
  }

  lemma AheadEnds(l: Line, p: Char -> bool)
    ensures var t, c := l.Text(), |l.left|;
            && WordIn(t, p, c, c + Span(l.right, p, false), c + WordAhead(l.right, p))
            && WordEnds(t, p, c, c + WordAhead(l.right, p))
  {
    hide Span, WordAhead, WordIn;
    RightWord(l.right, p);
    Shifted(l.left, l.right, p, Span(l.right, p, false), WordAhead(l.right, p));
  }

  lemma BehindBegins(l: Line, p: Char -> bool)
    ensures WordBegins(l.Text(), p, |l.left|, |l.left| - WordBehind(l.left, p))
  {
    var t, c, gap := l.Text(), |l.left|, SpanBack(l.left, p, false);
    hide SpanBack;
    forall i | 0 <= i < c ensures t[i] == l.left[i] { }
    assert WordBack(t, p, c, c - WordBehind(l.left, p), c - gap);
  }

  predicate NotBlank(c: Char) { c != 0x20 }

  lemma BlankBegins(l: Line)
    ensures WordBegins(l.Text(), NotBlank, |l.left|, |l.left| - BlankBehind(l.left))
  {
    var t, c, gap := l.Text(), |l.left|, SpanBack(l.left, IsSpace, true);
    hide SpanBack;
    forall i | 0 <= i < c ensures t[i] == l.left[i] { }
    assert WordBack(t, NotBlank, c, c - BlankBehind(l.left), c - gap);
  }

  // ---- Moves -------------------------------------------------------------------------

  /** The text is the same, the cursor at c', and the kill ring as after any other action. */
  predicate MovesTo(e: Editor, e': Editor, c': int) {
    e'.line.Text() == e.line.Text() && |e'.line.left| == c' && e'.ring == e.ring.(last := ActionOther)
  }

  lemma MovedTo(e: Editor, k: nat)
    requires k <= |e.line.Text()|
    ensures MovesTo(e, Other(e, Moved(e.line, k)), k)
  {
  }

  /** ctrl-A, ctrl-B, ctrl-E and ctrl-F go to the start, back by one, to the end and on by one; ctrl-C and
      ctrl-M go to the end too. */
  lemma MoveLaw(e: Editor, buflen: nat, p: Char -> bool)
    requires Good(e, buflen)
    ensures var c, n := |e.line.left|, |e.line.Text()|;
            && MovesTo(e, Do(e, buflen, p, CtrlA), 0) && MovesTo(e, Do(e, buflen, p, CtrlE), n)
            && MovesTo(e, Do(e, buflen, p, CtrlB), if c == 0 then 0 else c - 1)
            && MovesTo(e, Do(e, buflen, p, CtrlF), if c == n then n else c + 1)
            && MovesTo(e, Do(e, buflen, p, CtrlC), n) && MovesTo(e, Do(e, buflen, p, CtrlM), n)
  {
    hide Good, Moved, Other, MovesTo;
    var c, n := |e.line.left|, |e.line.Text()|;
    assert n == c + |e.line.right|;
    MovedTo(e, 0);
    MovedTo(e, n);
    MovedTo(e, if c == 0 then 0 else c - 1);
    MovedTo(e, if c == n then n else c + 1);
  }

  /** meta-F goes to the end of the next word, meta-B to the start of the one before. */
  lemma WordMoveLaw(e: Editor, buflen: nat, p: Char -> bool)
    requires Good(e, buflen)
    ensures var f := Do(e, buflen, p, MetaF);
            MovesTo(e, f, |f.line.left|) && WordEnds(e.line.Text(), p, |e.line.left|, |f.line.left|)
    ensures var b := Do(e, buflen, p, MetaB);
            MovesTo(e, b, |b.line.left|) && WordBegins(e.line.Text(), p, |e.line.left|, |b.line.left|)
  {
    AheadEnds(e.line, p);
    BehindBegins(e.line, p);
    hide Good, Moved, Other, WordAhead, WordBehind, WordEnds, WordBegins;
    assert |e.line.Text()| == |e.line.left| + |e.line.right|;
    MovedTo(e, |e.line.left| + WordAhead(e.line.right, p));
    MovedTo(e, |e.line.left| - WordBehind(e.line.left, p));
  }

  // ---- Case --------------------------------------------------------------------------

  /** Between the two places the letters a to z of the words are capitals, and nothing else differs. */
  predicate Uppercased(t: Text, t': Text, p: Char -> bool, c: nat, c': nat) {
    && |t'| == |t|
    && forall i | 0 <= i < |t| ::
         t'[i] == if c <= i < c' && p(t[i]) && 0x61 <= t[i] <= 0x7A then t[i] - 0x20 else t[i]
  }

  /** Between the two places the letters A to Z of the words are small, and nothing else differs. */
  predicate Lowercased(t: Text, t': Text, p: Char -> bool, c: nat, c': nat) {
    && |t'| == |t|
    && forall i | 0 <= i < |t| ::
         t'[i] == if c <= i < c' && p(t[i]) && 0x41 <= t[i] <= 0x5A then t[i] + 0x20 else t[i]
  }

  lemma RecasedAt(l: Line, p: Char -> bool, f: Char -> Char)
    ensures var t, t', c, n := l.Text(), Recased(l, p, f).Text(), |l.left|, WordAhead(l.right, p);
            && |t'| == |t| && |Recased(l, p, f).left| == c + n
            && forall i | 0 <= i < |t| ::
                 t'[i] == if c + Span(l.right, p, false) <= i < c + n then f(t[i]) else t[i]
  {
    hide Span, WordAhead;
    var gap, n := Span(l.right, p, false), WordAhead(l.right, p);
    assert l.Text() == l.left + l.right[..gap] + l.right[gap..n] + l.right[n..];
  }

  /** meta-U and meta-L change the case of the next word, and go to its end. */
  lemma CaseLaw(e: Editor, buflen: nat, p: Char -> bool)
    requires Good(e, buflen)
    ensures var t, c, r := e.line.Text(), |e.line.left|, Do(e, buflen, p, MetaU);
            && WordEnds(t, p, c, |r.line.left|) && r.ring == e.ring.(last := ActionOther)
            && Uppercased(t, r.line.Text(), p, c, |r.line.left|)
    ensures var t, c, r := e.line.Text(), |e.line.left|, Do(e, buflen, p, MetaL);
            && WordEnds(t, p, c, |r.line.left|) && r.ring == e.ring.(last := ActionOther)
            && Lowercased(t, r.line.Text(), p, c, |r.line.left|)
  {
    hide Good, Recased, Span, WordAhead, WordEnds;
    AheadEnds(e.line, p);
    RecasedAt(e.line, p, Upper);
    RecasedAt(e.line, p, Lower);
  }

  /** The first letter of the next word is made a capital, the others small. */
  predicate Titled(t: Text, t': Text, p: Char -> bool, c: nat, c': nat) {
    && |t'| == |t|
    && forall i | 0 <= i < |t| ::
         t'[i] == if !(c <= i < c' && p(t[i])) then t[i]
                  else if i == c || !p(t[i - 1]) then if 0x61 <= t[i] <= 0x7A then t[i] - 0x20 else t[i]
                  else if 0x41 <= t[i] <= 0x5A then t[i] + 0x20 else t[i]
  }

  lemma CapitalizedAt(l: Line, p: Char -> bool)
    ensures var t, r, c := l.Text(), Capitalized(l, p), |l.left|;
            var a, b := c + Span(l.right, p, false), c + WordAhead(l.right, p);
            && |r.Text()| == |t| && |r.left| == b
            && forall i | 0 <= i < |t| ::
                 r.Text()[i] == if i == a && a < b then Upper(t[i]) else if a < i < b then Lower(t[i]) else t[i]
  {
    hide Span, WordAhead;
    var gap, n := Span(l.right, p, false), WordAhead(l.right, p);
    assert l.Text() == l.left + l.right[..gap] + l.right[gap..n] + l.right[n..];
  }

  /** meta-C changes the case of the next word, and goes to its end. */
  lemma CapitalLaw(e: Editor, buflen: nat, p: Char -> bool)
    requires Good(e, buflen)
    ensures var t, c, r := e.line.Text(), |e.line.left|, Do(e, buflen, p, MetaC);
            && WordEnds(t, p, c, |r.line.left|) && r.ring == e.ring.(last := ActionOther)
            && Titled(t, r.line.Text(), p, c, |r.line.left|)
  {
    hide Good, Capitalized, Span, WordAhead, WordEnds;
    AheadEnds(e.line, p);
    CapitalizedAt(e.line, p);
  }

  // ---- Single characters -------------------------------------------------------------

  /** The line has the text t with the cursor at c, and the action is noted as any other. */
  predicate Becomes(e: Editor, e': Editor, t: Text, c: int) {
    e'.line.Text() == t && |e'.line.left| == c && e'.ring == e.ring.(last := ActionOther)
  }

  /** ctrl-D deletes the character at the cursor, ctrl-H the one before it, if there is one. */
  lemma DeleteLaw(e: Editor, buflen: nat, p: Char -> bool)
    requires Good(e, buflen)
    ensures var t, c := e.line.Text(), |e.line.left|;
            && Becomes(e, Do(e, buflen, p, CtrlD), if c < |t| then t[..c] + t[c + 1..] else t, c)
            && (c > 0 ==> Becomes(e, Do(e, buflen, p, CtrlH), t[..c - 1] + t[c..], c - 1))
            && (c == 0 ==> Becomes(e, Do(e, buflen, p, CtrlH), t, c))
  {
    hide Good;
  }

  /** ctrl-T exchanges the characters on both sides of the cursor and goes on by one; at the end of the
      line it exchanges the last two. */
  lemma TransposeLaw(e: Editor, buflen: nat, p: Char -> bool)
    requires Good(e, buflen)
    ensures var t, c := e.line.Text(), |e.line.left|;
            if c == 0 || |t| < 2 then Becomes(e, Do(e, buflen, p, CtrlT), t, c)
            else
              var i := if c == |t| then c - 2 else c - 1;
              Becomes(e, Do(e, buflen, p, CtrlT), t[i := t[i + 1]][i + 1 := t[i]], if c == |t| then c else c + 1)
  {
    hide Good;
  }

  /** No meta or control bit, and no control character of the two ranges. */
  predicate Typable(c: Char) {
    c % 0x8000_0000 < 0x2000_0000 && 0x20 <= c && !(0x7F <= c <= 0x9F)
  }

  /** Any other key puts its character in front of the cursor, if the buffer has room for it. */
  lemma InsertLaw(e: Editor, buflen: nat, p: Char -> bool, x: Char)
    requires Good(e, buflen)
    ensures var t, c := e.line.Text(), |e.line.left|;
            if Typable(x) && |t| < buflen then Becomes(e, Do(e, buflen, p, Insert(x)), t[..c] + [x] + t[c..], c + 1)
            else Becomes(e, Do(e, buflen, p, Insert(x)), t, c)
  {
    hide Good;
    TypableIs(x);
    hide Typable, Insertable;
  }

  lemma TypableIs(c: Char)
    ensures Typable(c) <==> Insertable(c)
  {
  }

  // ---- Kills and yanks ---------------------------------------------------------------

  /** A killed text joins the newest one after another kill; otherwise it is put in front, and of the
      texts only the newest ten stay. */
  predicate RingTakes(r: Ring, r': Ring, text: Text, forward: bool) {
    && r'.last == ActionKill && r'.lastYankSize == r.lastYankSize
    && if text == [] then r'.recent == r.recent && r'.index == r.index
       else if r.last == ActionKill && r.recent != [] then
         && |r'.recent| == |r.recent| && r'.recent[1..] == r.recent[1..] && r'.index == r.index
         && r'.recent[0] == if forward then r.recent[0] + text else text + r.recent[0]
       else
         && r'.index == 0 && r'.recent == ([text] + r.recent)[..Min(10, |r.recent| + 1)]
  }

  lemma TakenAs(r: Ring, text: Text, forward: bool)
    requires GoodRing(r)
    ensures RingTakes(r, KillText(r, text, forward).(last := ActionKill), text, forward)
  {
    hide GoodTexts;
    assert |r.recent| < 10 ==> ([text] + r.recent)[..|r.recent| + 1] == [text] + r.recent;
    assert |r.recent| == 10 ==> ([text] + r.recent)[..10] == [text] + r.recent[..9];
  }

  /** What is between a and b goes from the line to the ring, and the cursor to a. */
  predicate Kills(e: Editor, e': Editor, a: int, b: int, forward: bool) {
    var t := e.line.Text();
    && 0 <= a <= b <= |t| && e'.line.Text() == t[..a] + t[b..] && |e'.line.left| == a
    && RingTakes(e.ring, e'.ring, t[a..b], forward)
  }

  ghost predicate KillsWord(e: Editor, e': Editor, p: Char -> bool) {
    exists b: nat :: WordEnds(e.line.Text(), p, |e.line.left|, b) && Kills(e, e', |e.line.left|, b, true)
  }

  ghost predicate KillsBack(e: Editor, e': Editor, p: Char -> bool) {
    exists a: nat :: WordBegins(e.line.Text(), p, |e.line.left|, a) && Kills(e, e', a, |e.line.left|, false)
  }

  lemma KilledAheadLaw(e: Editor, n: nat)
    requires GoodRing(e.ring) && n <= |e.line.right|
    ensures Kills(e, KilledAhead(e, n), |e.line.left|, |e.line.left| + n, true)
  {
    hide GoodRing, KillText, RingTakes;
    var t, c := e.line.Text(), |e.line.left|;
    TakenAs(e.ring, e.line.right[..n], true);
    assert t[c..c + n] == e.line.right[..n];
    assert t[..c] + t[c + n..] == e.line.left + e.line.right[n..];
  }

  lemma KilledBehindLaw(e: Editor, n: nat)
    requires GoodRing(e.ring) && n <= |e.line.left|
    ensures Kills(e, KilledBehind(e, n), |e.line.left| - n, |e.line.left|, false)
  {
    hide GoodRing, KillText, RingTakes;
    var t, a := e.line.Text(), |e.line.left| - n;
    TakenAs(e.ring, e.line.left[a..], false);
    assert t[a..|e.line.left|] == e.line.left[a..];
    assert t[..a] + t[|e.line.left|..] == e.line.left[..a] + e.line.right;
  }

  /** ctrl-K kills to the end and ctrl-U to the start of the line, meta-D to the end of the next word, meta-H
      to the start of the one before, and ctrl-W to the start of what is not blank. */
  lemma KillLaw(e: Editor, buflen: nat, p: Char -> bool)
    requires Good(e, buflen)
    ensures var t, c := e.line.Text(), |e.line.left|;
            && Kills(e, Do(e, buflen, p, CtrlK), c, |t|, true) && Kills(e, Do(e, buflen, p, CtrlU), 0, c, false)
            && KillsWord(e, Do(e, buflen, p, MetaD), p) && KillsBack(e, Do(e, buflen, p, MetaH), p)
            && KillsBack(e, Do(e, buflen, p, CtrlW), NotBlank)
  {
    hide GoodRing, GoodLine, Kills, KilledAhead, KilledBehind, WordEnds, WordBegins;
    hide WordAhead, WordBehind, BlankBehind;
    var l := e.line;
    assert |l.Text()| == |l.left| + |l.right|;
    AheadEnds(l, p);
    BehindBegins(l, p);
    BlankBegins(l);
    KilledAheadLaw(e, |l.right|);
    KilledAheadLaw(e, WordAhead(l.right, p));
    KilledBehindLaw(e, |l.left|);
    KilledBehindLaw(e, WordBehind(l.left, p));
    KilledBehindLaw(e, BlankBehind(l.left));
  }

  /** As much of the text as the buffer has room for is put in at the cursor, in place of the last k
      characters before it. */
  predicate Yanks(e: Editor, e': Editor, buflen: nat, text: Text, k: int) {
    var t, c := e.line.Text(), |e.line.left|;
    var n := Min(|text|, k + buflen - |t|);
    && 0 <= k <= c && 0 <= n && e'.line.Text() == t[..c - k] + text[..n] + t[c..] && |e'.line.left| == c - k + n
    && e'.ring.recent == e.ring.recent && e'.ring.last == ActionYank && e'.ring.lastYankSize == n
  }

  lemma YankedLaw(e: Editor, buflen: nat, drop: nat)
    requires GoodRing(e.ring) && e.ring.recent != [] && drop <= |e.line.left| && |e.line.Text()| <= buflen
    ensures e.ring.index < |e.ring.recent|
    ensures Yanks(e, Yanked(e, buflen, drop), buflen, e.ring.recent[e.ring.index], drop)
    ensures Yanked(e, buflen, drop).ring.index == e.ring.index
  {
    hide GoodTexts;
  }

  /** ctrl-Y yanks the current text of the ring, if there is one. meta-Y does nothing unless it follows a
      yank; then it puts the next text, or the first one after the last, in place of what was yanked. */
  lemma YankLaw(e: Editor, buflen: nat, p: Char -> bool)
    requires Good(e, buflen)
    ensures var r := Do(e, buflen, p, CtrlY);
            if e.ring.recent == [] then r == e
            else e.ring.index < |e.ring.recent| && r.ring.index == e.ring.index
                 && Yanks(e, r, buflen, e.ring.recent[e.ring.index], 0)
    ensures var r := Do(e, buflen, p, MetaY);
            if e.ring.recent == [] || e.ring.last != ActionYank then r == e
            else
              var i := (e.ring.index + 1) % |e.ring.recent|;
              r.ring.index == i && Yanks(e, r, buflen, e.ring.recent[i], e.ring.lastYankSize)
  {
    if e.ring.recent != [] {
      YankedLaw(e, buflen, 0);
      TurnedIsGood(e.ring);
      NextIs(e.ring.index, |e.ring.recent|);
      if e.ring.last == ActionYank { YankedLaw(e.(ring := Turned(e.ring)), buflen, e.ring.lastYankSize); }
    }
    hide GoodRing, GoodLine, Yanked;
  }

  lemma NextIs(i: nat, n: nat)
    requires i < n
    ensures NextIndex(i, n) == (i + 1) % n
  {
  }

  // ---- Completion --------------------------------------------------------------------

  /** The break characters of the source, of which the low byte of a character is compared. */
  const BREAKS := " =+-/\\*?\"'`&<>;|@{([])}"

  predicate Breaks(c: Char) {
    c % 0x100 == 0 || exists i | 0 <= i < |BREAKS| :: BREAKS[i] as int == c % 0x100
  }

  /** The item before the cursor begins at s: behind the last break, or at the start of the line. */
  predicate ItemAt(t: Text, c: nat, s: nat) {
    s <= c <= |t| && (forall i | s <= i < c :: !Breaks(t[i])) && (s == 0 || Breaks(t[s - 1]))
  }

  /** m is how far all the completions agree. */
  ghost predicate Agree(cs: seq<CText>, m: nat)
    requires cs != []
  {
    && m <= |cs[0]| && (forall j | 0 <= j < |cs| :: m <= |cs[j]| && cs[j][..m] == cs[0][..m])
    && exists j :: 0 <= j < |cs| && (m == |cs[j]| || (m < |cs[0]| && cs[j][m] != cs[0][m]))
  }

  lemma BreaksAre(c: Char)
    ensures Breaks(c) <==> IsBreak(c)
  {
    var b := BREAKS;
    assert b[0] as int == 0x20 && b[1] as int == 0x3D && b[2] as int == 0x2B && b[3] as int == 0x2D;
    assert b[4] as int == 0x2F && b[5] as int == 0x5C && b[6] as int == 0x2A && b[7] as int == 0x3F;
    assert b[8] as int == 0x22 && b[9] as int == 0x27 && b[10] as int == 0x60 && b[11] as int == 0x26;
    assert b[12] as int == 0x3C && b[13] as int == 0x3E && b[14] as int == 0x3B && b[15] as int == 0x7C;
    assert b[16] as int == 0x40 && b[17] as int == 0x7B && b[18] as int == 0x28 && b[19] as int == 0x5B;
    assert b[20] as int == 0x5D && b[21] as int == 0x29 && b[22] as int == 0x7D && |b| == 23;
  }

  lemma ItemBegins(l: Line)
    ensures ItemLength(l.left) <= |l.left| && ItemAt(l.Text(), |l.left|, |l.left| - ItemLength(l.left))
  {
    var t, c, s := l.Text(), |l.left|, |l.left| - ItemLength(l.left);
    hide SpanBack, Breaks, IsBreak;
    forall i | 0 <= i < c ensures t[i] == l.left[i] && (Breaks(t[i]) <==> IsBreak(t[i])) { BreaksAre(t[i]); }
  }

  lemma AgreeIs(cs: seq<CText>)
    requires cs != []
    ensures Agree(cs, Longest(cs))
  {
    var m := Longest(cs);
    hide Longest;
    var j :| 0 <= j < |cs| && !(m + 1 <= |cs[0]| && m + 1 <= |cs[j]| && cs[j][..m + 1] == cs[0][..m + 1]);
    if m < |cs[0]| && m < |cs[j]| {
      assert cs[j][..m + 1] == cs[j][..m] + [cs[j][m]] && cs[0][..m + 1] == cs[0][..m] + [cs[0][m]];
    }
    if m == |cs[0]| { assert m == |cs[0]|; }
  }

  /** The tab key does nothing at the start of the line. Otherwise, if the completions agree further than
      the item is long, as much of what they agree in as the buffer has room for takes its place. */
  lemma TabLaw(e: Editor, buflen: nat, p: Char -> bool, cs: seq<CText>)
    requires Good(e, buflen)
    ensures var r := Do(e, buflen, p, Tab(cs));
            if e.line.left == [] then r == e else CompletesTo(e, r, buflen, cs)
  {
    hide GoodRing, NoZero, Longest, ItemLength, ItemAt, Agree, Completed;
    ItemBegins(e.line);
    var t, c, s := e.line.Text(), |e.line.left|, |e.line.left| - ItemLength(e.line.left);
    if cs != [] {
      AgreeIs(cs);
      CompletedParts(e.line, buflen, cs, s);
      var m := Longest(cs);
      assert ItemAt(t, c, s) && Agree(cs, m);
    } else {
      NoneProposed(e.line, buflen);
    }
  }

  lemma NoneProposed(l: Line, buflen: nat)
    requires |l.Text()| <= buflen
    ensures Completed(l, buflen, []) == l
  {
  }

  lemma CompletedParts(l: Line, buflen: nat, cs: seq<CText>, s: nat)
    requires |l.Text()| <= buflen && cs != [] && s == |l.left| - ItemLength(l.left)
    ensures var t, c, r, m := l.Text(), |l.left|, Completed(l, buflen, cs), Longest(cs);
            if m <= c - s then r == l
            else
              var n := Min(m, c - s + buflen - |t|);
              0 <= n <= |cs[0]| && r.Text() == t[..s] + cs[0][..n] + t[c..] && |r.left| == s + n
  {
    hide ItemLength;
    var t, c, m := l.Text(), |l.left|, Longest(cs);
    hide Longest;
    assert t[..s] == l.left[..s] && t[c..] == l.right;
  }

  ghost predicate CompletesTo(e: Editor, r: Editor, buflen: nat, cs: seq<CText>) {
    var t, c := e.line.Text(), |e.line.left|;
    if cs == [] then Becomes(e, r, t, c)
    else
      exists s: nat, m: nat :: ItemAt(t, c, s) && Agree(cs, m) &&
        if m <= c - s then Becomes(e, r, t, c)
        else
          var n := Min(m, c - s + buflen - |t|);
          0 <= n <= |cs[0]| && Becomes(e, r, t[..s] + cs[0][..n] + t[c..], s + n)
  }
}
