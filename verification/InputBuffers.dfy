/** The input buffer and its editing commands, in place. */
module InputBuffers {
  import opened Numbers
  import opened Brackets
  import opened KillRings
  import opened LineEdits
  import opened LineSpans
  import opened Completions

  /** The buffer with the text written over it from `at` on. */
  ghost function Over(w: Text, at: nat, t: Text): (r: Text)
    requires at + |t| <= |w|
    ensures |r| == |w|
  {
    w[..at] + t + w[at + |t|..]
  }

  /** A line in the buffer, with its terminator and what lies behind. */
  ghost function Laid(left: Text, right: Text, rest: Text): Text { left + right + [0] + rest }

  /** memmove: n characters from src to dst, which may overlap. */
  method MemMove(a: array<Char>, dst: nat, src: nat, n: nat)
    requires dst + n <= a.Length && src + n <= a.Length
    modifies a
    ensures a[..] == Over(old(a[..]), dst, old(a[..])[src..src + n])
  {
    forall i | 0 <= i < n { a[dst + i] := a[src + i]; }
  }

  // ---- What the moves do to the whole buffer -----------------------------------------

  /** Moving the text from `to` on, with the terminator, down to `from`. */
  lemma CutWhole(w: Text, len: nat, from: nat, to: nat)
    requires from <= to <= len < |w| && w[len] == 0
    ensures Over(w, from, w[to..to + (len - to + 1)])
         == Laid(w[..from], w[to..len], w[from + (len - to + 1)..])
  {
    assert w[to..to + (len - to + 1)] == w[to..len] + [0];
  }

  lemma OverMore(w: Text, t: Text, c: Char)
    requires |t| < |w|
    ensures Over(w, 0, t)[|t| := c] == Over(w, 0, t + [c])
  {
  }

  lemma OverNothing(w: Text, t: Text)
    requires t == []
    ensures Over(w, 0, t) == w
  {
  }

  lemma TextStep(t: Text, k: nat)
    requires k < |t|
    ensures t[..k + 1] == t[..k] + [t[k]]
    ensures NoZero(t[..k]) && t[k] != 0 ==> NoZero(t[..k + 1])
  {
  }

  lemma {:induction false} FirstZero(t: Text, k: nat)
    requires k <= |t| && NoZero(t[..k]) && (k < |t| ==> t[k] == 0)
    ensures UpToZero(t) == t[..k]
  {
    if k > 0 {
      assert t[..k][0] == t[0] && t[..k] == [t[0]] + t[1..][..k - 1];
      FirstZero(t[1..], k - 1);
    }
  }

  /** copyString32: up to the first zero, then the terminator. */
  method CopyString32(dst: array<Char>, src: array<Char>, n: nat)
    requires n <= src.Length && n < dst.Length && dst != src
    modifies dst
    ensures |UpToZero(src[..n])| <= n && dst[..] == Over(old(dst[..]), 0, UpToZero(src[..n]) + [0])
  {
    hide Over, UpToZero;
    ghost var w, t := dst[..], src[..n];
    OverNothing(w, t[..0]);
    var k := 0;
    while k < n && src[k] != 0
      invariant 0 <= k <= n && src[..n] == t && dst[..] == Over(w, 0, t[..k])
      invariant NoZero(t[..k])
    {
      TextStep(t, k);
      assert src[k] == t[k];
      OverMore(w, t[..k], t[k]);
      dst[k] := src[k];
      k := k + 1;
    }
    assert k < n ==> src[k] == t[k];
    FirstZero(t, k);
    OverMore(w, t[..k], 0);
    dst[k] := 0;
  }

  /** The display text: what is before the item, the completion, and what is after the cursor. */
  lemma SpliceWhole(w: Text, start: nat, pos: nat, len: nat, text: Text)
    requires start <= pos <= len < |w| && start + |text| + len - pos < |w| && w[len] == 0
    ensures var n := start + |text| + (len - pos);
            Over(w, 0, (w[..start] + text + w[pos..len + 1])[..n] + [0])
            == Laid(w[..start] + text, w[pos..len], w[n + 1..])
  {
    assert w[pos..len + 1] == w[pos..len] + [0];
    assert (w[..start] + text + w[pos..len + 1])[..start + |text| + (len - pos)] == w[..start] + text + w[pos..len];
  }

  lemma CutLine(w: Text, pos: nat, len: nat, from: nat, to: nat)
    requires from <= to <= len <= |w| && pos <= len && (from == pos || to == pos)
    ensures from == pos ==> Line(w[..from], w[to..len]) == DeletedAhead(Line(w[..pos], w[pos..len]), to - from)
    ensures to == pos ==> Line(w[..from], w[to..len]) == DeletedBehind(Line(w[..pos], w[pos..len]), to - from)
  {
    if from == pos { assert w[pos..len][to - from..] == w[to..len]; }
    if to == pos { assert w[..pos][..pos - (to - from)] == w[..from]; }
  }

  /** The buffer when the case of everything from `start` to `pos` has been changed. */
  ghost function RecasedTo(w: Text, start: nat, pos: nat, f: Char -> Char): (r: Text)
    requires start <= pos <= |w|
    ensures |r| == |w| && r[pos..] == w[pos..]
  {
    w[..start] + Each(w[start..pos], f) + w[pos..]
  }

  lemma RecaseNone(w: Text, start: nat, f: Char -> Char)
    requires start <= |w|
    ensures RecasedTo(w, start, start, f) == w
  {
    assert w[start..start] == [];
  }

  lemma RecaseStep(w: Text, start: nat, pos: nat, f: Char -> Char)
    requires start <= pos < |w|
    ensures RecasedTo(w, start, pos, f)[pos] == w[pos]
    ensures RecasedTo(w, start, pos, f)[pos := f(w[pos])] == RecasedTo(w, start, pos + 1, f)
  {
    assert Each(w[start..pos + 1], f) == Each(w[start..pos], f) + [f(w[pos])];
    assert w[pos..] == [w[pos]] + w[pos + 1..];
  }

  lemma RecasedLine(w: Text, start: nat, pos: nat, len: nat, f: Char -> Char)
    requires start <= pos <= len <= |w|
    ensures RecasedTo(w, start, pos, f)[..pos] == w[..start] + Each(w[start..len][..pos - start], f)
    ensures RecasedTo(w, start, pos, f)[pos..len] == w[start..len][pos - start..]
  {
    assert w[start..len][..pos - start] == w[start..pos];
    assert w[start..len][pos - start..] == w[pos..len];
    assert RecasedTo(w, start, pos, f)[pos..len] == w[pos..len] by {
      assert RecasedTo(w, start, pos, f)[pos..][..len - pos] == w[pos..][..len - pos];
    }
  }

  lemma SpanStep(t: Text, i: nat, len: nat, p: Char -> bool, want: bool)
    requires i <= len <= |t|
    ensures Span(t[i..len], p, want) == if i < len && p(t[i]) == want then 1 + Span(t[i + 1..len], p, want) else 0
  {
    if i < len { assert t[i..len][1..] == t[i + 1..len]; }
  }

  /** Making room first, then copying the text in: the order for a text no shorter than the one
      it replaces. */
  lemma GrowWhole(w: Text, at: nat, pos: nat, len: nat, text: Text)
    requires at <= pos <= len < |w| && pos - at <= |text| && len + |text| - (pos - at) < |w| && w[len] == 0
    ensures Over(Over(w, at + |text|, w[pos..pos + (len - pos + 1)]), at, text)
         == Laid(w[..at] + text, w[pos..len], w[at + |text| + (len - pos + 1)..])
  {
    var w1 := Over(w, at + |text|, w[pos..pos + (len - pos + 1)]);
    assert w[pos..pos + (len - pos + 1)] == w[pos..len] + [0];
    assert w1[..at] == w[..at];
    assert w1[at + |text|..] == w[pos..len] + [0] + w[at + |text| + (len - pos + 1)..];
  }

  /** Copying the text in first: the order for a shorter text. */
  lemma ShrinkWhole(w: Text, at: nat, pos: nat, len: nat, text: Text)
    requires at <= pos <= len < |w| && |text| <= pos - at && w[len] == 0
    ensures Over(Over(w, at, text), at + |text|, Over(w, at, text)[pos..pos + (len - pos + 1)])
         == Laid(w[..at] + text, w[pos..len], w[at + |text| + (len - pos + 1)..])
  {
    hide Over, Laid;
    var head, a, n := w[..at] + text, at + |text|, len - pos + 1;
    var w1 := Over(w, at, text);
    OverIs(w, at, text);
    Beyond(head, w, a, pos, pos + n);
    BeyondAll(head, w, a, a + n);
    WithTerminator(w, pos, len);
    OverIs(w1, a, w1[pos..pos + n]);
    LaidIs(head, w[pos..len], w[a + n..]);
  }

  lemma WithTerminator(w: Text, pos: nat, len: nat)
    requires pos <= len < |w| && w[len] == 0
    ensures w[pos..pos + (len - pos + 1)] == w[pos..len] + [0]
  {
  }

  lemma BeyondAll(head: Text, w: Text, a: nat, i: nat)
    requires |head| == a <= i <= |w|
    ensures (head + w[a..])[..a] == head && (head + w[a..])[i..] == w[i..]
  {
  }

  lemma OverIs(w: Text, at: nat, t: Text)
    requires at + |t| <= |w|
    ensures Over(w, at, t) == (w[..at] + t) + w[at + |t|..]
  {
  }

  lemma LaidIs(left: Text, right: Text, rest: Text)
    ensures left + (right + [0]) + rest == Laid(left, right, rest)
  {
  }

  /** What lies behind the part that was overwritten. */
  lemma Beyond(head: Text, w: Text, a: nat, i: nat, j: nat)
    requires |head| == a <= i <= j <= |w|
    ensures (head + w[a..])[i..j] == w[i..j]
  {
  }

  lemma SwapAtEnd(w: Text, len: nat)
    requires 1 < len < |w| && w[len] == 0
    ensures w[len - 2 := w[len - 1]][len - 1 := w[len - 2]]
         == Laid(Transposed(Line(w[..len], [])).left, [], w[len + 1..])
  {
    assert w[..len][..len - 2] == w[..len - 2];
  }

  lemma SwapInside(w: Text, pos: nat, len: nat)
    requires 0 < pos < len < |w| && w[len] == 0
    ensures w[pos - 1 := w[pos]][pos := w[pos - 1]]
         == Laid(Transposed(Line(w[..pos], w[pos..len])).left, w[pos + 1..len], w[len + 1..])
    ensures Transposed(Line(w[..pos], w[pos..len])).right == w[pos + 1..len]
  {
    assert w[..pos][..pos - 1] == w[..pos - 1];
    assert w[pos..len][1..] == w[pos + 1..len];
  }

  lemma TransposedLength(l: Line)
    requires l.left != [] && |l.Text()| > 1
    ensures |Transposed(l).left| == (if l.right == [] then |l.left| else |l.left| + 1)
    ensures l.right == [] ==> Transposed(l).right == []
  {
  }

  lemma InsertWhole(w: Text, pos: nat, len: nat, c: Char)
    requires pos <= len && len + 1 < |w|
    ensures Over(w, pos + 1, w[pos..pos + (len - pos)])[pos := c][len + 1 := 0]
         == Laid(w[..pos] + [c], w[pos..len], w[len + 2..])
  {
  }

  lemma InsertLast(w: Text, pos: nat, c: Char)
    requires pos + 1 < |w|
    ensures w[pos := c][pos + 1 := 0] == Laid(w[..pos] + [c], w[pos..pos], w[pos + 2..])
  {
  }

  class InputBuffer {
    const buf32: array<Char>
    const buflen: nat
    var len: nat
    var pos: nat
    const ring: KillRing
    const alnum: Char -> bool  // isCharacterAlphanumeric

    ghost predicate Shape()
      reads this, buf32
    {
      && buf32.Length == buflen + 1 && pos <= len <= buflen && buf32[len] == 0
      && (buf32 as object) != (ring.indexToSlot as object)
    }

    ghost function Line(): Line
      requires Shape()
      reads this, buf32
    {
      LineEdits.Line(buf32[..pos], buf32[pos..len])
    }

    ghost predicate Valid()
      reads this, buf32, ring, ring.indexToSlot
    {
      Shape() && ring.Valid() && Good(View(), buflen)
    }

    ghost function View(): Editor
      requires Shape() && ring.Shape()
      reads this, buf32, ring, ring.indexToSlot
    {
      Editor(Line(), ring.View())
    }

    constructor (buffer: array<Char>, bufferLen: nat, ring: KillRing, alnum: Char -> bool)
      requires bufferLen > 0 && buffer.Length == bufferLen && ring.Valid()
      requires (buffer as object) != (ring.indexToSlot as object)
      modifies buffer, ring`lastAction
      ensures Valid() && buf32 == buffer && buflen == bufferLen - 1 && this.ring == ring && this.alnum == alnum
      ensures View() == Editor(LineEdits.Line([], []), old(ring.View()).(last := ActionOther))
    {
      buf32, buflen, len, pos := buffer, bufferLen - 1, 0, 0;
      this.ring, this.alnum := ring, alnum;
      new;
      buf32[0] := 0;
      ring.Note(ActionOther);
    }

    // ---- Scans over words ------------------------------------------------------------

    method ScanBack(from: nat, p: Char -> bool, want: bool) returns (to: nat)
      requires from <= buf32.Length
      ensures to == from - SpanBack(buf32[..from], p, want) && to <= from
    {
      to := from;
      while to > 0 && p(buf32[to - 1]) == want
        invariant to <= from && to - SpanBack(buf32[..to], p, want) == from - SpanBack(buf32[..from], p, want)
      {
        assert buf32[..to][..to - 1] == buf32[..to - 1];
        to := to - 1;
      }
    }

    method ScanAhead(from: nat, want: bool) returns (to: nat)
      requires from <= len < buf32.Length
      ensures to == from + Span(buf32[from..len], alnum, want) && from <= to <= len
    {
      to := from;
      while to < len && alnum(buf32[to]) == want
        invariant from <= to <= len
        invariant to + Span(buf32[to..len], alnum, want) == from + Span(buf32[from..len], alnum, want)
      {
        assert buf32[to..len][1..] == buf32[to + 1..len];
        to := to + 1;
      }
    }

    method FindWordAhead() returns (to: nat)
      requires Shape()
      ensures to == pos + WordAhead(buf32[pos..len], alnum) && to <= len
    {
      var gap := ScanAhead(pos, false);
      assert buf32[pos..len][gap - pos..] == buf32[gap..len];
      to := ScanAhead(gap, true);
    }

    method FindWordBehind() returns (to: nat)
      requires Shape()
      ensures to == pos - WordBehind(buf32[..pos], alnum) && to <= pos
    {
      var gap := ScanBack(pos, alnum, false);
      assert buf32[..pos][..gap] == buf32[..gap];
      to := ScanBack(gap, alnum, true);
    }

    method FindBlankBehind() returns (to: nat)
      requires Shape()
      ensures to == pos - BlankBehind(buf32[..pos]) && to <= pos
    {
      var gap := ScanBack(pos, IsSpace, true);
      assert buf32[..pos][..gap] == buf32[..gap];
      to := ScanBack(gap, IsSpace, false);
    }

    // ---- Edits of the buffer ---------------------------------------------------------

    /** The line, once the buffer holds the two texts and the terminator. */
    lemma Holds(left: Text, right: Text, rest: Text)
      requires buf32.Length == buflen + 1 && pos == |left| && len == pos + |right|
      requires (buf32 as object) != (ring.indexToSlot as object)
      requires buf32[..] == Laid(left, right, rest)
      ensures Shape() && Line() == LineEdits.Line(left, right)
    {
      assert buf32[..pos] == buf32[..][..pos] && buf32[pos..len] == buf32[..][pos..len];
      assert buf32[len] == buf32[..][len];
    }

    method MoveTo(k: nat)
      requires Shape() && k <= len
      modifies this`pos
      ensures Shape() && Line() == Moved(old(Line()), k)
    {
      pos := k;
      assert Line().Text() == old(Line()).Text();
    }

    /** Takes out what is between `from` and `to`, on the one side of the cursor or the other;
        the terminator moves too. */
    method CutOut(from: nat, to: nat)
      requires Shape() && from <= to <= len && (from == pos || to == pos)
      modifies this`len, this`pos, buf32
      ensures Shape()
      ensures from == old(pos) ==> Line() == DeletedAhead(old(Line()), to - from)
      ensures to == old(pos) ==> Line() == DeletedBehind(old(Line()), to - from)
    {
      hide DeletedAhead, DeletedBehind, Over, Laid;
      ghost var w := buf32[..];
      ghost var left, right, rest := w[..from], w[to..len], w[from + (len - to + 1)..];
      assert Line() == LineEdits.Line(w[..pos], w[pos..len]);
      CutWhole(w, len, from, to);
      CutLine(w, pos, len, from, to);
      MemMove(buf32, from, to, len - to + 1);
      len := len - (to - from);
      pos := from;
      Holds(left, right, rest);
    }

    /** Copies the first n characters of a text of its own into the buffer. */
    method CopyIn(dst: nat, text: Text, n: nat)
      requires n <= |text| && dst + n <= buf32.Length
      modifies buf32
      ensures buf32[..] == Over(old(buf32[..]), dst, text[..n])
    {
      forall i | 0 <= i < n { buf32[dst + i] := text[i]; }
    }

    /** Changes the case of a word at the cursor, and moves past it. */
    method RecaseWord(f: Char -> Char)
      requires Shape()
      modifies this`pos, buf32
      ensures Shape() && Line() == RecasedHere(old(Line()), alnum, f)
    {
      hide Span, RecasedTo, Each;
      ghost var start, w := pos, buf32[..];
      ghost var n := Span(w[start..len], alnum, true);
      RecaseNone(w, start, f);
      while pos < len && alnum(buf32[pos])
        invariant start <= pos <= len && pos + Span(w[pos..len], alnum, true) == start + n
        invariant buf32[..] == RecasedTo(w, start, pos, f)
      {
        RecaseStep(w, start, pos, f);
        SpanStep(w, pos, len, alnum, true);
        buf32[pos] := f(buf32[pos]);
        pos := pos + 1;
      }
      RecasedEnd(w, start, f);
    }

    lemma RecasedEnd(w: Text, start: nat, f: Char -> Char)
      requires buf32.Length == buflen + 1 && start <= pos <= len <= buflen
      requires (buf32 as object) != (ring.indexToSlot as object)
      requires |w| == buf32.Length && w[len] == 0 && buf32[..] == RecasedTo(w, start, pos, f)
      requires pos < len ==> !alnum(buf32[pos])
      requires pos + Span(w[pos..len], alnum, true) == start + Span(w[start..len], alnum, true)
      ensures Shape() && Line() == RecasedHere(LineEdits.Line(w[..start], w[start..len]), alnum, f)
    {
      hide Span, RecasedTo, Each;
      SpanStep(w, pos, len, alnum, true);
      assert buf32[..][pos..] == w[pos..];
      assert pos < len ==> buf32[pos] == w[pos..][0];
      assert buf32[len] == w[pos..][len - pos];
      RecasedLine(w, start, pos, len, f);
      assert buf32[..pos] == buf32[..][..pos] && buf32[pos..len] == buf32[..][pos..len];
    }

    /** Puts n characters of a text in place of what is between `at` and the cursor: the rest of
        the line is moved first. */
    method MoveThenCopy(at: nat, text: Text, n: nat)
      requires Shape() && at <= pos && n <= |text| && pos - at <= n && len + n - (pos - at) <= buflen
      modifies this`pos, this`len, buf32
      ensures Shape() && Line() == LineEdits.Line(old(Line()).left[..at] + text[..n], old(Line()).right)
    {
      hide Over, Laid;
      ghost var w, right, t := buf32[..], Line().right, text[..n];
      assert w[..at] == Line().left[..at] && w[pos..len] == right && |w[..at] + t| == at + n;
      GrowWhole(w, at, pos, len, t);
      MemMove(buf32, at + n, pos, len - pos + 1);
      CopyIn(at, text, n);
      len := len + n - (pos - at);
      pos := at + n;
      Holds(w[..at] + t, right, w[at + n + (old(len) - old(pos) + 1)..]);
    }

    /** The same for a text no longer than what it replaces: it is copied first. */
    method CopyThenMove(at: nat, text: Text, n: nat)
      requires Shape() && at <= pos && n <= |text| && n <= pos - at
      modifies this`pos, this`len, buf32
      ensures Shape() && Line() == LineEdits.Line(old(Line()).left[..at] + text[..n], old(Line()).right)
    {
      hide Over, Laid;
      ghost var w, right, t := buf32[..], Line().right, text[..n];
      assert w[..at] == Line().left[..at] && w[pos..len] == right && |w[..at] + t| == at + n;
      ShrinkWhole(w, at, pos, len, t);
      CopyIn(at, text, n);
      MemMove(buf32, at + n, pos, len - pos + 1);
      len := len + n - (pos - at);
      pos := at + n;
      Holds(w[..at] + t, right, w[at + n + (old(len) - old(pos) + 1)..]);
    }

    /** Kills what is between `from` and `to`, on the one side of the cursor or the other. */
    method KillRange(from: nat, to: nat, forward: bool)
      requires Valid() && from <= to <= len && (if forward then from == pos else to == pos)
      modifies this`pos, this`len, buf32, ring, ring.indexToSlot
      ensures Shape() && ring.Shape()
      ensures old(Valid()) && View().(ring := View().ring.(last := ActionKill))
           == if forward then KilledAhead(old(View()), to - from) else KilledBehind(old(View()), to - from)
    {
      hide GoodSlots, Permutation, KillText;
      assert forward ==> buf32[from..to] == Line().right[..to - from];
      assert !forward ==> buf32[from..to] == Line().left[from..];
      ring.Kill(buf32[from..to], forward);
      CutOut(from, to);
    }

    // ---- The commands ----------------------------------------------------------------

    /** A command that edits the line only. */
    lemma OnlyLine(was: Editor, cmd: Command)
      requires Good(was, buflen) && Shape() && ring.Shape()
      requires View() == Other(was, Line()) == Do(was, buflen, alnum, cmd)
      ensures Valid() && View() == Do(was, buflen, alnum, cmd)
    {
      hide Do, GoodSlots, Permutation;
      DoKeepsGood(was, buflen, alnum, cmd);
    }

    method MoveToStart()
      requires Valid()
      modifies this`pos, ring`lastAction
      ensures Valid() && View() == Do(old(View()), buflen, alnum, CtrlA)
    {
      hide GoodSlots, Permutation;
      ring.Note(ActionOther);
      MoveTo(0);
      OnlyLine(old(View()), CtrlA);
    }

    method MoveLeft()
      requires Valid()
      modifies this`pos, ring`lastAction
      ensures Valid() && View() == Do(old(View()), buflen, alnum, CtrlB)
    {
      hide GoodSlots, Permutation;
      ring.Note(ActionOther);
      if pos > 0 {
        MoveTo(pos - 1);
      } else {
        MovedNowhere(Line());
      }
      OnlyLine(old(View()), CtrlB);
    }

    method MoveLeftByWord()
      requires Valid()
      modifies this`pos, ring`lastAction
      ensures Valid() && View() == Do(old(View()), buflen, alnum, MetaB)
    {
      hide GoodSlots, Permutation, WordBehind;
      ring.Note(ActionOther);
      var to := FindWordBehind();
      MoveTo(to);
      OnlyLine(old(View()), MetaB);
    }

    /** A kill. */
    lemma OnlyKill(was: Editor, cmd: Command)
      requires Good(was, buflen) && Shape() && ring.Shape() && IsKill(cmd)
      requires View() == if KillsAhead(cmd) then KilledAhead(was, KillAmount(was.line, alnum, cmd))
                         else KilledBehind(was, KillAmount(was.line, alnum, cmd))
      ensures Valid() && View() == Do(was, buflen, alnum, cmd)
    {
      hide GoodSlots, Permutation, KillAmount, KilledAhead, KilledBehind;
      DoKeepsGood(was, buflen, alnum, cmd);
    }

    method UppercaseOne()
      requires Shape() && pos < len
      modifies this`pos, buf32
      ensures Shape()
      ensures var m := old(Line()); Line() == LineEdits.Line(m.left + [Upper(m.right[0])], m.right[1..])
    {
      buf32[pos] := Upper(buf32[pos]);
      pos := pos + 1;
    }

    method CapitalizeHere()
      requires Shape()
      modifies this`pos, buf32
      ensures Shape()
      ensures var m := old(Line());
              Line() == RecasedHere(if m.right != [] && alnum(m.right[0])
                then LineEdits.Line(m.left + [Upper(m.right[0])], m.right[1..]) else m, alnum, Lower)
    {
      hide RecasedHere, Upper, Lower;
      assert (pos < len) == (Line().right != []);
      if pos < len && alnum(buf32[pos]) { UppercaseOne(); }
      RecaseWord(Lower);
    }

    method CapitalizeWord()
      requires Valid()
      modifies this`pos, buf32, ring`lastAction
      ensures Valid() && View() == Do(old(View()), buflen, alnum, MetaC)
    {
      hide GoodSlots, Permutation, Span, Moved, Recased, RecasedHere, Capitalized, Upper, Lower;
      CapitalizedParts(Line(), alnum);
      ring.Note(ActionOther);
      var gap := ScanAhead(pos, false);
      MoveTo(gap);
      CapitalizeHere();
      OnlyLine(old(View()), MetaC);
    }

    /** ctrl-D; on an empty line it leaves the editor. */
    method DeleteRight() returns (leaves: bool)
      requires Valid()
      modifies this`pos, this`len, buf32, ring`lastAction
      ensures Valid() && View() == Do(old(View()), buflen, alnum, CtrlD)
      ensures leaves <==> old(View()).line.Text() == []
    {
      leaves := len == 0;
      hide GoodSlots, Permutation;
      ring.Note(ActionOther);
      if pos < len { CutOut(pos, pos + 1); }
      OnlyLine(old(View()), CtrlD);
    }

    method KillWordRight()
      requires Valid()
      modifies this`pos, this`len, buf32, ring, ring.indexToSlot
      ensures Valid() && View() == Do(old(View()), buflen, alnum, MetaD)
    {
      hide Good, GoodRing, Permutation, WordAhead, KilledAhead, KilledBehind;
      if pos < len {
        var to := FindWordAhead();
        KillRange(pos, to, true);
      } else {
        NothingKilled(View());
      }
      ring.Note(ActionKill);
      OnlyKill(old(View()), MetaD);
    }

    method MoveToEnd()
      requires Valid()
      modifies this`pos, ring`lastAction
      ensures Valid() && View() == Do(old(View()), buflen, alnum, CtrlE)
    {
      hide GoodSlots, Permutation;
      ring.Note(ActionOther);
      MoveTo(len);
      OnlyLine(old(View()), CtrlE);
    }

    method MoveRight()
      requires Valid()
      modifies this`pos, ring`lastAction
      ensures Valid() && View() == Do(old(View()), buflen, alnum, CtrlF)
    {
      hide GoodSlots, Permutation;
      ring.Note(ActionOther);
      if pos < len {
        MoveTo(pos + 1);
      } else {
        MovedNowhere(Line());
      }
      OnlyLine(old(View()), CtrlF);
    }

    method MoveRightByWord()
      requires Valid()
      modifies this`pos, ring`lastAction
      ensures Valid() && View() == Do(old(View()), buflen, alnum, MetaF)
    {
      hide GoodSlots, Permutation, WordAhead;
      ring.Note(ActionOther);
      var to := FindWordAhead();
      MoveTo(to);
      OnlyLine(old(View()), MetaF);
    }

    method RubOut()
      requires Valid()
      modifies this`pos, this`len, buf32, ring`lastAction
      ensures Valid() && View() == Do(old(View()), buflen, alnum, CtrlH)
    {
      hide GoodSlots, Permutation;
      ring.Note(ActionOther);
      if pos > 0 { CutOut(pos - 1, pos); }
      OnlyLine(old(View()), CtrlH);
    }

    method KillWordLeft()
      requires Valid()
      modifies this`pos, this`len, buf32, ring, ring.indexToSlot
      ensures Valid() && View() == Do(old(View()), buflen, alnum, MetaH)
    {
      hide Good, GoodRing, Permutation, WordBehind, KilledAhead, KilledBehind;
      if pos > 0 {
        var from := FindWordBehind();
        KillRange(from, pos, false);
      } else {
        NothingKilled(View());
      }
      ring.Note(ActionKill);
      OnlyKill(old(View()), MetaH);
    }

    method KillToEnd()
      requires Valid()
      modifies this`pos, this`len, buf32, ring, ring.indexToSlot
      ensures Valid() && View() == Do(old(View()), buflen, alnum, CtrlK)
    {
      hide GoodSlots, Permutation, KillText;
      assert buf32[pos..len] == Line().right[..len - pos];
      ring.Kill(buf32[pos..len], true);
      buf32[pos] := 0;
      len := pos;
      ring.Note(ActionKill);
      OnlyKill(old(View()), CtrlK);
    }

    method LowercaseWord()
      requires Valid()
      modifies this`pos, buf32, ring`lastAction
      ensures Valid() && View() == Do(old(View()), buflen, alnum, MetaL)
    {
      hide GoodSlots, Permutation, Span, Moved, Recased, RecasedHere, Capitalized, Upper, Lower;
      RecasedParts(Line(), alnum, Lower);
      ring.Note(ActionOther);
      var gap := ScanAhead(pos, false);
      MoveTo(gap);
      RecaseWord(Lower);
      OnlyLine(old(View()), MetaL);
    }

    method Exchange()
      requires Shape() && pos > 0 && len > 1
      modifies this`pos, buf32
      ensures Shape() && Line() == Transposed(old(Line()))
    {
      ghost var w, l := buf32[..], Transposed(Line());
      assert Line() == LineEdits.Line(w[..pos], w[pos..len]) && (pos == len <==> w[pos..len] == []);
      TransposedLength(Line());
      if pos == len { SwapAtEnd(w, len); } else { SwapInside(w, pos, len); }
      hide Transposed, Laid;
      var leftCharPos := if pos == len then pos - 2 else pos - 1;
      buf32[leftCharPos], buf32[leftCharPos + 1] := buf32[leftCharPos + 1], buf32[leftCharPos];
      if pos != len { pos := pos + 1; }
      Holds(l.left, l.right, w[len + 1..]);
    }

    method TransposeChars()
      requires Valid()
      modifies this`pos, buf32, ring`lastAction
      ensures Valid() && View() == Do(old(View()), buflen, alnum, CtrlT)
    {
      hide GoodSlots, Permutation;
      ring.Note(ActionOther);
      if pos > 0 && len > 1 { Exchange(); }
      OnlyLine(old(View()), CtrlT);
    }

    method KillToStart()
      requires Valid()
      modifies this`pos, this`len, buf32, ring, ring.indexToSlot
      ensures Valid() && View() == Do(old(View()), buflen, alnum, CtrlU)
    {
      hide Good, GoodRing, Permutation, KilledAhead, KilledBehind;
      if pos > 0 {
        KillRange(0, pos, false);
      } else {
        NothingKilled(View());
      }
      ring.Note(ActionKill);
      OnlyKill(old(View()), CtrlU);
    }

    method UppercaseWord()
      requires Valid()
      modifies this`pos, buf32, ring`lastAction
      ensures Valid() && View() == Do(old(View()), buflen, alnum, MetaU)
    {
      hide GoodSlots, Permutation, Span, Moved, Recased, RecasedHere, Capitalized, Upper, Lower;
      RecasedParts(Line(), alnum, Upper);
      ring.Note(ActionOther);
      var gap := ScanAhead(pos, false);
      MoveTo(gap);
      RecaseWord(Upper);
      OnlyLine(old(View()), MetaU);
    }

    method KillToBlank()
      requires Valid()
      modifies this`pos, this`len, buf32, ring, ring.indexToSlot
      ensures Valid() && View() == Do(old(View()), buflen, alnum, CtrlW)
    {
      hide Good, GoodRing, Permutation, BlankBehind, KilledAhead, KilledBehind;
      if pos > 0 {
        var from := FindBlankBehind();
        KillRange(from, pos, false);
      } else {
        NothingKilled(View());
      }
      ring.Note(ActionKill);
      OnlyKill(old(View()), CtrlW);
    }

    /** A yank of n characters, in place of the last `drop` ones before the cursor. */
    lemma OnlyYank(was: Editor, turned: Editor, cmd: Command, drop: nat, n: nat)
      requires Good(was, buflen) && Shape() && ring.Shape() && was.ring.recent != [] && was.line == turned.line
      requires if cmd == CtrlY then drop == 0 && turned == was
               else cmd == MetaY && was.ring.last == ActionYank && drop == was.ring.lastYankSize
                    && turned.ring == Turned(was.ring)
      requires GoodRing(turned.ring) && |turned.line.Text()| <= buflen && drop <= |turned.line.left|
      requires turned.ring.index < |turned.ring.recent|
      requires var text := turned.ring.recent[turned.ring.index];
               && n == Min(|text|, drop + buflen - |was.line.Text()|)
               && Line() == LineEdits.Line(was.line.left[..|was.line.left| - drop] + text[..n], was.line.right)
               && ring.View() == turned.ring.(last := ActionYank, lastYankSize := n)
      ensures Valid() && View() == Do(was, buflen, alnum, cmd)
    {
      hide GoodSlots, Permutation;
      DoKeepsGood(was, buflen, alnum, cmd);
    }

    method YankText()
      requires Valid()
      modifies this`pos, this`len, buf32, ring`lastAction, ring`lastYankSize
      ensures Valid() && View() == Do(old(View()), buflen, alnum, CtrlY)
    {
      hide GoodSlots, Permutation, Do;
      var restoredText := ring.Yank();
      if restoredText != [] {
        ghost var was := View();
        CurrentText(was.ring);
        var ucharCount := |restoredText|;
        if ucharCount > buflen - len { ucharCount := buflen - len; }
        MoveThenCopy(pos, restoredText, ucharCount);
        ring.Note(ActionYank);
        ring.NoteSize(ucharCount);
        OnlyYank(was, was, CtrlY, 0, ucharCount);
      } else {
        NothingToYank(CtrlY);
      }
    }

    lemma NothingToYank(cmd: Command)
      requires Valid() && (cmd == CtrlY || (cmd == MetaY && ring.lastAction == ActionYank))
      requires ring.View().recent != [] ==> ring.View().recent[ring.View().index] == []
      ensures Do(View(), buflen, alnum, cmd) == View()
    {
    }

    /** Replaces the yanked text: the two parts are moved in the order that loses neither. */
    method ReplaceYanked(text: Text, n: nat)
      requires Shape() && ring.lastYankSize <= pos && n <= |text| && len + n - ring.lastYankSize <= buflen
      modifies this`pos, this`len, buf32
      ensures Shape() && old(Line()).left == old(buf32[..pos])
      ensures Line() == LineEdits.Line(old(Line()).left[..old(pos) - ring.lastYankSize] + text[..n], old(Line()).right)
    {
      if n > ring.lastYankSize {
        MoveThenCopy(pos - ring.lastYankSize, text, n);
      } else {
        CopyThenMove(pos - ring.lastYankSize, text, n);
      }
    }

    /** Rotates the yanked text. */
    method YankPop()
      requires Valid()
      modifies this`pos, this`len, buf32, ring`index, ring`lastYankSize
      ensures Valid() && View() == Do(old(View()), buflen, alnum, MetaY)
    {
      hide GoodSlots, GoodRing, GoodLine, Permutation, Turned, Do;
      ghost var was := View();
      if ring.lastAction == ActionYank {
        TurnedIsGood(was.ring);
        var lastYankSize := ring.lastYankSize;
        var restoredText := ring.YankPop();
        ghost var turned := was.(ring := ring.View());
        if restoredText != [] {
          CurrentText(turned.ring);
          var ucharCount := |restoredText|;
          if ucharCount > lastYankSize + buflen - len { ucharCount := lastYankSize + buflen - len; }
          ReplaceYanked(restoredText, ucharCount);
          ring.NoteSize(ucharCount);
          OnlyYank(was, turned, MetaY, lastYankSize, ucharCount);
        } else {
          NothingToPop(was);
        }
      } else {
        NotYanked(was);
      }
    }

    lemma NothingToPop(was: Editor)
      requires GoodRing(was.ring) && Good(was, buflen)
      requires var r := Turned(was.ring); r.recent != [] ==> r.recent[r.index] == []
      ensures was.ring == Turned(was.ring) && Do(was, buflen, alnum, MetaY) == was
    {
    }

    lemma NotYanked(was: Editor)
      requires Good(was, buflen) && was.ring.last != ActionYank
      ensures Do(was, buflen, alnum, MetaY) == was
    {
    }

    method InsertChar(c: Char)
      requires Valid()
      modifies this`pos, this`len, buf32, ring`lastAction
      ensures Valid() && View() == Do(old(View()), buflen, alnum, Insert(c))
    {
      hide GoodSlots, Permutation;
      ring.Note(ActionOther);
      if Insertable(c) && len < buflen { PutChar(c); }
      OnlyLine(old(View()), Insert(c));
    }

    method PutChar(c: Char)
      requires Shape() && len < buflen
      modifies this`pos, this`len, buf32
      ensures Shape() && Line() == LineEdits.Line(old(Line()).left + [c], old(Line()).right)
    {
      hide Over, Laid;
      ghost var w, left, right := buf32[..], Line().left + [c], Line().right;
      assert Line() == LineEdits.Line(w[..pos], w[pos..len]);
      InsertWhole(w, pos, len, c);
      if len == pos {
        InsertLast(w, pos, c);
        buf32[pos] := c;
        pos := pos + 1;
        len := len + 1;
        buf32[len] := 0;
      } else {
        MemMove(buf32, pos + 1, pos, len - pos);
        buf32[pos] := c;
        len := len + 1;
        pos := pos + 1;
        buf32[len] := 0;
      }
      Holds(left, right, w[old(len) + 2..]);
    }

    // ---- Completion ------------------------------------------------------------------

    /** Builds the completed line beside the buffer, and copies it back. */
    method Splice(startIndex: nat, text: Text, n: nat)
      requires Shape() && startIndex <= pos && n <= |text| && startIndex + n + len - pos <= buflen
      requires NoZero(text) && NoZero(buf32[..len])
      modifies this`pos, this`len, buf32
      ensures Shape() && Line() == LineEdits.Line(old(Line()).left[..startIndex] + text[..n], old(Line()).right)
    {
      hide Over, Laid;
      ghost var w, right := buf32[..], Line().right;
      assert w[..startIndex] == Line().left[..startIndex] && w[pos..len] == right;
      var displayLength := startIndex + n + len - pos;
      var parts := buf32[..startIndex] + text[..n] + buf32[pos..len + 1];
      var displayText := new Char[displayLength + 1](i requires 0 <= i < |parts| => parts[i]);
      assert displayText[..] == parts;
      NoZeroParts(w, startIndex, text, n, pos, len);
      UpToZeroWhole(displayText[..displayLength]);
      SpliceWhole(w, startIndex, pos, len, text[..n]);
      CopyString32(buf32, displayText, displayLength);
      pos := startIndex + n;
      len := displayLength;
      assert |w[..startIndex] + text[..n]| == pos;
      Holds(w[..startIndex] + text[..n], right, w[displayLength + 1..]);
    }

    method CompleteLine(completions: seq<CText>)
      requires Valid()
      modifies this`pos, this`len, buf32, ring`lastAction
      ensures Valid() && View() == Do(old(View()), buflen, alnum, Tab(completions))
    {
      hide GoodSlots, Permutation, Longest, ItemLength;
      if pos == 0 { return; }
      ring.Note(ActionOther);
      ghost var l := Line();
      var startIndex := FindItem();
      var itemLength := pos - startIndex;
      if completions != [] {
        var longestCommonPrefix := LongestCommonPrefix(completions);
        if longestCommonPrefix > itemLength {
          var displayLength := len + longestCommonPrefix - itemLength;
          if displayLength > buflen { longestCommonPrefix := longestCommonPrefix - (displayLength - buflen); }
          NoZeroLine();
          Splice(startIndex, completions[0], longestCommonPrefix);
        }
      }
      OnlyLine(old(View()), Tab(completions));
    }

    method FindItem() returns (startIndex: nat)
      requires Shape()
      ensures startIndex == pos - ItemLength(Line().left) && startIndex <= pos
    {
      startIndex := ScanBack(pos, IsBreak, false);
    }

    lemma NoZeroLine()
      requires Shape() && NoZero(Line().left) && NoZero(Line().right)
      ensures NoZero(buf32[..len])
    {
      assert buf32[..len] == Line().left + Line().right;
    }

    // ---- The loop over the keys ------------------------------------------------------

    /** ctrl-C: gives the line up, with the cursor at its end. */
    method AbortLine() returns (result: int)
      requires Valid()
      modifies this`pos, ring`lastAction
      ensures Valid() && View() == Do(old(View()), buflen, alnum, CtrlC) && result == -1
    {
      hide GoodSlots, Permutation;
      ring.Note(ActionOther);
      MoveTo(len);
      OnlyLine(old(View()), CtrlC);
      result := -1;
    }

    /** ctrl-M: accepts the line. */
    method AcceptLine() returns (result: int)
      requires Valid()
      modifies this`pos, ring`lastAction
      ensures Valid() && View() == Do(old(View()), buflen, alnum, CtrlM) && result == |View().line.Text()|
    {
      hide GoodSlots, Permutation;
      ring.Note(ActionOther);
      MoveTo(len);
      OnlyLine(old(View()), CtrlM);
      result := len;
    }

    method Press(cmd: Command) returns (leaves: bool, result: int)
      requires Valid()
      modifies this`pos, this`len, buf32, ring, ring.indexToSlot
      ensures Valid() && View() == Do(old(View()), buflen, alnum, cmd)
      ensures leaves <==> cmd == CtrlC || cmd == CtrlM || (cmd == CtrlD && old(View()).line.Text() == [])
      ensures leaves ==> result == if cmd == CtrlM then |View().line.Text()| else -1
    {
      hide Do, Good;
      leaves, result := cmd == CtrlC || cmd == CtrlM, -1;
      match cmd
      case CtrlA => MoveToStart();
      case CtrlB => MoveLeft();
      case MetaB => MoveLeftByWord();
      case CtrlC => result := AbortLine();
      case MetaC => CapitalizeWord();
      case CtrlD => leaves := DeleteRight();
      case MetaD => KillWordRight();
      case CtrlE => MoveToEnd();
      case CtrlF => MoveRight();
      case MetaF => MoveRightByWord();
      case CtrlH => RubOut();
      case MetaH => KillWordLeft();
      case CtrlK => KillToEnd();
      case MetaL => LowercaseWord();
      case CtrlM => result := AcceptLine();
      case CtrlT => TransposeChars();
      case CtrlU => KillToStart();
      case MetaU => UppercaseWord();
      case CtrlW => KillToBlank();
      case CtrlY => YankText();
      case MetaY => YankPop();
      case Insert(c) => InsertChar(c);
      case Tab(completions) => CompleteLine(completions);
    }

    /** Runs until the first key that leaves the editor, or to the end of the input, for which it
        returns the length of the line; n is how many keys were read. */
    method GetInputLine(keys: seq<Command>) returns (n: nat, leaves: bool, result: int)
      requires Valid()
      modifies this`pos, this`len, buf32, ring, ring.indexToSlot
      ensures Valid() && n <= |keys| && View() == DoAll(old(View()), buflen, alnum, keys[..n])
      ensures leaves ==> n > 0 && result == if keys[n - 1] == CtrlM then |View().line.Text()| else -1
      ensures !leaves ==> n == |keys| && result == |View().line.Text()|
      ensures forall i | 0 <= i < n :: LeavesAt(old(View()), buflen, alnum, keys, i) <==> leaves && i == n - 1
    {
      hide Do, Good, LeavesAt;
      n, leaves, result := 0, false, -1;
      ghost var e := View();
      while n < |keys| && !leaves
        invariant 0 <= n <= |keys| && Valid() && Good(e, buflen)
        invariant View() == DoAll(e, buflen, alnum, keys[..n])
        invariant leaves ==> n > 0 && result == if keys[n - 1] == CtrlM then |View().line.Text()| else -1
        invariant forall i | 0 <= i < n :: LeavesAt(e, buflen, alnum, keys, i) <==> leaves && i == n - 1
      {
        assert keys[..n + 1] == keys[..n] + [keys[n]];
        DoAllAppend(e, buflen, alnum, keys[..n], keys[n]);
        LeavesHere(e, buflen, alnum, keys, n);
        leaves, result := Press(keys[n]);
        n := n + 1;
      }
      if !leaves { result := len; }
    }
  }

  lemma LeavesHere(e: Editor, buflen: nat, p: Char -> bool, keys: seq<Command>, n: nat)
    requires Good(e, buflen) && n < |keys|
    ensures LeavesAt(e, buflen, p, keys, n) <==> Leaves(keys[n], DoAll(e, buflen, p, keys[..n]).line)
  {
  }

  lemma NoZeroParts(w: Text, start: nat, text: Text, n: nat, pos: nat, len: nat)
    requires start <= pos <= len < |w| && n <= |text| && NoZero(w[..len]) && NoZero(text)
    ensures NoZero((w[..start] + text[..n] + w[pos..len + 1])[..start + n + len - pos])
  {
    forall i: nat | i < len ensures w[i] != 0 { assert w[..len][i] != 0; }
    hide NoZero;
    var t := (w[..start] + text[..n] + w[pos..len + 1])[..start + n + len - pos];
    assert t == w[..start] + text[..n] + w[pos..len];
  }
}
