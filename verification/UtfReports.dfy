/**
 Where a conversion from UTF-32 reports an illegal value, and when the report is lost: where the
 conversions part from their own documentation.
 */
module UtfReports {
  import opened Numbers
  import opened Unicode
  import opened Scanning
  import opened UtfTheorems
  import opened UtfLimits

  // ---- One call ----------------------------------------------------------------------

  /** What a call from UTF-32 reports as illegal; a lenient one replaces surrogates, and one to
      UTF-16 replaces overlarge values as well. */
  predicate Illegal(to: Form, flags: ConversionFlags, u: Unit) {
    if IsSurrogate(u) then flags == Strict else u > 0x10_FFFF && (flags == Strict || to != UTF16)
  }

  /** The position of the first illegal value, or the length. */
  function FirstIllegal(to: Form, flags: ConversionFlags, src: seq<Unit>): (i: nat)
    ensures i <= |src| && (i < |src| ==> Illegal(to, flags, src[i]))
    ensures forall j | 0 <= j < i :: !Illegal(to, flags, src[j])
  {
    if src == [] || Illegal(to, flags, src[0]) then 0 else 1 + FirstIllegal(to, flags, src[1..])
  }

  lemma StepOnValue(to: Form, flags: ConversionFlags, src: seq<Unit>)
    requires src != []
    ensures var step := Next(UTF32, to, flags, src);
            if step.Put? then
              step.n == 1 && (step.flagged <==> Illegal(to, flags, src[0])) && (step.flagged ==> !IsSurrogate(src[0]))
            else step.result == SourceIllegal && Illegal(to, flags, src[0]) && IsSurrogate(src[0])
  {
    hide Encode;
  }

  /** The room without which a call ends for want of room: enough for every unit up to the end of
      the source, or up to the one that stops the call. */
  function Needs(from: Form, to: Form, flags: ConversionFlags, src: seq<Unit>): nat
    decreases |src|
  {
    if src == [] then 0
    else
      var step := Next(from, to, flags, src);
      if step.Halt? then step.need else Max(step.need, |step.out| + Needs(from, to, flags, src[step.n..]))
  }

  lemma {:induction false} ExhaustedExactly(from: Form, to: Form, flags: ConversionFlags, src: seq<Unit>, room: nat)
    ensures Scan(from, to, flags, src, room).stop == TargetExhausted <==> room < Needs(from, to, flags, src)
    decreases |src|
  {
    hide Scan, Next;
    if src == [] {
      ScanEmpty(from, to, flags, room);
    } else {
      var step := Next(from, to, flags, src);
      ScanStep(from, to, flags, src, room);
      if step.Put? && step.need <= room { ExhaustedExactly(from, to, flags, src[step.n..], room - |step.out|); }
    }
  }

  lemma {:induction false} FourSuffice(from: Form, to: Form, flags: ConversionFlags, src: seq<Unit>)
    ensures Needs(from, to, flags, src) <= 4 * |src|
    decreases |src|
  {
    hide Next;
    if src != [] && Next(from, to, flags, src).Put? {
      FourSuffice(from, to, flags, src[Next(from, to, flags, src).n..]);
    }
  }

  /**
   Whatever the flags, the target form and the room, a call from UTF-32 is reported illegal if and
   only if the source holds an illegal value and the target has the room that the call needs: the
   end of the target takes the place of the report, with the illegal value consumed or not.
   */
  lemma ReportsExactly(to: Form, flags: ConversionFlags, src: seq<Unit>, room: nat)
    ensures var o, i := Scan(UTF32, to, flags, src, room), FirstIllegal(to, flags, src);
            && (o.Result() == SourceIllegal <==> i < |src| && Needs(UTF32, to, flags, src) <= room)
            && (o.Result() == TargetExhausted <==> room < Needs(UTF32, to, flags, src))
            && (o.Result() == ConversionOK ==> o.consumed == |src|)
            && (o.flagged <==> i < o.consumed)
  {
    hide Scan;
    StopsExactly(to, flags, src, room);
    ExhaustedExactly(UTF32, to, flags, src, room);
  }

  lemma {:induction false} StopsExactly(to: Form, flags: ConversionFlags, src: seq<Unit>, room: nat)
    ensures var o, i := Scan(UTF32, to, flags, src, room), FirstIllegal(to, flags, src);
            && o.stop in {ConversionOK, TargetExhausted, SourceIllegal} && (o.flagged <==> i < o.consumed)
            && (o.stop == SourceIllegal ==> i < |src|) && (o.stop == ConversionOK ==> o.consumed == |src|)
    decreases |src|
  {
    hide Scan, Next, Illegal;
    if src == [] {
      ScanEmpty(UTF32, to, flags, room);
    } else {
      var step := Next(UTF32, to, flags, src);
      ScanStep(UTF32, to, flags, src, room);
      StepOnValue(to, flags, src);
      if step.Put? && step.need <= room { StopsExactly(to, flags, src[1..], room - |step.out|); }
    }
  }

  /**
   The documentation has the source point at the illegal value when a call reports one. Whatever
   the flags, the target form and the room, a call from UTF-32 does so if and only if the first
   illegal value is a surrogate; an overlarge one is reported, but consumed.
   */
  lemma {:induction false} PointsAtIllegal(to: Form, flags: ConversionFlags, src: seq<Unit>, room: nat)
    requires Scan(UTF32, to, flags, src, room).Result() == SourceIllegal
    ensures var o, i := Scan(UTF32, to, flags, src, room), FirstIllegal(to, flags, src);
            i < |src| && i <= o.consumed && (o.consumed == i <==> IsSurrogate(src[i]))
    decreases |src|
  {
    hide Scan, Next, Illegal;
    if src == [] {
      ScanEmpty(UTF32, to, flags, room);
    } else {
      var step := Next(UTF32, to, flags, src);
      ScanStep(UTF32, to, flags, src, room);
      StepOnValue(to, flags, src);
      if step.Put? && step.need <= room && !step.flagged {
        PointsAtIllegal(to, flags, src[1..], room - |step.out|);
      }
    }
  }

  /** From the other forms it always does. */
  lemma {:induction false} PointsAtMalformed(from: Form, to: Form, flags: ConversionFlags, src: seq<Unit>, room: nat)
    requires from != UTF32 && Scan(from, to, flags, src, room).Result() == SourceIllegal
    ensures var o := Scan(from, to, flags, src, room);
            o.consumed < |src| && Next(from, to, flags, src[o.consumed..]).Halt?
            && Next(from, to, flags, src[o.consumed..]).result == SourceIllegal
    decreases |src|
  {
    hide Scan, Next;
    NeverFlagged(from, to, flags, src, room);
    if src == [] {
      ScanEmpty(from, to, flags, room);
    } else {
      var o, step := Scan(from, to, flags, src, room), Next(from, to, flags, src);
      ScanStep(from, to, flags, src, room);
      if step.Put? && step.need <= room {
        var rest := src[step.n..];
        NeverFlagged(from, to, flags, rest, room - |step.out|);
        PointsAtMalformed(from, to, flags, rest, room - |step.out|);
        assert rest[Scan(from, to, flags, rest, room - |step.out|).consumed..] == src[o.consumed..];
      } else {
        assert src[0..] == src;
      }
    }
  }

  /** With either flag, 0x110000 on its way to UTF-8 is reported with the source behind it. */
  lemma OverlargeConsumed(flags: ConversionFlags)
    ensures var o := Whole(UTF32, UTF8, flags, [0x11_0000, 0x41]);
            o.Result() == SourceIllegal && o.consumed == 2
  {
    var src: seq<Unit> := [0x11_0000, 0x41];
    assert src[1..] == [0x41] && src[1..][1..] == [];
    WholeStep(UTF32, UTF8, flags, src, Next(UTF32, UTF8, flags, src));
    WholeStep(UTF32, UTF8, flags, src[1..], Next(UTF32, UTF8, flags, src[1..]));
    ScanEmpty(UTF32, UTF8, flags, 0);
    hide Scan;
  }

  // ---- What the calls of a sitting report --------------------------------------------

  /** The codes that the calls of a sitting return. */
  function Answers(from: Form, to: Form, flags: ConversionFlags, src: seq<Unit>, pieces: seq<Piece>)
    : (codes: seq<ConversionResult>)
    requires forall p | p in pieces :: p.upTo <= |src|
    ensures |codes| == |pieces|
  {
    if pieces == [] then []
    else
      var init, last := pieces[..|pieces| - 1], pieces[|pieces| - 1];
      var c := Sitting(from, to, flags, src, init).consumed;
      Answers(from, to, flags, src, init) + [Turn(from, to, flags, src, c, last).Result()]
  }

  /** Where the k-th call of a sitting begins. */
  function Cursor(from: Form, to: Form, flags: ConversionFlags, src: seq<Unit>, pieces: seq<Piece>, k: nat): (c: nat)
    requires k <= |pieces| && forall p | p in pieces :: p.upTo <= |src|
    ensures c <= |src|
  {
    Sitting(from, to, flags, src, pieces[..k]).consumed
  }

  /** The k-th call is given the unit at j. */
  predicate Sees(from: Form, to: Form, flags: ConversionFlags, src: seq<Unit>, pieces: seq<Piece>, k: nat, j: nat)
    requires k < |pieces| && forall p | p in pieces :: p.upTo <= |src|
  {
    Cursor(from, to, flags, src, pieces, k) <= j < pieces[k].upTo
  }

  /** The k-th call consumes the unit at j. */
  predicate Takes(from: Form, to: Form, flags: ConversionFlags, src: seq<Unit>, pieces: seq<Piece>, k: nat, j: nat)
    requires k < |pieces| && forall p | p in pieces :: p.upTo <= |src|
  {
    Cursor(from, to, flags, src, pieces, k) <= j < Cursor(from, to, flags, src, pieces, k + 1)
  }

  lemma {:induction false} AnswerAt(from: Form, to: Form, flags: ConversionFlags, src: seq<Unit>,
                                    pieces: seq<Piece>, k: nat)
    requires k < |pieces| && forall p | p in pieces :: p.upTo <= |src|
    ensures var c := Cursor(from, to, flags, src, pieces, k);
            var o := Turn(from, to, flags, src, c, pieces[k]);
            && Answers(from, to, flags, src, pieces)[k] == o.Result()
            && Cursor(from, to, flags, src, pieces, k + 1) == c + o.consumed
    decreases |pieces|
  {
    hide Turn;
    var n := |pieces| - 1;
    if k < n {
      assert pieces[..n][..k] == pieces[..k] && pieces[..n][..k + 1] == pieces[..k + 1];
      AnswerAt(from, to, flags, src, pieces[..n], k);
    } else {
      assert pieces[..k + 1] == pieces;
    }
  }

  /** One call: its source holds an illegal value, and it does not end for want of room. */
  lemma TurnReports(to: Form, flags: ConversionFlags, src: seq<Unit>, c: nat, p: Piece, j: nat)
    requires c <= j < p.upTo <= |src| && Illegal(to, flags, src[j])
    requires Turn(UTF32, to, flags, src, c, p).Result() != TargetExhausted
    ensures Turn(UTF32, to, flags, src, c, p).Result() == SourceIllegal
  {
    hide Scan, Illegal, Needs;
    var part := src[c..p.upTo];
    assert part[j - c] == src[j];
    ReportsExactly(to, flags, part, p.room);
  }

  lemma TurnReported(to: Form, flags: ConversionFlags, src: seq<Unit>, c: nat, p: Piece) returns (j: nat)
    requires c <= |src| && p.upTo <= |src| && Turn(UTF32, to, flags, src, c, p).Result() == SourceIllegal
    ensures c <= j < p.upTo && Illegal(to, flags, src[j])
    ensures var next := c + Turn(UTF32, to, flags, src, c, p).consumed;
            j <= next && (j == next <==> IsSurrogate(src[j]))
  {
    hide Scan, Illegal, Needs;
    var part := src[c..Max(c, p.upTo)];
    ReportsExactly(to, flags, part, p.room);
    PointsAtIllegal(to, flags, part, p.room);
    j := c + FirstIllegal(to, flags, part);
    assert part[j - c] == src[j];
  }

  /** A series of calls reports an illegal value if and only if one of those that were given one does
      not end for want of room. */
  lemma SittingReports(to: Form, flags: ConversionFlags, src: seq<Unit>, pieces: seq<Piece>)
    requires forall p | p in pieces :: p.upTo <= |src|
    ensures SourceIllegal in Answers(UTF32, to, flags, src, pieces) <==>
              exists k, j | 0 <= k < |pieces| && 0 <= j < |src| ::
                && Sees(UTF32, to, flags, src, pieces, k, j) && Illegal(to, flags, src[j])
                && Answers(UTF32, to, flags, src, pieces)[k] != TargetExhausted
  {
    hide Turn, Answers, Illegal, Cursor;
    var codes := Answers(UTF32, to, flags, src, pieces);
    if SourceIllegal in codes {
      var k :| 0 <= k < |codes| && codes[k] == SourceIllegal;
      AnswerAt(UTF32, to, flags, src, pieces, k);
      var j := TurnReported(to, flags, src, Cursor(UTF32, to, flags, src, pieces, k), pieces[k]);
      assert Sees(UTF32, to, flags, src, pieces, k, j);
    }
    forall k, j | 0 <= k < |pieces| && 0 <= j < |src| && Sees(UTF32, to, flags, src, pieces, k, j)
      && Illegal(to, flags, src[j]) && codes[k] != TargetExhausted
      ensures codes[k] == SourceIllegal
    {
      AnswerAt(UTF32, to, flags, src, pieces, k);
      TurnReports(to, flags, src, Cursor(UTF32, to, flags, src, pieces, k), pieces[k], j);
    }
  }

  /** A strict call never passes a surrogate. */
  lemma {:induction false} StopsAtSurrogate(to: Form, src: seq<Unit>, room: nat, j: nat)
    requires j < |src| && IsSurrogate(src[j])
    ensures Scan(UTF32, to, Strict, src, room).consumed <= j
    decreases |src|
  {
    hide Scan, Next;
    var step := Next(UTF32, to, Strict, src);
    ScanStep(UTF32, to, Strict, src, room);
    StepOnValue(to, Strict, src);
    if step.Put? && step.need <= room { StopsAtSurrogate(to, src[1..], room - |step.out|, j - 1); }
  }

  lemma {:induction false} NeverPassed(to: Form, src: seq<Unit>, pieces: seq<Piece>, j: nat)
    requires j < |src| && IsSurrogate(src[j]) && forall p | p in pieces :: p.upTo <= |src|
    ensures Sitting(UTF32, to, Strict, src, pieces).consumed <= j
    decreases |pieces|
  {
    hide Scan;
    if pieces != [] {
      var init, last := pieces[..|pieces| - 1], pieces[|pieces| - 1];
      NeverPassed(to, src, init, j);
      var c := Sitting(UTF32, to, Strict, src, init).consumed;
      if j < last.upTo {
        assert src[c..last.upTo][j - c] == src[j];
        StopsAtSurrogate(to, src[c..last.upTo], last.room, j - c);
      }
    }
  }

  /** A series of calls that has consumed the source has reported nothing if and only if every call
      that took an illegal value ended for want of room. */
  lemma ReportLost(to: Form, flags: ConversionFlags, src: seq<Unit>, pieces: seq<Piece>)
    requires forall p | p in pieces :: p.upTo <= |src|
    requires Sitting(UTF32, to, flags, src, pieces).consumed == |src|
    ensures SourceIllegal !in Answers(UTF32, to, flags, src, pieces) <==>
              forall k, j | 0 <= k < |pieces| && 0 <= j < |src| ::
                Takes(UTF32, to, flags, src, pieces, k, j) && Illegal(to, flags, src[j])
                ==> Answers(UTF32, to, flags, src, pieces)[k] == TargetExhausted
  {
    hide Turn, Answers, Sitting;
    var codes := Answers(UTF32, to, flags, src, pieces);
    if SourceIllegal in codes {
      var k :| 0 <= k < |codes| && codes[k] == SourceIllegal;
      AnswerAt(UTF32, to, flags, src, pieces, k);
      var j := TurnReported(to, flags, src, Cursor(UTF32, to, flags, src, pieces, k), pieces[k]);
      if IsSurrogate(src[j]) { NeverPassed(to, src, pieces, j); }
      assert Takes(UTF32, to, flags, src, pieces, k, j);
    }
    forall k, j | 0 <= k < |pieces| && 0 <= j < |src| && Takes(UTF32, to, flags, src, pieces, k, j)
      && Illegal(to, flags, src[j]) && codes[k] != TargetExhausted
      ensures codes[k] == SourceIllegal
    {
      AnswerAt(UTF32, to, flags, src, pieces, k);
      TurnWithin(UTF32, to, flags, src, Cursor(UTF32, to, flags, src, pieces, k), pieces[k]);
      TurnReports(to, flags, src, Cursor(UTF32, to, flags, src, pieces, k), pieces[k], j);
    }
  }

  lemma TurnWithin(from: Form, to: Form, flags: ConversionFlags, src: seq<Unit>, c: nat, p: Piece)
    requires c <= |src| && p.upTo <= |src|
    ensures c + Turn(from, to, flags, src, c, p).consumed <= Max(c, p.upTo)
  {
    hide Scan;
  }

  lemma {:induction false} Taker(from: Form, to: Form, flags: ConversionFlags, src: seq<Unit>,
                                 pieces: seq<Piece>, j: nat) returns (k: nat)
    requires forall p | p in pieces :: p.upTo <= |src|
    requires j < Sitting(from, to, flags, src, pieces).consumed
    ensures k < |pieces| && Takes(from, to, flags, src, pieces, k, j)
    decreases |pieces|
  {
    hide Turn;
    var init := pieces[..|pieces| - 1];
    assert pieces[..|pieces|] == pieces;
    if j < Sitting(from, to, flags, src, init).consumed {
      k := Taker(from, to, flags, src, init, j);
      assert init[..k] == pieces[..k] && init[..k + 1] == pieces[..k + 1];
    } else {
      k := |pieces| - 1;
    }
  }

  lemma {:induction false} CursorsRise(from: Form, to: Form, flags: ConversionFlags, src: seq<Unit>,
                                       pieces: seq<Piece>, m: nat, k: nat)
    requires m <= k <= |pieces| && forall p | p in pieces :: p.upTo <= |src|
    ensures Cursor(from, to, flags, src, pieces, m) <= Cursor(from, to, flags, src, pieces, k)
    decreases k
  {
    hide Cursor, Turn, Answers;
    if m < k {
      CursorsRise(from, to, flags, src, pieces, m, k - 1);
      AnswerAt(from, to, flags, src, pieces, k - 1);
    }
  }

  /** If a series of calls passes the first illegal value, no call reports one before the call that
      takes it, which reports it if and only if it does not end for want of room. */
  lemma FirstReport(to: Form, flags: ConversionFlags, src: seq<Unit>, pieces: seq<Piece>) returns (k: nat)
    requires forall p | p in pieces :: p.upTo <= |src|
    requires FirstIllegal(to, flags, src) < Sitting(UTF32, to, flags, src, pieces).consumed
    ensures k < |pieces| && Takes(UTF32, to, flags, src, pieces, k, FirstIllegal(to, flags, src))
    ensures var codes := Answers(UTF32, to, flags, src, pieces);
            codes[k] in {SourceIllegal, TargetExhausted} && SourceIllegal !in codes[..k]
  {
    hide Turn, Answers, Sitting;
    var i := FirstIllegal(to, flags, src);
    var codes := Answers(UTF32, to, flags, src, pieces);
    k := Taker(UTF32, to, flags, src, pieces, i);
    AnswerAt(UTF32, to, flags, src, pieces, k);
    TurnWithin(UTF32, to, flags, src, Cursor(UTF32, to, flags, src, pieces, k), pieces[k]);
    if codes[k] != TargetExhausted {
      TurnReports(to, flags, src, Cursor(UTF32, to, flags, src, pieces, k), pieces[k], i);
    }
    forall m | 0 <= m < k ensures codes[m] != SourceIllegal {
      if codes[m] == SourceIllegal { NotBefore(to, flags, src, pieces, m, k); }
    }
  }

  lemma NotBefore(to: Form, flags: ConversionFlags, src: seq<Unit>, pieces: seq<Piece>, m: nat, k: nat)
    requires m < k < |pieces| && forall p | p in pieces :: p.upTo <= |src|
    requires Takes(UTF32, to, flags, src, pieces, k, FirstIllegal(to, flags, src))
    ensures Answers(UTF32, to, flags, src, pieces)[m] != SourceIllegal
  {
    hide Turn, Answers, Sitting;
    AnswerAt(UTF32, to, flags, src, pieces, m);
    CursorsRise(UTF32, to, flags, src, pieces, m + 1, k);
    if Answers(UTF32, to, flags, src, pieces)[m] == SourceIllegal {
      var j := TurnReported(to, flags, src, Cursor(UTF32, to, flags, src, pieces, m), pieces[m]);
      NeverPassed(to, src, pieces[..k + 1], j);
    }
  }

  // ---- Reports that are lost ---------------------------------------------------------

  lemma TwoAnswers(to: Form, flags: ConversionFlags, src: seq<Unit>, p: Piece, q: Piece)
    requires p.upTo <= |src| && q.upTo <= |src|
    ensures var o := Turn(UTF32, to, flags, src, 0, p);
            Answers(UTF32, to, flags, src, [p, q])
            == [o.Result(), Turn(UTF32, to, flags, src, o.consumed, q).Result()]
  {
    hide Turn;
    assert [p, q][..1] == [p] && [p][..0] == [];
    assert Sitting(UTF32, to, flags, src, []) == NOTHING;
    AnswerAt(UTF32, to, flags, src, [p, q], 0);
    AnswerAt(UTF32, to, flags, src, [p, q], 1);
  }

  lemma NoRoomLeft(to: Form, flags: ConversionFlags, src: seq<Unit>, room: nat)
    requires src != [] && room < Next(UTF32, to, flags, src).need
    ensures Scan(UTF32, to, flags, src, room) == Outcome(0, [], false, TargetExhausted)
  {
  }

  /** The first call: an overlarge value, and then a letter that finds no room. */
  lemma OverlargeFirst(flags: ConversionFlags)
    ensures var o := Scan(UTF32, UTF8, flags, [0x11_0000, 0x41], 3); o.consumed == 1 && o.Result() == TargetExhausted
  {
    var src: seq<Unit> := [0x11_0000, 0x41];
    var step := Next(UTF32, UTF8, flags, src);
    assert step.Put? && step.n == 1 && step.need == |step.out| == 3;
    assert src[1..] == [0x41];
    NoRoomLeft(UTF8, flags, [0x41], 0);
    hide Scan, Next;
    ScanStep(UTF32, UTF8, flags, src, 3);
  }

  lemma LetterWithin(to: Form, flags: ConversionFlags, u: Unit, room: nat)
    requires u < 0x80 && room > 0
    ensures Scan(UTF32, to, flags, [u], room) == Outcome(1, [u], false, ConversionOK)
  {
    var step := Next(UTF32, to, flags, [u]);
    assert step == Put(1, [u], 1, false);
    hide Scan, Next;
    ScanStep(UTF32, to, flags, [u], room);
    ScanEmpty(UTF32, to, flags, room - 1);
    assert [u][1..] == [];
  }

  /** With either flag: 0x110000 on its way to UTF-8, with room for it alone, and then the rest. One
      call with room for both reports it, the two calls do not. */
  lemma LostInPieces(flags: ConversionFlags)
    ensures var src: seq<Unit> := [0x11_0000, 0x41];
            && Answers(UTF32, UTF8, flags, src, [Piece(2, 3), Piece(2, 3)]) == [TargetExhausted, ConversionOK]
            && Whole(UTF32, UTF8, flags, src).Result() == SourceIllegal
  {
    hide Scan, Next, Answers;
    var src: seq<Unit> := [0x11_0000, 0x41];
    OverlargeConsumed(flags);
    OverlargeFirst(flags);
    LetterWithin(UTF8, flags, 0x41, 3);
    TwoAnswers(UTF8, flags, src, Piece(2, 3), Piece(2, 3));
    assert src[0..2] == src && src[1..2] == [0x41];
  }

  lemma OverlargeToSixteen()
    ensures var o := Scan(UTF32, UTF16, Strict, [0x11_0000, 0x41, 0x42], 1);
            o.consumed == 2 && o.Result() == TargetExhausted
  {
    var src: seq<Unit> := [0x11_0000, 0x41, 0x42];
    assert src[1..] == [0x41, 0x42] && src[1..][1..] == [0x42];
    assert Next(UTF32, UTF16, Strict, src) == Put(1, [], 1, true);
    assert Next(UTF32, UTF16, Strict, [0x41, 0x42]) == Put(1, [0x41], 1, false);
    NoRoomLeft(UTF16, Strict, [0x42], 0);
    hide Scan, Next;
    ScanStep(UTF32, UTF16, Strict, src, 1);
    ScanStep(UTF32, UTF16, Strict, [0x41, 0x42], 1);
  }

  /** Strict, to UTF-16, room for one unit at a time: text that is not well formed is consumed
      without a report. */
  lemma LostWhenStrict()
    ensures var src: seq<Unit> := [0x11_0000, 0x41, 0x42];
            && Answers(UTF32, UTF16, Strict, src, [Piece(3, 1), Piece(3, 1)]) == [TargetExhausted, ConversionOK]
            && Whole(UTF32, UTF16, Strict, src).Result() == SourceIllegal && !WellFormed(UTF32, src)
  {
    hide Scan, Next, Answers, WellFormed;
    var src: seq<Unit> := [0x11_0000, 0x41, 0x42];
    OverlargeToSixteen();
    LetterWithin(UTF16, Strict, 0x42, 1);
    OverlargeIsReported(src);
    TwoAnswers(UTF16, Strict, src, Piece(3, 1), Piece(3, 1));
    assert src[0..3] == src && src[2..3] == [0x42];
  }

  lemma OverlargeIsReported(src: seq<Unit>)
    requires src != [] && src[0] > 0x10_FFFF
    ensures Whole(UTF32, UTF16, Strict, src).Result() == SourceIllegal && !WellFormed(UTF32, src)
  {
    assert Illegal(UTF16, Strict, src[0]) && Next(UTF32, UTF16, Strict, src) == Put(1, [], 1, true);
    hide Scan, Next, WellFormed, Needs, Illegal;
    StrictStep(UTF32, UTF16, src);
    FourSuffice(UTF32, UTF16, Strict, src);
    ReportsExactly(UTF16, Strict, src, 4 * |src|);
  }
}
