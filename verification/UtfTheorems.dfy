/**
 What the conversions promise together: they translate well-formed text faithfully, in any
 chain and cut into any pieces, and they put out well-formed text.
 */
module UtfTheorems {
  import opened Numbers
  import opened Unicode
  import opened Scanning

  /** A call with all the room it can use. */
  function Whole(from: Form, to: Form, flags: ConversionFlags, src: seq<Unit>): Outcome {
    Scan(from, to, flags, src, 4 * |src|)
  }

  // ---- Well-formed text is translated character by character -------------------------

  lemma StepOnByteChar(to: Form, c: seq<Unit>, rest: seq<Unit>)
    requires IsChar8(c)
    ensures 0 <= Value8(c) < 0x11_0000 && !IsSurrogate(Value8(c))
    ensures Step8(to, c + rest) == PutChar(|c|, to, Value8(c))
  {
    hide Encode, Value8;
    CharIsEncoded8(c);
    AcceptedExactly(c);
    var src := c + rest;
    var n := TrailingBytes(src[0]) + 1;
    assert src[..n] == c;
    assert IsLegalUTF8(src, n) == IsLegalUTF8(c, n);
  }

  lemma StepOnChar(from: Form, to: Form, flags: ConversionFlags, v: Scalar, rest: seq<Unit>)
    ensures Next(from, to, flags, Encode(from, v) + rest) == PutChar(|Encode(from, v)|, to, v)
  {
    EncodeIsChar(from, v);
    var c := Encode(from, v);
    if from == UTF8 { StepOnByteChar(to, c, rest); }
  }

  /** Text that encodes vs comes out as the encoding of vs, whole, with no complaint. */
  lemma {:induction false} EncodedScan(from: Form, to: Form, flags: ConversionFlags, vs: seq<Scalar>, room: nat)
    requires room >= |EncodeAll(to, vs)|
    ensures Scan(from, to, flags, EncodeAll(from, vs), room)
         == Outcome(|EncodeAll(from, vs)|, EncodeAll(to, vs), false, ConversionOK)
  {
    hide Next, Encode, Scan;
    if vs != [] {
      var c, rest := Encode(from, vs[0]), EncodeAll(from, vs[1..]);
      StepOnChar(from, to, flags, vs[0], rest);
      ScanStep(from, to, flags, c + rest, room);
      EncodedScan(from, to, flags, vs[1..], room - |Encode(to, vs[0])|);
      assert (c + rest)[|c|..] == rest;
    } else {
      ScanEmpty(from, to, flags, room);
    }
  }

  lemma {:induction false} EncodedLengths(from: Form, to: Form, vs: seq<Scalar>)
    ensures |EncodeAll(to, vs)| <= 4 * |EncodeAll(from, vs)|
  {
    hide Encode;
    if vs != [] { EncodedLengths(from, to, vs[1..]); }
  }

  lemma WholeOfEncoded(from: Form, to: Form, flags: ConversionFlags, vs: seq<Scalar>)
    ensures Whole(from, to, flags, EncodeAll(from, vs))
         == Outcome(|EncodeAll(from, vs)|, EncodeAll(to, vs), false, ConversionOK)
  {
    EncodedLengths(from, to, vs);
    EncodedScan(from, to, flags, vs, 4 * |EncodeAll(from, vs)|);
  }

  /** There and back: converting well-formed text to another form and back gives it again. */
  lemma RoundTrip(a: Form, b: Form, there: ConversionFlags, back: ConversionFlags, s: seq<Unit>)
    requires WellFormed(a, s)
    ensures var t := Whole(a, b, there, s);
            && t.Result() == ConversionOK && t.consumed == |s|
            && Whole(b, a, back, t.out) == Outcome(|t.out|, s, false, ConversionOK)
  {
    var vs := WellFormedIsEncoded(a, s);
    WholeOfEncoded(a, b, there, vs);
    WholeOfEncoded(b, a, back, vs);
  }

  /** On well-formed text the direct conversion equals the one through a third form. */
  lemma Commutes(a: Form, b: Form, c: Form, f: ConversionFlags, g: ConversionFlags, h: ConversionFlags,
                 s: seq<Unit>)
    requires WellFormed(a, s)
    ensures Whole(a, c, f, s).out == Whole(b, c, h, Whole(a, b, g, s).out).out
    ensures Whole(a, c, f, s).Result() == Whole(b, c, h, Whole(a, b, g, s).out).Result() == ConversionOK
  {
    var vs := WellFormedIsEncoded(a, s);
    WholeOfEncoded(a, c, f, vs);
    WholeOfEncoded(a, b, g, vs);
    WholeOfEncoded(b, c, h, vs);
  }

  // ---- Cutting source and target into pieces -----------------------------------------

  /** What a cut-off source makes a step do, the whole source makes it do as well. */
  lemma StepOfPrefix(from: Form, to: Form, flags: ConversionFlags, src: seq<Unit>, k: nat)
    requires 0 < k <= |src|
    ensures var short := Next(from, to, flags, src[..k]);
            short != Halt(SourceExhausted, 0) ==> Next(from, to, flags, src) == short
  {
    hide Encode, Value8;
    if from == UTF8 {
      var n := TrailingBytes(src[0]) + 1;
      if n <= k {
        assert src[..k][..n] == src[..n];
        assert IsLegalUTF8(src, n) == IsLegalUTF8(src[..k], n);
      }
    }
  }

  /** Room beyond four units for every source unit makes no difference. */
  lemma {:induction false} Enough(from: Form, to: Form, flags: ConversionFlags, src: seq<Unit>, room: nat)
    requires room >= 4 * |src|
    ensures Scan(from, to, flags, src, room) == Whole(from, to, flags, src)
    decreases |src|
  {
    hide Next, Scan;
    if src != [] {
      var step := Next(from, to, flags, src);
      ScanStep(from, to, flags, src, room);
      ScanStep(from, to, flags, src, 4 * |src|);
      if step.Put? {
        Enough(from, to, flags, src[step.n..], room - |step.out|);
        Enough(from, to, flags, src[step.n..], 4 * |src| - |step.out|);
      }
    } else {
      ScanEmpty(from, to, flags, room);
      ScanEmpty(from, to, flags, 0);
    }
  }

  lemma WholeStep(from: Form, to: Form, flags: ConversionFlags, src: seq<Unit>, step: Step)
    requires src != [] && step == Next(from, to, flags, src) && step.Put?
    ensures Whole(from, to, flags, src) == Then(Taken(step), Whole(from, to, flags, src[step.n..]))
  {
    hide Next, Scan;
    ScanStep(from, to, flags, src, 4 * |src|);
    Enough(from, to, flags, src[step.n..], 4 * |src| - |step.out|);
  }

  /**
   Resuming: whatever part of the source and however little room a call was given, converting
   what it left over completes its output to that of one call on the whole source. (An Outcome keeps
   whether an illegal value was let by; what the calls themselves report is another matter.)
   */
  lemma {:induction false} Resume(from: Form, to: Form, flags: ConversionFlags, src: seq<Unit>, k: nat, room: nat)
    requires k <= |src|
    ensures var o := Scan(from, to, flags, src[..k], room);
            Whole(from, to, flags, src) == Then(o, Whole(from, to, flags, src[o.consumed..]))
    decreases |src|
  {
    hide Next, Scan, Whole, Then, Taken;
    var o := Scan(from, to, flags, src[..k], room);
    if o.consumed == 0 {
      assert src[0..] == src;
      StuckWritesNothing(from, to, flags, src[..k], room);
      ResumeFromStart(o, Whole(from, to, flags, src));
    } else {
      var step := Next(from, to, flags, src[..k]);
      Moving(from, to, flags, src[..k], room);
      var rest := src[step.n..];
      StepOfPrefix(from, to, flags, src, k);
      var o' := Scan(from, to, flags, rest[..k - step.n], room - |step.out|);
      TailOfPart(src, k, step.n);
      TailOfTail(src, step.n, o'.consumed);
      Resume(from, to, flags, rest, k - step.n, room - |step.out|);
      WholeStep(from, to, flags, src, step);
      ThenAssociative(Taken(step), o', Whole(from, to, flags, rest[o'.consumed..]));
    }
  }

  lemma TailOfPart(src: seq<Unit>, k: nat, n: nat)
    requires n <= k <= |src|
    ensures src[..k][n..] == src[n..][..k - n]
  {
  }

  lemma TailOfTail(src: seq<Unit>, n: nat, m: nat)
    requires n + m <= |src|
    ensures src[n..][m..] == src[n + m..]
  {
  }

  /** A call that consumed something took the first step, and went on from there. */
  lemma Moving(from: Form, to: Form, flags: ConversionFlags, src: seq<Unit>, room: nat)
    requires Scan(from, to, flags, src, room).consumed > 0
    ensures src != [] && var step, o := Next(from, to, flags, src), Scan(from, to, flags, src, room);
            && step.Put? && |step.out| <= room
            && var o' := Scan(from, to, flags, src[step.n..], room - |step.out|);
               o == Then(Taken(step), o') && o.consumed == step.n + o'.consumed
  {
    hide Next;
  }

  lemma ResumeFromStart(o: Outcome, w: Outcome)
    requires o.consumed == 0 && o.out == [] && !o.flagged
    ensures Then(o, w) == w
  {
    assert [] + w.out == w.out;
  }

  lemma StuckWritesNothing(from: Form, to: Form, flags: ConversionFlags, src: seq<Unit>, room: nat)
    ensures var o := Scan(from, to, flags, src, room); o.consumed == 0 ==> o.out == [] && !o.flagged
  {
    hide Next;
  }

  /** One call of a sitting: the source is known up to `upTo`, and the target has `room`. */
  datatype Piece = Piece(upTo: nat, room: nat)

  /** The call that begins at c. */
  function Turn(from: Form, to: Form, flags: ConversionFlags, src: seq<Unit>, c: nat, p: Piece): (o: Outcome)
    requires c <= |src| && p.upTo <= |src|
    ensures c + o.consumed <= |src|
  {
    Scan(from, to, flags, src[c..Max(c, p.upTo)], p.room)
  }

  /** Calls one after another, each from where the last one stopped. */
  function Sitting(from: Form, to: Form, flags: ConversionFlags, src: seq<Unit>, pieces: seq<Piece>): (o: Outcome)
    requires forall p | p in pieces :: p.upTo <= |src|
    ensures o.consumed <= |src|
  {
    if pieces == [] then NOTHING
    else
      var before := Sitting(from, to, flags, src, pieces[..|pieces| - 1]);
      Then(before, Turn(from, to, flags, src, before.consumed, pieces[|pieces| - 1]))
  }

  /** However a conversion is cut into calls, what it has put out and what is left make up the whole. */
  lemma {:induction false} SittingIsPart(from: Form, to: Form, flags: ConversionFlags, src: seq<Unit>,
                                         pieces: seq<Piece>)
    requires forall p | p in pieces :: p.upTo <= |src|
    ensures var o := Sitting(from, to, flags, src, pieces);
            Whole(from, to, flags, src) == Then(o, Whole(from, to, flags, src[o.consumed..]))
  {
    hide Scan, Next;
    if pieces == [] {
      assert src[0..] == src;
      ResumeFromStart(NOTHING, Whole(from, to, flags, src));
    } else {
      var before := Sitting(from, to, flags, src, pieces[..|pieces| - 1]);
      SittingIsPart(from, to, flags, src, pieces[..|pieces| - 1]);
      var last := pieces[|pieces| - 1];
      var upTo := Max(before.consumed, last.upTo);
      var rest := src[before.consumed..];
      assert src[before.consumed..upTo] == rest[..upTo - before.consumed];
      Resume(from, to, flags, rest, upTo - before.consumed, last.room);
      var o := Scan(from, to, flags, rest[..upTo - before.consumed], last.room);
      assert rest[o.consumed..] == src[before.consumed + o.consumed..];
      ThenAssociative(before, o, Whole(from, to, flags, rest[o.consumed..]));
    }
  }

  /** A sitting that has come to the end of the source has put out what one call puts out. */
  lemma SittingIsWhole(from: Form, to: Form, flags: ConversionFlags, src: seq<Unit>, pieces: seq<Piece>)
    requires forall p | p in pieces :: p.upTo <= |src|
    requires Sitting(from, to, flags, src, pieces).consumed == |src|
    ensures var o, w := Sitting(from, to, flags, src, pieces), Whole(from, to, flags, src);
            w.consumed == |src| && w.out == o.out && w.flagged == o.flagged && w.stop == ConversionOK
  {
    SittingIsPart(from, to, flags, src, pieces);
    assert src[|src|..] == [];
  }

  /** A piece with room for the next character gets on, unless the source itself holds it up. */
  lemma PieceGetsOn(from: Form, to: Form, flags: ConversionFlags, src: seq<Unit>, room: nat)
    requires src != [] && room >= Next(from, to, flags, src).need
    ensures var o, step := Scan(from, to, flags, src, room), Next(from, to, flags, src);
            if step.Put? then o.consumed > 0 else o.consumed == 0 && o.stop == step.result
  {
    hide Next;
  }

  /** Well-formed text begins with the encoding of a character, and is well formed behind it. */
  lemma FirstEncoded(from: Form, src: seq<Unit>) returns (v: Scalar)
    requires src != [] && WellFormed(from, src)
    ensures var n := |Encode(from, v)|;
            && n <= |src| && src == Encode(from, v) + src[n..]
            && IsChar(from, src[..n]) && WellFormed(from, src[n..])
  {
    hide Encode, IsChar, WellFormed;
    var n := FirstLength(from, src);
    CharIsEncoded(from, src[..n]);
    v := Value(from, src[..n]);
  }

  /** A source whose well-formed text is complete never holds a piece up. */
  lemma WellFormedGetsOn(from: Form, to: Form, flags: ConversionFlags, src: seq<Unit>)
    requires src != [] && WellFormed(from, src)
    ensures Next(from, to, flags, src).Put?
    ensures var n := Next(from, to, flags, src).n; IsChar(from, src[..n]) && WellFormed(from, src[n..])
  {
    hide Encode, IsChar, WellFormed;
    var v := FirstEncoded(from, src);
    StepOnChar(from, to, flags, v, src[|Encode(from, v)|..]);
  }

  lemma WellFormedPrepend(form: Form, c: seq<Unit>, rest: seq<Unit>)
    requires IsChar(form, c) && WellFormed(form, rest)
    ensures WellFormed(form, c + rest)
  {
    assert (c + rest)[..|c|] == c && (c + rest)[|c|..] == rest;
  }

  /** However the source and the target are cut: what a call consumes of well-formed text is whole
      characters, and so is what it leaves. */
  lemma {:induction false} CutsBetweenChars(from: Form, to: Form, flags: ConversionFlags, src: seq<Unit>,
                                            k: nat, room: nat)
    requires k <= |src| && WellFormed(from, src)
    ensures var o := Scan(from, to, flags, src[..k], room);
            WellFormed(from, src[..o.consumed]) && WellFormed(from, src[o.consumed..])
    decreases |src|
  {
    hide Next, Scan, WellFormed, IsChar;
    if Scan(from, to, flags, src[..k], room).consumed == 0 {
      NothingIsWellFormed(from);
      assert src[0..] == src;
    } else {
      WellFormedGetsOn(from, to, flags, src);
      ScanOfPrefix(from, to, flags, src, k, room);
      var step := Next(from, to, flags, src);
      CutsBetweenChars(from, to, flags, src[step.n..], k - step.n, room - |step.out|);
      var c := Scan(from, to, flags, src[step.n..][..k - step.n], room - |step.out|).consumed;
      OneCharMore(from, src, step.n, c);
    }
  }

  /** A call on a prefix that gets on takes the first step of the whole text. */
  lemma ScanOfPrefix(from: Form, to: Form, flags: ConversionFlags, src: seq<Unit>, k: nat, room: nat)
    requires k <= |src| && Scan(from, to, flags, src[..k], room).consumed > 0
    ensures src != [] && Next(from, to, flags, src).Put?
    ensures var step := Next(from, to, flags, src);
            && step.n <= k && |step.out| <= room
            && Scan(from, to, flags, src[..k], room).consumed
               == step.n + Scan(from, to, flags, src[step.n..][..k - step.n], room - |step.out|).consumed
  {
    hide Next, Scan;
    ScanEmpty(from, to, flags, room);
    ScanStep(from, to, flags, src[..k], room);
    StepOfPrefix(from, to, flags, src, k);
    var step := Next(from, to, flags, src);
    assert src[..k][step.n..] == src[step.n..][..k - step.n];
  }

  lemma OneCharMore(form: Form, src: seq<Unit>, n: nat, c: nat)
    requires n + c <= |src| && IsChar(form, src[..n])
    requires WellFormed(form, src[n..][..c]) && WellFormed(form, src[n..][c..])
    ensures WellFormed(form, src[..n + c]) && WellFormed(form, src[n + c..])
  {
    hide WellFormed, IsChar;
    assert src[n..][c..] == src[n + c..] && src[..n + c] == src[..n] + src[n..][..c];
    WellFormedPrepend(form, src[..n], src[n..][..c]);
  }

  lemma NothingIsWellFormed(form: Form)
    ensures WellFormed(form, [])
  {
  }

  /** Where a call stops, its output is the conversion of exactly the source it has consumed;
      the one exception is a lenient UTF-16 call that has just let an unpaired high surrogate by. */
  lemma {:induction false} StopsOnBoundary(from: Form, to: Form, flags: ConversionFlags, src: seq<Unit>, room: nat)
    ensures var o := Scan(from, to, flags, src, room);
            Whole(from, to, flags, src[..o.consumed]) == o.(stop := ConversionOK)
            <==> !(from == UTF16 && o.consumed > 0 && IsHigh(src[o.consumed - 1]))
    decreases |src|
  {
    hide Next, Scan;
    var o := Scan(from, to, flags, src, room);
    if o.consumed == 0 {
      ScanEmpty(from, to, flags, 0);
      StuckWritesNothing(from, to, flags, src, room);
    } else {
      ScanStep(from, to, flags, src, room);
      var step := Next(from, to, flags, src);
      var made := src[..o.consumed];
      StepOfConsumed(from, to, flags, src, o.consumed);
      if Next(from, to, flags, made) == step {
        WholeStep(from, to, flags, made, step);
        StopsOnBoundary(from, to, flags, src[step.n..], room - |step.out|);
        BoundaryStep(from, to, flags, src, room, step);
      } else {
        assert made == [src[0]];
        ScanStep(from, to, flags, made, 4);
      }
    }
  }

  /** The output of the call is the conversion of exactly the source it has consumed. */
  ghost predicate OnBoundary(from: Form, to: Form, flags: ConversionFlags, src: seq<Unit>, room: nat) {
    var o := Scan(from, to, flags, src, room);
    Whole(from, to, flags, src[..o.consumed]) == o.(stop := ConversionOK)
  }

  /** A high surrogate that is not followed by a low one, before the last unit. */
  predicate Unpaired(src: seq<Unit>) {
    exists i :: 0 <= i < |src| - 1 && IsHigh(src[i]) && !IsLow(src[i + 1])
  }

  /** Only a lenient call consumes a high surrogate last, and only one that is not paired. */
  lemma {:induction false} LastConsumed(to: Form, flags: ConversionFlags, src: seq<Unit>, room: nat)
    requires var c := Scan(UTF16, to, flags, src, room).consumed; c > 0 && IsHigh(src[c - 1])
    ensures var c := Scan(UTF16, to, flags, src, room).consumed;
            flags == Lenient && c < |src| && !IsLow(src[c])
    decreases |src|
  {
    hide Scan, Encode;
    ScanStep(UTF16, to, flags, src, room);
    var step := Next(UTF16, to, flags, src);
    var rest := src[step.n..];
    if Scan(UTF16, to, flags, rest, room - |step.out|).consumed > 0 {
      LastConsumed(to, flags, rest, room - |step.out|);
    }
  }

  lemma LastUnpaired(to: Form, flags: ConversionFlags, src: seq<Unit>, room: nat)
    requires var c := Scan(UTF16, to, flags, src, room).consumed; c > 0 && IsHigh(src[c - 1])
    ensures flags == Lenient && Unpaired(src)
  {
    hide Scan;
    LastConsumed(to, flags, src, room);
    var i := Scan(UTF16, to, flags, src, room).consumed - 1;
    assert IsHigh(src[i]) && !IsLow(src[i + 1]);
  }

  /** A strict call stops on a boundary whatever the source and the room, and so does every call on
      a source that is not UTF-16. */
  lemma StrictOnBoundary(from: Form, to: Form, flags: ConversionFlags, src: seq<Unit>, room: nat)
    requires flags == Strict || from != UTF16
    ensures OnBoundary(from, to, flags, src, room)
  {
    hide Scan, Whole;
    StopsOnBoundary(from, to, flags, src, room);
    var c := Scan(from, to, flags, src, room).consumed;
    if from == UTF16 && c > 0 && IsHigh(src[c - 1]) { LastConsumed(to, flags, src, room); }
  }

  /** On well-formed text every call stops on a boundary, and between two characters. */
  lemma WellFormedOnBoundary(from: Form, to: Form, flags: ConversionFlags, src: seq<Unit>, room: nat)
    requires WellFormed(from, src)
    ensures OnBoundary(from, to, flags, src, room)
    ensures var c := Scan(from, to, flags, src, room).consumed; WellFormed(from, src[..c]) && WellFormed(from, src[c..])
  {
    hide Scan, Whole;
    StopsOnBoundary(from, to, flags, src, room);
    assert src[..|src|] == src;
    CutsBetweenChars(from, to, flags, src, |src|, room);
    var c := Scan(from, to, flags, src, room).consumed;
    if from == UTF16 && c > 0 {
      NoHighEnd(src[..c]);
      assert src[..c][c - 1] == src[c - 1];
    }
  }

  lemma {:induction false} NoHighEnd(s: seq<Unit>)
    requires WellFormed(UTF16, s) && s != []
    ensures !IsHigh(s[|s| - 1])
    decreases |s|
  {
    var n := FirstLength(UTF16, s);
    if n < |s| { NoHighEnd(s[n..]); }
  }

  /** The room with which a lenient call stops right behind an unpaired high surrogate. */
  lemma {:induction false} RoomFor(to: Form, src: seq<Unit>, i: nat) returns (room: nat)
    requires i < |src| - 1 && IsHigh(src[i]) && !IsLow(src[i + 1])
    ensures Scan(UTF16, to, Lenient, src, room).consumed == i + 1
    decreases |src|
  {
    hide Scan, Encode;
    var step := Next(UTF16, to, Lenient, src);
    assert step.Put? && step.need == |step.out|;
    var rest := src[step.n..];
    if i == 0 {
      room := step.need;
      ScanStep(UTF16, to, Lenient, rest, 0);
      NextNeeds(to, rest);
    } else {
      assert step.n <= i;
      var more := RoomFor(to, rest, i - step.n);
      room := |step.out| + more;
    }
    ScanStep(UTF16, to, Lenient, src, room);
  }

  lemma NextNeeds(to: Form, src: seq<Unit>)
    requires src != []
    ensures var step := Next(UTF16, to, Lenient, src); step.Put? ==> step.need > 0
  {
  }

  /** A call stops on a boundary with every room if and only if its source is not UTF-16 read
      leniently with an unpaired high surrogate before its last unit. */
  lemma BoundaryExactly(from: Form, to: Form, flags: ConversionFlags, src: seq<Unit>)
    ensures (forall room: nat :: OnBoundary(from, to, flags, src, room))
            <==> !(from == UTF16 && flags == Lenient && Unpaired(src))
  {
    hide Scan, Whole;
    if from == UTF16 && flags == Lenient && Unpaired(src) {
      var i :| 0 <= i < |src| - 1 && IsHigh(src[i]) && !IsLow(src[i + 1]);
      var room := RoomFor(to, src, i);
      StopsOnBoundary(from, to, flags, src, room);
      assert !OnBoundary(from, to, flags, src, room);
    } else {
      forall room: nat ensures OnBoundary(from, to, flags, src, room) {
        StopsOnBoundary(from, to, flags, src, room);
        var c := Scan(from, to, flags, src, room).consumed;
        if from == UTF16 && c > 0 && IsHigh(src[c - 1]) { LastUnpaired(to, flags, src, room); }
      }
    }
  }

  /** D800 0041 with room for one unit: the call puts out D800, and would not have put it out had
      the source ended where it stopped. */
  lemma OffBoundary()
    ensures var src: seq<Unit> := [0xD800, 0x41];
            && Scan(UTF16, UTF32, Lenient, src, 1) == Outcome(1, [0xD800], false, TargetExhausted)
            && Whole(UTF16, UTF32, Lenient, src[..1]) == Outcome(0, [], false, SourceExhausted)
  {
    var src: seq<Unit> := [0xD800, 0x41];
    assert src[..1] == [0xD800] && src[1..] == [0x41];
    ScanStep(UTF16, UTF32, Lenient, src, 1);
    ScanStep(UTF16, UTF32, Lenient, src[1..], 0);
    ScanStep(UTF16, UTF32, Lenient, src[..1], 4);
    hide Scan;
  }

  /** From c on, the piece shows the next character, and has room for it. */
  predicate Shows(from: Form, to: Form, flags: ConversionFlags, src: seq<Unit>, p: Piece, c: nat) {
    c < |src| ==> var step := Next(from, to, flags, src[c..]); step.Put? && c + step.n <= p.upTo && step.need <= p.room
  }

  /** A sitting of pieces that each show the next character, and have room for it, comes to the end
      of well-formed text in no more pieces than the text has units. */
  lemma {:induction false} SittingArrives(from: Form, to: Form, flags: ConversionFlags, src: seq<Unit>,
                                          pieces: seq<Piece>)
    requires WellFormed(from, src) && forall p | p in pieces :: p.upTo <= |src|
    requires forall k | 0 <= k < |pieces| ::
               Shows(from, to, flags, src, pieces[k], Sitting(from, to, flags, src, pieces[..k]).consumed)
    ensures var c := Sitting(from, to, flags, src, pieces).consumed;
            WellFormed(from, src[c..]) && (c == |src| || c >= |pieces|)
    decreases |pieces|
  {
    hide Next, Scan, WellFormed, Shows, Sitting;
    if pieces == [] {
      SittingNone(from, to, flags, src);
      assert src[0..] == src;
    } else {
      var last := |pieces| - 1;
      var init := pieces[..last];
      forall k | 0 <= k < |init|
        ensures Shows(from, to, flags, src, init[k], Sitting(from, to, flags, src, init[..k]).consumed)
      {
        assert init[..k] == pieces[..k];
      }
      SittingArrives(from, to, flags, src, init);
      SittingLast(from, to, flags, src, pieces);
      OnePieceMore(from, to, flags, src, Sitting(from, to, flags, src, init).consumed, pieces[last]);
    }
  }

  lemma SittingNone(from: Form, to: Form, flags: ConversionFlags, src: seq<Unit>)
    ensures Sitting(from, to, flags, src, []).consumed == 0
  {
  }

  lemma SittingLast(from: Form, to: Form, flags: ConversionFlags, src: seq<Unit>, pieces: seq<Piece>)
    requires pieces != [] && forall p | p in pieces :: p.upTo <= |src|
    ensures var last := pieces[|pieces| - 1];
            var c := Sitting(from, to, flags, src, pieces[..|pieces| - 1]).consumed;
            Sitting(from, to, flags, src, pieces).consumed == c + Turn(from, to, flags, src, c, last).consumed
  {
    hide Scan;
  }

  lemma OnePieceMore(from: Form, to: Form, flags: ConversionFlags, src: seq<Unit>, c: nat, p: Piece)
    requires c <= |src| && WellFormed(from, src[c..]) && p.upTo <= |src| && Shows(from, to, flags, src, p, c)
    ensures var n := Turn(from, to, flags, src, c, p).consumed;
            WellFormed(from, src[c + n..]) && (c + n == |src| || n > 0)
  {
    hide Next, Scan, WellFormed, IsChar;
    var upTo := Max(c, p.upTo);
    var rest := src[c..];
    assert src[c..upTo] == rest[..upTo - c];
    CutsBetweenChars(from, to, flags, rest, upTo - c, p.room);
    var n := Scan(from, to, flags, rest[..upTo - c], p.room).consumed;
    assert rest[n..] == src[c + n..];
    if c < |src| {
      var step := Next(from, to, flags, rest);
      WellFormedGetsOn(from, to, flags, rest);
      StepOfPrefixChar(from, to, flags, rest, upTo - c);
      PieceGetsOn(from, to, flags, rest[..upTo - c], p.room);
    }
  }

  /** A prefix that shows the first character makes a step do what the whole text makes it do. */
  lemma StepOfPrefixChar(from: Form, to: Form, flags: ConversionFlags, src: seq<Unit>, k: nat)
    requires src != [] && WellFormed(from, src) && k <= |src|
    requires Next(from, to, flags, src).Put? && Next(from, to, flags, src).n <= k
    ensures k > 0 && Next(from, to, flags, src[..k]) == Next(from, to, flags, src)
  {
    hide Next, Encode, IsChar, WellFormed;
    var v := FirstEncoded(from, src);
    var n := |Encode(from, v)|;
    StepOnChar(from, to, flags, v, src[n..]);
    StepOnChar(from, to, flags, v, src[n..k]);
    assert src[..k] == Encode(from, v) + src[n..k];
  }

  /** The boundary holds behind a step if and only if it holds for the source after the step. */
  lemma BoundaryStep(from: Form, to: Form, flags: ConversionFlags, src: seq<Unit>, room: nat, step: Step)
    requires src != [] && step == Next(from, to, flags, src) && step.Put? && step.need <= room
    requires var made := src[..Scan(from, to, flags, src, room).consumed];
             made != [] && Next(from, to, flags, made) == step
    requires from == UTF32 ==>
               var o' := Scan(from, to, flags, src[step.n..], room - |step.out|);
               Whole(from, to, flags, src[step.n..][..o'.consumed]) == o'.(stop := ConversionOK)
    ensures var o, rest := Scan(from, to, flags, src, room), src[step.n..];
            var o' := Scan(from, to, flags, rest, room - |step.out|);
            && o == Then(Taken(step), o')
            && src[..o.consumed][step.n..] == rest[..o'.consumed]
            && (Then(Taken(step), Whole(from, to, flags, rest[..o'.consumed])) == o.(stop := ConversionOK)
                <==> Whole(from, to, flags, rest[..o'.consumed]) == o'.(stop := ConversionOK))
            && ((from == UTF16 && IsHigh(src[o.consumed - 1]))
                <==> (from == UTF16 && o'.consumed > 0 && IsHigh(rest[o'.consumed - 1])))
  {
    hide Next, Scan;
    ScanStep(from, to, flags, src, room);
    var o, rest := Scan(from, to, flags, src, room), src[step.n..];
    var o' := Scan(from, to, flags, rest, room - |step.out|);
    var w := Whole(from, to, flags, rest[..o'.consumed]);
    if o'.consumed == 0 {
      StuckWritesNothing(from, to, flags, rest, room - |step.out|);
      LastUnit(from, to, flags, src, src[..o.consumed]);
      ScanEmpty(from, to, flags, 0);
    }
    if from != UTF32 {
      NeverFlagged(from, to, flags, rest, room - |step.out|);
      NeverFlagged(from, to, flags, rest[..o'.consumed], 4 * o'.consumed);
    }
    CancelThen(Taken(step), w, o'.(stop := ConversionOK));
  }

  /** Only the conversions from UTF-32 flag what they let by. */
  lemma {:induction false} NeverFlagged(from: Form, to: Form, flags: ConversionFlags, src: seq<Unit>, room: nat)
    requires from != UTF32
    ensures !Scan(from, to, flags, src, room).flagged
    decreases |src|
  {
    hide Scan, Encode, Value8;
    if src == [] {
      ScanEmpty(from, to, flags, room);
    } else {
      var step := Next(from, to, flags, src);
      ScanStep(from, to, flags, src, room);
      if step.Put? && step.need <= room { NeverFlagged(from, to, flags, src[step.n..], room - |step.out|); }
    }
  }

  lemma CancelThen(a: Outcome, b: Outcome, c: Outcome)
    requires b.flagged == c.flagged
    ensures Then(a, b) == Then(a, c) <==> b == c
  {
    if a.out + b.out == a.out + c.out {
      assert b.out == (a.out + b.out)[|a.out|..];
      assert c.out == (a.out + c.out)[|a.out|..];
    }
  }

  /** Once a step has been taken in whole, cutting the source behind it changes nothing, except
      for an unpaired high surrogate left at the very end. */
  lemma StepOfConsumed(from: Form, to: Form, flags: ConversionFlags, src: seq<Unit>, c: nat)
    requires src != [] && Next(from, to, flags, src).Put? && Next(from, to, flags, src).n <= c <= |src|
    ensures if from == UTF16 && c == 1 && IsHigh(src[0])
            then Next(from, to, flags, src[..c]) == Halt(SourceExhausted, 0)
            else Next(from, to, flags, src[..c]) == Next(from, to, flags, src)
  {
    hide Encode, Value8;
    if from == UTF8 {
      var n := TrailingBytes(src[0]) + 1;
      assert src[..c][..n] == src[..n];
      assert IsLegalUTF8(src, n) == IsLegalUTF8(src[..c], n);
    }
  }

  lemma LastUnit(from: Form, to: Form, flags: ConversionFlags, src: seq<Unit>, made: seq<Unit>)
    requires src != [] && Next(from, to, flags, src).Put?
    requires made == src[..Next(from, to, flags, src).n]
    requires Next(from, to, flags, made) == Next(from, to, flags, src)
    ensures !(from == UTF16 && IsHigh(made[|made| - 1]))
  {
    hide Encode, Value8;
    assert |made| == 1 ==> made == [src[0]];
  }
}
