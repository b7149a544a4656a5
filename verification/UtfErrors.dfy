/**
 Which result malformed text gets, where the call stops, and what takes the place of a value that
 no character has; told by the bytes and units alone.
 */
module UtfErrors {
  import opened Unicode
  import opened Scanning
  import opened UtfTheorems
  import opened UtfLimits
  import opened UtfReports

  // ---- UTF-8 -------------------------------------------------------------------------

  /** The lead byte announces more bytes than are there. */
  predicate CutOff(s: seq<Unit>) { s != [] && TrailingBytes(s[0]) >= |s| }

  /** The bytes are there, and are no legal sequence. */
  predicate Malformed(s: seq<Unit>) {
    s != [] && TrailingBytes(s[0]) < |s| && !IsLegalUTF8Sequence(s)
  }

  /** How much of the text is a run of legal sequences, up to the first that is none. */
  function LegalPart(s: seq<Unit>): (n: nat)
    ensures n <= |s| && (n == |s| || CutOff(s[n..]) || Malformed(s[n..]))
    decreases |s|
  {
    if s == [] || !IsLegalUTF8Sequence(s) then 0
    else
      var k := TrailingBytes(s[0]) + 1;
      assert forall n: nat | n <= |s| - k :: s[k..][n..] == s[k + n..];
      k + LegalPart(s[k..])
  }

  lemma {:induction false} LegalPartAccepted(s: seq<Unit>)
    ensures AllAccepted(s[..LegalPart(s)])
    decreases |s|
  {
    if s != [] && IsLegalUTF8Sequence(s) {
      var k := TrailingBytes(s[0]) + 1;
      var n := LegalPart(s[k..]);
      LegalPartAccepted(s[k..]);
      assert s[..k + n][k..] == s[k..][..n];
      assert IsLegalUTF8(s[..k + n], k) == IsLegalUTF8(s, k);
    }
  }

  /** The legal part is the only run of legal sequences that ends where the text goes wrong. */
  lemma {:induction false} LegalPartUnique(s: seq<Unit>, n: nat)
    requires n <= |s| && AllAccepted(s[..n]) && (n == |s| || CutOff(s[n..]) || Malformed(s[n..]))
    ensures n == LegalPart(s)
    decreases |s|
  {
    if n > 0 {
      var k := TrailingBytes(s[0]) + 1;
      assert IsLegalUTF8(s[..n], k) == IsLegalUTF8(s, k);
      assert s[..n][k..] == s[k..][..n - k] && s[k..][n - k..] == s[n..];
      LegalPartUnique(s[k..], n - k);
    } else {
      assert s[0..] == s;
    }
  }

  lemma {:induction false} BytesStop(to: Form, flags: ConversionFlags, s: seq<Unit>)
    ensures var o, n := Whole(UTF8, to, flags, s), LegalPart(s);
            o.consumed == n && !o.flagged
            && o.stop == if n == |s| then ConversionOK else if CutOff(s[n..]) then SourceExhausted else SourceIllegal
    decreases |s|
  {
    hide Scan, Encode, Value8, Whole;
    if s == [] {
      WholeEmpty(UTF8, to, flags);
    } else {
      var step := Next(UTF8, to, flags, s);
      WholeHalts(UTF8, to, flags, s);
      if step.Put? {
        WholeStep(UTF8, to, flags, s, step);
        BytesStop(to, flags, s[step.n..]);
        var n := LegalPart(s[step.n..]);
        assert s[step.n..][n..] == s[step.n + n..];
      } else {
        assert s[0..] == s;
      }
    }
  }

  lemma WholeEmpty(from: Form, to: Form, flags: ConversionFlags)
    ensures Whole(from, to, flags, []) == NOTHING
  {
    ScanEmpty(from, to, flags, 0);
  }

  lemma WholeHalts(from: Form, to: Form, flags: ConversionFlags, src: seq<Unit>)
    requires src != []
    ensures var step := Next(from, to, flags, src);
            step.Halt? ==> Whole(from, to, flags, src) == Outcome(0, [], false, step.result)
  {
    hide Next, Scan;
    ScanStep(from, to, flags, src, 4 * |src|);
  }

  /** With ample room, UTF-8 is reported illegal if and only if a run of legal sequences is followed by
      bytes that are all there and are none; exhausted, if and only if it is followed by a sequence
      that is cut off. In both cases the call stops behind the run. */
  lemma BytesEndExactly(to: Form, flags: ConversionFlags, s: seq<Unit>)
    ensures var o := Whole(UTF8, to, flags, s);
            && (o.Result() == SourceIllegal <==>
                  exists n: nat | n <= |s| :: AllAccepted(s[..n]) && Malformed(s[n..]))
            && (o.Result() == SourceExhausted <==>
                  exists n: nat | n <= |s| :: AllAccepted(s[..n]) && CutOff(s[n..]))
            && (o.Result() == ConversionOK <==> AllAccepted(s))
            && forall n: nat | n <= |s| && AllAccepted(s[..n]) && (Malformed(s[n..]) || CutOff(s[n..])) ::
                 o.consumed == n
  {
    hide Whole, AllAccepted;
    BytesStop(to, flags, s);
    LegalPartAccepted(s);
    forall n: nat | n <= |s| && AllAccepted(s[..n]) && (n == |s| || Malformed(s[n..]) || CutOff(s[n..]))
      ensures n == LegalPart(s)
    {
      LegalPartUnique(s, n);
    }
    assert s[..|s|] == s && s[|s|..] == [];
  }

  // ---- UTF-16 ------------------------------------------------------------------------

  predicate Words(s: seq<Unit>) { forall i | 0 <= i < |s| :: s[i] < 0x1_0000 }

  /** A high surrogate with nothing behind it. */
  predicate HighAtEnd(s: seq<Unit>) { |s| == 1 && 0xD800 <= s[0] <= 0xDBFF }

  /** A low surrogate, or a high one with something else than a low one behind it. */
  predicate NoPair(s: seq<Unit>) {
    || (s != [] && 0xDC00 <= s[0] <= 0xDFFF)
    || (|s| > 1 && 0xD800 <= s[0] <= 0xDBFF && !(0xDC00 <= s[1] <= 0xDFFF))
  }

  /** How much of the text is whole characters, up to the first surrogate that has no partner. */
  function PairedPart(s: seq<Unit>): (n: nat)
    ensures n <= |s| && (n == |s| || HighAtEnd(s[n..]) || NoPair(s[n..]))
    decreases |s|
  {
    if s == [] || HighAtEnd(s) || NoPair(s) then 0
    else
      var k := if 0xD800 <= s[0] <= 0xDBFF then 2 else 1;
      assert forall n: nat | n <= |s| - k :: s[k..][n..] == s[k + n..];
      k + PairedPart(s[k..])
  }

  lemma {:induction false} PairedPartWellFormed(s: seq<Unit>)
    requires Words(s)
    ensures WellFormed(UTF16, s[..PairedPart(s)])
    decreases |s|
  {
    hide WellFormed;
    if s == [] || HighAtEnd(s) || NoPair(s) {
      NothingIsWellFormed(UTF16);
    } else {
      var k := if 0xD800 <= s[0] <= 0xDBFF then 2 else 1;
      var n := PairedPart(s[k..]);
      PairedPartWellFormed(s[k..]);
      assert s[..k + n] == s[..k] + s[k..][..n];
      WellFormedPrepend(UTF16, s[..k], s[k..][..n]);
    }
  }

  lemma {:induction false} PairedPartUnique(s: seq<Unit>, n: nat)
    requires n <= |s| && WellFormed(UTF16, s[..n]) && (n == |s| || HighAtEnd(s[n..]) || NoPair(s[n..]))
    ensures n == PairedPart(s)
    decreases |s|
  {
    hide WellFormed, IsChar, HighAtEnd, NoPair, PairedPart;
    if n > 0 {
      var k := FirstLength(UTF16, s[..n]);
      BehindPart(s, n, k);
      FirstPair(s[..k]);
      PairGoesOn(s, k);
      PairedPartUnique(s[k..], n - k);
    } else {
      assert s[0..] == s;
      NonePaired(s);
    }
  }

  lemma NonePaired(s: seq<Unit>)
    requires s == [] || HighAtEnd(s) || NoPair(s)
    ensures PairedPart(s) == 0
  {
  }

  lemma BehindPart(s: seq<Unit>, n: nat, k: nat)
    requires k <= n <= |s|
    ensures s[..n][..k] == s[..k] && s[..n][k..] == s[k..][..n - k] && s[k..][n - k..] == s[n..]
  {
  }

  lemma FirstPair(c: seq<Unit>)
    requires IsChar(UTF16, c)
    ensures |c| == if 0xD800 <= c[0] <= 0xDBFF then 2 else 1
    ensures !HighAtEnd(c) && !NoPair(c)
  {
  }

  lemma PairGoesOn(s: seq<Unit>, k: nat)
    requires 0 < k <= |s| && !HighAtEnd(s[..k]) && !NoPair(s[..k]) && k == if 0xD800 <= s[0] <= 0xDBFF then 2 else 1
    ensures PairedPart(s) == k + PairedPart(s[k..])
  {
  }

  lemma {:induction false} WordsStop(to: Form, s: seq<Unit>)
    ensures var o, n := Whole(UTF16, to, Strict, s), PairedPart(s);
            o.consumed == n && !o.flagged
            && o.stop == if n == |s| then ConversionOK else if HighAtEnd(s[n..]) then SourceExhausted else SourceIllegal
    decreases |s|
  {
    hide Scan, Encode, Whole;
    if s == [] {
      WholeEmpty(UTF16, to, Strict);
    } else {
      var step := Next(UTF16, to, Strict, s);
      WholeHalts(UTF16, to, Strict, s);
      if step.Put? {
        WholeStep(UTF16, to, Strict, s, step);
        WordsStop(to, s[step.n..]);
        var n := PairedPart(s[step.n..]);
        assert s[step.n..][n..] == s[step.n + n..];
      } else {
        assert s[0..] == s;
      }
    }
  }

  /** With ample room, UTF-16 read strictly is reported illegal if and only if whole characters are
      followed by a surrogate without its partner; exhausted, if and only if they are followed by a high
      surrogate that ends the source. In both cases the call stops behind the characters. */
  lemma WordsEndExactly(to: Form, s: seq<Unit>)
    requires Words(s)
    ensures var o := Whole(UTF16, to, Strict, s);
            && (o.Result() == SourceIllegal <==>
                  exists n: nat | n <= |s| :: WellFormed(UTF16, s[..n]) && NoPair(s[n..]))
            && (o.Result() == SourceExhausted <==>
                  exists n: nat | n <= |s| :: WellFormed(UTF16, s[..n]) && HighAtEnd(s[n..]))
            && forall n: nat | n <= |s| && WellFormed(UTF16, s[..n]) && (NoPair(s[n..]) || HighAtEnd(s[n..])) ::
                 o.consumed == n
  {
    hide Whole, WellFormed;
    WordsStop(to, s);
    PairedPartWellFormed(s);
    forall n: nat | n <= |s| && WellFormed(UTF16, s[..n]) && (n == |s| || NoPair(s[n..]) || HighAtEnd(s[n..]))
      ensures n == PairedPart(s)
    {
      PairedPartUnique(s, n);
    }
  }

  /** Read leniently it is never illegal; it is exhausted if and only if its last unit is a high
      surrogate, and then the call stops in front of that. */
  lemma {:induction false} LenientWordsEnd(to: Form, s: seq<Unit>)
    ensures var o := Whole(UTF16, to, Lenient, s);
            if s != [] && 0xD800 <= s[|s| - 1] <= 0xDBFF then o.Result() == SourceExhausted && o.consumed == |s| - 1
            else o.Result() == ConversionOK && o.consumed == |s|
    decreases |s|
  {
    hide Scan, Encode, Whole;
    NeverFlaggedWhole(UTF16, to, Lenient, s);
    if s == [] {
      WholeEmpty(UTF16, to, Lenient);
    } else {
      var step := Next(UTF16, to, Lenient, s);
      WholeHalts(UTF16, to, Lenient, s);
      if step.Put? {
        WholeStep(UTF16, to, Lenient, s, step);
        NeverFlaggedWhole(UTF16, to, Lenient, s[step.n..]);
        LenientWordsEnd(to, s[step.n..]);
      }
    }
  }

  lemma NeverFlaggedWhole(from: Form, to: Form, flags: ConversionFlags, src: seq<Unit>)
    requires from != UTF32
    ensures !Whole(from, to, flags, src).flagged
  {
    hide Scan;
    NeverFlagged(from, to, flags, src, 4 * |src|);
  }

  // ---- Any room ----------------------------------------------------------------------

  /** From UTF-8 and UTF-16, a call whose target has room for all that a call with ample room puts out
      ends as that call does; with less room it is reported exhausted. */
  lemma RoomDecides(from: Form, to: Form, flags: ConversionFlags, src: seq<Unit>, room: nat)
    requires from != UTF32
    ensures var o, w := Scan(from, to, flags, src, room), Whole(from, to, flags, src);
            if room < |w.out| then o.Result() == TargetExhausted else o == w
  {
    hide Scan, Whole;
    RoomNeeded(from, to, flags, src);
    ExhaustedExactly(from, to, flags, src, room);
    if room >= |Whole(from, to, flags, src).out| { RoomIsEnough(from, to, flags, src, room); }
  }

  lemma {:induction false} RoomNeeded(from: Form, to: Form, flags: ConversionFlags, src: seq<Unit>)
    requires from != UTF32
    ensures Needs(from, to, flags, src) == |Whole(from, to, flags, src).out|
    decreases |src|
  {
    hide Scan, Next, Whole;
    if src == [] {
      WholeEmpty(from, to, flags);
    } else {
      var step := Next(from, to, flags, src);
      NeedIsOutput(from, to, flags, src);
      WholeHalts(from, to, flags, src);
      if step.Put? {
        WholeStep(from, to, flags, src, step);
        RoomNeeded(from, to, flags, src[step.n..]);
      }
    }
  }

  lemma NeedIsOutput(from: Form, to: Form, flags: ConversionFlags, src: seq<Unit>)
    requires from != UTF32 && src != []
    ensures var step := Next(from, to, flags, src); step.need == if step.Put? then |step.out| else 0
  {
    hide Encode, Value8;
  }

  lemma {:induction false} RoomIsEnough(from: Form, to: Form, flags: ConversionFlags, src: seq<Unit>, room: nat)
    requires from != UTF32 && room >= |Whole(from, to, flags, src).out|
    ensures Scan(from, to, flags, src, room) == Whole(from, to, flags, src)
    decreases |src|
  {
    hide Scan, Next, Whole;
    if src == [] {
      WholeEmpty(from, to, flags);
      ScanEmpty(from, to, flags, room);
    } else {
      var step := Next(from, to, flags, src);
      NeedIsOutput(from, to, flags, src);
      WholeHalts(from, to, flags, src);
      ScanStep(from, to, flags, src, room);
      if step.Put? {
        WholeStep(from, to, flags, src, step);
        RoomIsEnough(from, to, flags, src[step.n..], room - |step.out|);
      }
    }
  }

  /** Text that encodes vs, with too little room: as many characters as fit are put out, and no more
      is consumed than they take. */
  lemma {:induction false} AsManyAsFit(from: Form, to: Form, flags: ConversionFlags, vs: seq<Scalar>, k: nat, room: nat)
    requires k < |vs| && |EncodeAll(to, vs[..k])| <= room < |EncodeAll(to, vs[..k + 1])|
    ensures Scan(from, to, flags, EncodeAll(from, vs), room)
         == Outcome(|EncodeAll(from, vs[..k])|, EncodeAll(to, vs[..k]), false, TargetExhausted)
    decreases |vs|
  {
    hide Next, Encode, EncodeAll, Scan;
    var c, rest := Encode(from, vs[0]), EncodeAll(from, vs[1..]);
    FirstOf(from, vs);
    FirstOfPart(to, vs, k + 1);
    FirstOfPart(to, vs, k);
    FirstOfPart(from, vs, k);
    StepOnChar(from, to, flags, vs[0], rest);
    ScanStep(from, to, flags, c + rest, room);
    assert (c + rest)[|c|..] == rest;
    if k > 0 { AsManyAsFit(from, to, flags, vs[1..], k - 1, room - |Encode(to, vs[0])|); }
  }

  lemma FirstOf(form: Form, vs: seq<Scalar>)
    requires vs != []
    ensures EncodeAll(form, vs) == Encode(form, vs[0]) + EncodeAll(form, vs[1..])
  {
  }

  lemma FirstOfPart(form: Form, vs: seq<Scalar>, k: nat)
    requires k <= |vs|
    ensures EncodeAll(form, vs[..k])
         == if k == 0 then [] else Encode(form, vs[0]) + EncodeAll(form, vs[1..][..k - 1])
  {
    hide Encode;
    if k > 0 { assert vs[..k][1..] == vs[1..][..k - 1]; }
  }

  // ---- Values that no character has --------------------------------------------------

  /** What takes the place of a value on its way from UTF-32 to UTF-16. */
  function Mended(u: Unit): Unit { if u > 0x10_FFFF || 0xD800 <= u <= 0xDFFF then 0xFFFD else u }

  function MendedAll(s: seq<Unit>): (r: seq<Unit>)
    ensures |r| == |s| && forall i | 0 <= i < |s| :: r[i] == Mended(s[i])
  {
    seq(|s|, i requires 0 <= i < |s| => Mended(s[i]))
  }

  /** Converting UTF-32 to UTF-16 leniently is converting it strictly once every value that no character
      has is replaced by U+FFFD, with any room. */
  lemma {:induction false} LenientIsMended(s: seq<Unit>, room: nat)
    ensures Scan(UTF32, UTF16, Lenient, s, room) == Scan(UTF32, UTF16, Strict, MendedAll(s), room)
    decreases |s|
  {
    hide Scan, Next;
    if s == [] {
      assert MendedAll(s) == [];
      ScanEmpty(UTF32, UTF16, Lenient, room);
      ScanEmpty(UTF32, UTF16, Strict, room);
    } else {
      var step := Next(UTF32, UTF16, Lenient, s);
      MendedStep(s);
      ScanStep(UTF32, UTF16, Lenient, s, room);
      ScanStep(UTF32, UTF16, Strict, MendedAll(s), room);
      if step.need <= room {
        assert MendedAll(s)[1..] == MendedAll(s[1..]);
        LenientIsMended(s[1..], room - |step.out|);
      }
    }
  }

  lemma MendedStep(s: seq<Unit>)
    requires s != []
    ensures Next(UTF32, UTF16, Lenient, s) == Next(UTF32, UTF16, Strict, MendedAll(s))
    ensures Next(UTF32, UTF16, Lenient, s).Put? && Next(UTF32, UTF16, Lenient, s).n == 1
  {
  }

  lemma OneStep(from: Form, to: Form, flags: ConversionFlags, src: seq<Unit>, step: Step)
    requires src != [] && step == Next(from, to, flags, src) && step.Put? && step.n == |src|
    ensures Whole(from, to, flags, src) == Outcome(|src|, step.out, step.flagged, ConversionOK)
  {
    hide Next, Whole;
    WholeStep(from, to, flags, src, step);
    WholeEmpty(from, to, flags);
    assert src[|src|..] == [] && step.out + [] == step.out;
  }

  /** What the other calls put out for a value that no character has: U+FFFD for one above 0x10FFFF,
      and a lone surrogate as it is, in three bytes where the target is UTF-8. */
  lemma OthersPutOut(flags: ConversionFlags, u: Unit)
    ensures u > 0x10_FFFF ==> Whole(UTF32, UTF8, flags, [u]).out == [0xEF, 0xBF, 0xBD]
    ensures u > 0x10_FFFF ==> Whole(UTF32, UTF16, Strict, [u]).out == []
    ensures 0xD800 <= u <= 0xDFFF ==>
              Whole(UTF32, UTF8, Lenient, [u]).out == [0xED, 0xA0 + (u - 0xD800) / 64, 0x80 + u % 64]
    ensures 0xDC00 <= u <= 0xDFFF ==>
              && Whole(UTF16, UTF8, Lenient, [u]).out == [0xED, 0xA0 + (u - 0xD800) / 64, 0x80 + u % 64]
              && Whole(UTF16, UTF32, Lenient, [u]).out == [u]
  {
    hide Next, Whole, Encode8;
    SurrogateBytes(u);
    if u > 0x10_FFFF {
      OverlargeSteps(flags, u);
      OneStep(UTF32, UTF8, flags, [u], Next(UTF32, UTF8, flags, [u]));
      OneStep(UTF32, UTF16, Strict, [u], Next(UTF32, UTF16, Strict, [u]));
    } else if 0xD800 <= u <= 0xDFFF {
      SurrogateSteps(u);
      OneStep(UTF32, UTF8, Lenient, [u], Next(UTF32, UTF8, Lenient, [u]));
      if 0xDC00 <= u {
        OneStep(UTF16, UTF8, Lenient, [u], Next(UTF16, UTF8, Lenient, [u]));
        OneStep(UTF16, UTF32, Lenient, [u], Next(UTF16, UTF32, Lenient, [u]));
      }
    }
  }

  lemma SurrogateBytes(u: Unit)
    ensures 0xD800 <= u <= 0xDFFF ==> Encode8(u) == [0xED, 0xA0 + (u - 0xD800) / 64, 0x80 + u % 64]
  {
  }

  lemma OverlargeSteps(flags: ConversionFlags, u: Unit)
    requires u > 0x10_FFFF
    ensures Next(UTF32, UTF8, flags, [u]) == Put(1, [0xEF, 0xBF, 0xBD], 3, true)
    ensures Next(UTF32, UTF16, Strict, [u]) == Put(1, [], 1, true)
  {
  }

  lemma SurrogateSteps(u: Unit)
    requires 0xD800 <= u <= 0xDFFF
    ensures var step := Next(UTF32, UTF8, Lenient, [u]); step.Put? && step.n == 1 && step.out == Encode8(u)
    ensures 0xDC00 <= u ==>
              && Next(UTF16, UTF8, Lenient, [u]) == Put(1, Encode8(u), |Encode8(u)|, false)
              && Next(UTF16, UTF32, Lenient, [u]) == Put(1, [u], 1, false)
  {
    hide Encode8;
  }

  /** With no room at all: to UTF-16 a full target is reported before the value is looked at, to UTF-8 a
      strict call reports a surrogate all the same. */
  lemma NoRoomAtAll(flags: ConversionFlags, u: Unit)
    ensures Scan(UTF32, UTF16, flags, [u], 0) == Outcome(0, [], false, TargetExhausted)
    ensures Scan(UTF32, UTF8, flags, [u], 0).stop
         == if flags == Strict && 0xD800 <= u <= 0xDFFF then SourceIllegal else TargetExhausted
  {
    hide Encode;
    ScanStep(UTF32, UTF16, flags, [u], 0);
    ScanStep(UTF32, UTF8, flags, [u], 0);
    hide Scan;
  }

  /** On its way to UTF-8 a value above 0x10FFFF, and leniently a surrogate, takes three bytes or nothing. */
  lemma ThreeOrNone(flags: ConversionFlags, u: Unit, room: nat)
    requires u > 0x10_FFFF || (flags == Lenient && 0xD800 <= u <= 0xDFFF)
    ensures var o := Scan(UTF32, UTF8, flags, [u], room);
            if room < 3 then o == Outcome(0, [], false, TargetExhausted) else o.consumed == 1 && |o.out| == 3
  {
    hide Encode8;
    SurrogateBytes(u);
    SurrogateSteps(if u <= 0xDFFF then u else 0xD800);
    if u > 0x10_FFFF { OverlargeSteps(flags, u); }
    hide Next, Scan;
    ScanStep(UTF32, UTF8, flags, [u], room);
    assert [u][1..] == [];
    ScanEmpty(UTF32, UTF8, flags, room);
    if room >= 3 { ScanEmpty(UTF32, UTF8, flags, room - 3); }
  }

  /** A high surrogate without a low one behind it is put out as it is by a lenient call, which then goes
      on with what is behind it. */
  lemma HighPutOut(to: Form, u: Unit, rest: seq<Unit>)
    requires 0xD800 <= u <= 0xDBFF && rest != [] && !(0xDC00 <= rest[0] <= 0xDFFF)
    ensures var w := Whole(UTF16, to, Lenient, rest);
            Whole(UTF16, to, Lenient, [u] + rest).out
            == (if to == UTF8 then [0xED, 0xA0 + (u - 0xD800) / 64, 0x80 + u % 64] else [u]) + w.out
  {
    hide Next, Whole, Encode8;
    SurrogateBytes(u);
    HighAlone(to, u, rest);
    WholeStep(UTF16, to, Lenient, [u] + rest, Next(UTF16, to, Lenient, [u] + rest));
    assert ([u] + rest)[1..] == rest;
  }

  lemma HighAlone(to: Form, u: Unit, rest: seq<Unit>)
    requires 0xD800 <= u <= 0xDBFF && rest != [] && !(0xDC00 <= rest[0] <= 0xDFFF)
    ensures var step := Next(UTF16, to, Lenient, [u] + rest);
            step.Put? && step.n == 1 && step.out == if to == UTF8 then Encode8(u) else [u]
  {
    hide Encode8;
    assert ([u] + rest)[0] == u && ([u] + rest)[1] == rest[0];
  }
}
