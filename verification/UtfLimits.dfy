/** What the conversions accept, and what they put out whatever they are given. */
module UtfLimits {
  import opened Unicode
  import opened Scanning
  import opened UtfTheorems

  // ---- Output is well formed ---------------------------------------------------------

  /** The calls that never let a surrogate by: strict ones, those from UTF-8, and from UTF-32 to UTF-16. */
  predicate Guarded(from: Form, to: Form, flags: ConversionFlags) {
    flags == Strict || from == UTF8 || (from == UTF32 && to == UTF16)
  }

  lemma StepIsWellFormed(from: Form, to: Form, flags: ConversionFlags, src: seq<Unit>) returns (v: Scalar)
    requires Guarded(from, to, flags) && src != [] && Next(from, to, flags, src).Put?
    ensures var out := Next(from, to, flags, src).out; out == [] || out == Encode(to, v)
  {
    hide Encode;
    if from == UTF8 {
      v := Value8(src[..TrailingBytes(src[0]) + 1]);
    } else {
      var u := if from == UTF16 && IsHigh(src[0]) then PairValue(src[0], src[1]) else src[0];
      OverlargeIsReplaced(to, u);
      v := if u < 0x11_0000 && !IsSurrogate(u) then u else REPLACEMENT;
    }
  }

  lemma OverlargeIsReplaced(to: Form, u: Unit)
    ensures u >= 0x11_0000 ==> Encode(to, u) == Encode(to, REPLACEMENT)
  {
  }

  /** Whatever the source holds and however little room there is, a guarded call puts out whole
      characters of the target form. */
  lemma {:induction false} OutputIsWellFormed(from: Form, to: Form, flags: ConversionFlags, src: seq<Unit>, room: nat)
    requires Guarded(from, to, flags)
    ensures WellFormed(to, Scan(from, to, flags, src, room).out)
    decreases |src|
  {
    hide Next, Scan, Encode, WellFormed, IsChar;
    NothingIsWellFormed(to);
    if src == [] {
      ScanEmpty(from, to, flags, room);
    } else {
      var step := Next(from, to, flags, src);
      ScanStep(from, to, flags, src, room);
      if step.Put? && step.need <= room {
        var v := StepIsWellFormed(from, to, flags, src);
        var rest := Scan(from, to, flags, src[step.n..], room - |step.out|).out;
        OutputIsWellFormed(from, to, flags, src[step.n..], room - |step.out|);
        if step.out == [] {
          assert step.out + rest == rest;
        } else {
          EncodeIsChar(to, v);
          WellFormedPrepend(to, step.out, rest);
        }
      }
    }
  }

  // ---- What is accepted --------------------------------------------------------------

  /** A run of sequences that pass the legality check. */
  predicate AllAccepted(s: seq<Unit>)
    decreases |s|
  {
    s == [] || (IsLegalUTF8Sequence(s) && AllAccepted(s[TrailingBytes(s[0]) + 1..]))
  }

  lemma {:induction false} AcceptsBytes(to: Form, flags: ConversionFlags, s: seq<Unit>)
    ensures Whole(UTF8, to, flags, s).Result() == ConversionOK <==> AllAccepted(s)
    decreases |s|
  {
    hide Scan, Encode, Value8;
    if s == [] {
      ScanEmpty(UTF8, to, flags, 0);
    } else {
      var step := Next(UTF8, to, flags, s);
      ScanStep(UTF8, to, flags, s, 4 * |s|);
      if step.Put? {
        WholeStep(UTF8, to, flags, s, step);
        AcceptsBytes(to, flags, s[step.n..]);
      }
    }
  }

  lemma StrictStep(from: Form, to: Form, s: seq<Unit>)
    requires from != UTF8 && s != [] && (from == UTF16 ==> s[0] < 0x1_0000)
    ensures var step := Next(from, to, Strict, s);
            if step.Put? && !step.flagged then WellFormed(from, s) <==> WellFormed(from, s[step.n..])
            else !WellFormed(from, s)
  {
    hide Encode;
  }

  /** A strict call from UTF-16 or UTF-32 succeeds on well-formed text and on nothing else. */
  lemma {:induction false} AcceptsExactly(from: Form, to: Form, s: seq<Unit>)
    requires from != UTF8 && (from == UTF16 ==> forall i | 0 <= i < |s| :: s[i] < 0x1_0000)
    ensures Whole(from, to, Strict, s).Result() == ConversionOK <==> WellFormed(from, s)
    decreases |s|
  {
    hide Scan, Next;
    if s == [] {
      ScanEmpty(from, to, Strict, 0);
    } else {
      var step := Next(from, to, Strict, s);
      ScanStep(from, to, Strict, s, 4 * |s|);
      StrictStep(from, to, s);
      if step.Put? {
        WholeStep(from, to, Strict, s, step);
        AcceptsExactly(from, to, s[step.n..]);
      }
    }
  }

  // ---- Bytes that are accepted without being UTF-8 -----------------------------------

  /** Accepted bytes come back from UTF-32 unchanged if and only if they are UTF-8. */
  lemma BytesComeBack(s: seq<Unit>, f: ConversionFlags, g: ConversionFlags)
    requires AllAccepted(s)
    ensures Whole(UTF32, UTF8, g, Whole(UTF8, UTF32, f, s).out).out == s <==> WellFormed(UTF8, s)
  {
    hide Scan;
    var chars := Whole(UTF8, UTF32, f, s).out;
    OutputIsWellFormed(UTF8, UTF32, f, s, 4 * |s|);
    var vs := WellFormedIsEncoded(UTF32, chars);
    WholeOfEncoded(UTF32, UTF8, g, vs);
    EncodedIsWellFormed(UTF8, vs);
    if WellFormed(UTF8, s) { RoundTrip(UTF8, UTF32, f, g, s); }
  }

  /** ED 00 80 is accepted and decoded to U+B000, though it is no UTF-8. */
  lemma LooseBytes(f: ConversionFlags)
    ensures var s: seq<Unit> := [0xED, 0x00, 0x80];
            && AllAccepted(s) && !WellFormed(UTF8, s)
            && Whole(UTF8, UTF32, f, s) == Outcome(3, [0xB000], false, ConversionOK)
  {
    var s: seq<Unit> := [0xED, 0x00, 0x80];
    assert s[3..] == [] && s[..3] == s;
    assert IsLegalUTF8Sequence(s);
    assert !IsChar8(s[..1]) && !IsChar8(s[..2]) && !IsChar8(s);
    var step := Next(UTF8, UTF32, f, s);
    assert step == Put(3, [0xB000], 1, false);
    WholeStep(UTF8, UTF32, f, s, step);
    ScanEmpty(UTF8, UTF32, f, 0);
  }
}
