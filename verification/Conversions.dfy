/**
 The six conversion loops. Source and target are buffers with a start and an end position, as
 the pointers of the originals; each loop returns its result and where both cursors stand.
 The body of each loop is a method of its own; `go` says whether the loop goes on.
 */
module Conversions {
  import opened Bits
  import opened Octets
  import opened Unicode
  import opened Scanning
  import opened ConvertUtf

  // ---- One turn of a loop ------------------------------------------------------------

  /** A turn did what the step at the head of the source asks for: all of it, or nothing. */
  ghost predicate Turned(step: Step, room: int, was: seq<int>, now: seq<int>,
                         result0: ConversionResult, result: ConversionResult,
                         source0: nat, source: nat, target0: nat, target: nat, go: bool)
  {
    if step.Put? && step.need <= room then
      && go && source == source0 + step.n && target == target0 + |step.out|
      && result == (if step.flagged then SourceIllegal else result0)
      && target <= |was| && now == was[..target0] + step.out + was[target..]
    else
      && !go && source == source0 && target == target0 && now == was
      && result == (if room < step.need then TargetExhausted else Halted(step))
  }

  function Halted(step: Step): ConversionResult {
    if step.Halt? then step.result else ConversionOK
  }

  lemma WrittenOne(was: seq<int>, start: nat, a: int)
    requires start < |was|
    ensures was[start := a] == was[..start] + [a] + was[start + 1..]
  {
  }

  lemma WrittenTwo(was: seq<int>, start: nat, a: int, b: int)
    requires start + 1 < |was|
    ensures was[start := a][start + 1 := b] == was[..start] + [a, b] + was[start + 2..]
  {
  }

  /** Writes ch as one or two words; the caller has made sure of the room. */
  method WriteWords(tgt: array<Word>, start: nat, ch0: Unit) returns (target: nat)
    requires ch0 < 0x11_0000 && start + |Encode16(ch0)| <= tgt.Length
    modifies tgt
    ensures target == start + |Encode16(ch0)|
    ensures tgt[..] == old(tgt[..start]) + Encode16(ch0) + old(tgt[target..])
  {
    ghost var was: seq<int> := tgt[..];
    if ch0 < 0x1_0000 {
      WrittenOne(was, start, ch0);
      tgt[start] := ch0;
      target := start + 1;
    } else {
      var ch := ch0 - HALF_BASE;
      LowTenBits(ch);
      WrittenTwo(was, start, ch / 1024 + 0xD800, ch % 1024 + 0xDC00);
      tgt[start] := ch / 1024 + 0xD800;
      tgt[start + 1] := BitAnd(ch, HALF_MASK) + 0xDC00;
      target := start + 2;
    }
  }

  method Turn32to16(src: seq<Unit>, source0: nat, sourceEnd: nat, tgt: array<Word>,
                    target0: nat, targetEnd: nat, flags: ConversionFlags, result0: ConversionResult)
    returns (result: ConversionResult, source: nat, target: nat, go: bool)
    requires source0 < sourceEnd <= |src| && target0 <= targetEnd <= tgt.Length
    modifies tgt
    ensures Turned(Next(UTF32, UTF16, flags, src[source0..sourceEnd]), targetEnd - target0,
                   old(tgt[..]), tgt[..], result0, result, source0, source, target0, target, go)
  {
    result, source, target, go := result0, source0, target0, true;
    if target >= targetEnd {
      return TargetExhausted, source, target, false;
    }
    var ch := src[source];
    source := source + 1;
    if ch <= 0xFFFF {
      if 0xD800 <= ch <= 0xDFFF {
        if flags == Strict {
          source := source - 1;
          return SourceIllegal, source, target, false;
        } else {
          target := WriteWords(tgt, target, REPLACEMENT);
        }
      } else {
        target := WriteWords(tgt, target, ch);
      }
    } else if ch > 0x10_FFFF {
      if flags == Strict {
        result := SourceIllegal;
      } else {
        target := WriteWords(tgt, target, REPLACEMENT);
      }
    } else {
      if target + 1 >= targetEnd {
        source := source - 1;
        return TargetExhausted, source, target, false;
      }
      target := WriteWords(tgt, target, ch);
    }
  }

  // From UTF-32 to UTF-8: an overlarge value is flagged and replaced, and the loop goes on.
  method Turn32to8(src: seq<Unit>, source0: nat, sourceEnd: nat, tgt: array<Byte>,
                   target0: nat, targetEnd: nat, flags: ConversionFlags, result0: ConversionResult)
    returns (result: ConversionResult, source: nat, target: nat, go: bool)
    requires source0 < sourceEnd <= |src| && target0 <= targetEnd <= tgt.Length
    modifies tgt
    ensures Turned(Next(UTF32, UTF8, flags, src[source0..sourceEnd]), targetEnd - target0,
                   old(tgt[..]), tgt[..], result0, result, source0, source, target0, target, go)
  {
    result, source, target, go := result0, source0, target0, true;
    var ch := src[source];
    source := source + 1;
    if flags == Strict {
      if 0xD800 <= ch <= 0xDFFF {
        source := source - 1;
        return SourceIllegal, source, target, false;
      }
    }
    var bytesToWrite;
    if ch <= 0x10_FFFF {
      bytesToWrite := BytesToWrite(ch);
    } else {
      bytesToWrite := 3;
      ch := REPLACEMENT;
      result := SourceIllegal;
    }
    EncodedLength(ch);
    target := target + bytesToWrite;
    if target > targetEnd {
      source := source - 1;
      target := target - bytesToWrite;
      return TargetExhausted, source, target, false;
    }
    WriteSequence(tgt, target0, ch);
  }

  lemma EncodedLength(ch: Unit)
    requires ch < 0x11_0000
    ensures |Encode8(ch)| == BytesToWrite(ch)
  {
  }

  // ---- One turn from UTF-16 ----------------------------------------------------------

  /** Reads one character of UTF-16, or says why there is none and stays in front of it. */
  method ReadWords(src: seq<Word>, source0: nat, sourceEnd: nat, flags: ConversionFlags, ghost to: Form)
    returns (result: ConversionResult, ch: Unit, source: nat)
    requires source0 < sourceEnd <= |src|
    ensures var step := Step16(to, flags, src[source0..sourceEnd]);
            if result == ConversionOK then
              ch < 0x11_0000 && source > source0 && step == PutChar(source - source0, to, ch)
            else source == source0 && step == Halt(result, 0)
  {
    result, source := ConversionOK, source0;
    ch := src[source];
    source := source + 1;
    if 0xD800 <= ch <= 0xDBFF {
      if source < sourceEnd {
        var ch2: Unit := src[source];
        if 0xDC00 <= ch2 <= 0xDFFF {
          ch := Unsigned32((ch - 0xD800) * 1024 + (ch2 - 0xDC00) + HALF_BASE);
          source := source + 1;
        } else if flags == Strict {
          return SourceIllegal, ch, source - 1;
        }
      } else {
        return SourceExhausted, ch, source - 1;
      }
    } else if flags == Strict {
      if 0xDC00 <= ch <= 0xDFFF {
        return SourceIllegal, ch, source - 1;
      }
    }
  }

  method Turn16to32(src: seq<Word>, source0: nat, sourceEnd: nat, tgt: array<Unit>,
                    target0: nat, targetEnd: nat, flags: ConversionFlags, result0: ConversionResult)
    returns (result: ConversionResult, source: nat, target: nat, go: bool)
    requires source0 < sourceEnd <= |src| && target0 <= targetEnd <= tgt.Length
    modifies tgt
    ensures Turned(Next(UTF16, UTF32, flags, src[source0..sourceEnd]), targetEnd - target0,
                   old(tgt[..]), tgt[..], result0, result, source0, source, target0, target, go)
  {
    target := target0;
    var oldSource := source0;
    var ch;
    hide Step16;
    result, ch, source := ReadWords(src, source0, sourceEnd, flags, UTF32);
    if result != ConversionOK {
      return result, source, target, false;
    }
    if target >= targetEnd {
      return TargetExhausted, oldSource, target, false;
    }
    tgt[target] := ch;
    target := target + 1;
    result, go := result0, true;
  }

  method Turn16to8(src: seq<Word>, source0: nat, sourceEnd: nat, tgt: array<Byte>,
                   target0: nat, targetEnd: nat, flags: ConversionFlags, result0: ConversionResult)
    returns (result: ConversionResult, source: nat, target: nat, go: bool)
    requires source0 < sourceEnd <= |src| && target0 <= targetEnd <= tgt.Length
    modifies tgt
    ensures Turned(Next(UTF16, UTF8, flags, src[source0..sourceEnd]), targetEnd - target0,
                   old(tgt[..]), tgt[..], result0, result, source0, source, target0, target, go)
  {
    target := target0;
    var oldSource := source0;
    var ch;
    hide Step16;
    result, ch, source := ReadWords(src, source0, sourceEnd, flags, UTF8);
    if result != ConversionOK {
      return result, source, target, false;
    }
    // the last two cases of the length choice cannot arise: ch is below 0x110000
    var bytesToWrite := BytesToWrite(ch);
    EncodedLength(ch);
    target := target + bytesToWrite;
    if target > targetEnd {
      return TargetExhausted, oldSource, target - bytesToWrite, false;
    }
    WriteSequence(tgt, target0, ch);
    result, go := result0, true;
  }

  // ---- One turn from UTF-8 -----------------------------------------------------------

  lemma LegalHead(to: Form, src: seq<Unit>)
    requires src != [] && TrailingBytes(src[0]) < |src| && IsLegalUTF8(src, TrailingBytes(src[0]) + 1)
    ensures var extra := TrailingBytes(src[0]); var s := src[..extra + 1];
            && extra < 6 && Value8(s) < 0x11_0000 && !IsSurrogate(Value8(s))
            && Unsigned32(Accumulate(s, 0) - OFFSETS_FROM_UTF8[extra]) == Value8(s)
            && Step8(to, src) == PutChar(extra + 1, to, Value8(s))
  {
    hide Accumulate, Value8, PutChar;
    var s := src[..TrailingBytes(src[0]) + 1];
    assert Accepted8(s);
    AcceptedIsScalar(s);
    AccumulatedValue(s);
  }

  /** Reads one character of UTF-8, or says why there is none and stays in front of it. */
  method ReadBytes(src: seq<Byte>, source0: nat, sourceEnd: nat, ghost to: Form)
    returns (result: ConversionResult, ch: Unit, source: nat)
    requires source0 < sourceEnd <= |src|
    ensures var step := Step8(to, src[source0..sourceEnd]);
            if result == ConversionOK then
              ch < 0x11_0000 && !IsSurrogate(ch) && source > source0 && step == PutChar(source - source0, to, ch)
            else source == source0 && step == Halt(result, 0)
  {
    hide IsLegalUTF8, Accumulate, Value8, PutChar;
    ghost var rest: seq<Unit> := src[source0..sourceEnd];
    var extraBytesToRead := TrailingBytes(src[source0]);
    if source0 + extraBytesToRead >= sourceEnd {
      return SourceExhausted, 0, source0;
    }
    if !IsLegalUTF8(src[source0..sourceEnd], extraBytesToRead + 1) {
      return SourceIllegal, 0, source0;
    }
    LegalHead(to, rest);
    ch, source := ReadSequence(src, source0, extraBytesToRead);
    assert src[source0..source] == rest[..extraBytesToRead + 1];
    ch := Unsigned32(ch - OFFSETS_FROM_UTF8[extraBytesToRead]);
    result := ConversionOK;
  }

  method Turn8to32(src: seq<Byte>, source0: nat, sourceEnd: nat, tgt: array<Unit>,
                   target0: nat, targetEnd: nat, flags: ConversionFlags, result0: ConversionResult)
    returns (result: ConversionResult, source: nat, target: nat, go: bool)
    requires source0 < sourceEnd <= |src| && target0 <= targetEnd <= tgt.Length
    modifies tgt
    ensures Turned(Next(UTF8, UTF32, flags, src[source0..sourceEnd]), targetEnd - target0,
                   old(tgt[..]), tgt[..], result0, result, source0, source, target0, target, go)
  {
    target := target0;
    var ch;
    hide Step8;
    result, ch, source := ReadBytes(src, source0, sourceEnd, UTF32);
    if result != ConversionOK {
      return result, source, target, false;
    }
    if target >= targetEnd {
      return TargetExhausted, source0, target, false;
    }
    if ch <= 0x10_FFFF {
      if 0xD800 <= ch <= 0xDFFF {
        assert false;  // no accepted sequence carries a surrogate
      } else {
        tgt[target] := ch;
        target := target + 1;
      }
    } else {
      assert false;  // no accepted sequence carries a larger value
    }
    result, go := result0, true;
  }

  method Turn8to16(src: seq<Byte>, source0: nat, sourceEnd: nat, tgt: array<Word>,
                   target0: nat, targetEnd: nat, flags: ConversionFlags, result0: ConversionResult)
    returns (result: ConversionResult, source: nat, target: nat, go: bool)
    requires source0 < sourceEnd <= |src| && target0 <= targetEnd <= tgt.Length
    modifies tgt
    ensures Turned(Next(UTF8, UTF16, flags, src[source0..sourceEnd]), targetEnd - target0,
                   old(tgt[..]), tgt[..], result0, result, source0, source, target0, target, go)
  {
    target := target0;
    var ch;
    hide Step8;
    result, ch, source := ReadBytes(src, source0, sourceEnd, UTF16);
    if result != ConversionOK {
      return result, source, target, false;
    }
    if target >= targetEnd {
      return TargetExhausted, source0, target, false;
    }
    if ch <= 0xFFFF {
      if 0xD800 <= ch <= 0xDFFF {
        assert false;  // no accepted sequence carries a surrogate
      } else {
        target := WriteWords(tgt, target, ch);
      }
    } else if ch > 0x10_FFFF {
      assert false;  // no accepted sequence carries a larger value
    } else {
      if target + 1 >= targetEnd {
        return TargetExhausted, source0, target, false;
      }
      target := WriteWords(tgt, target, ch);
    }
    result, go := result0, true;
  }

  // ---- What a loop has done so far ---------------------------------------------------

  /** A call: what it converts, from where to where, and the target as the call finds it. */
  datatype Call = Call(from: Form, to: Form, flags: ConversionFlags,
                       src: seq<Unit>, sourceStart: nat, sourceEnd: nat,
                       was: seq<int>, targetStart: nat, targetEnd: nat)
  {
    ghost predicate Valid() {
      sourceStart <= sourceEnd <= |src| && targetStart <= targetEnd <= |was|
    }

    /** What the call is to do. */
    ghost function Whole(): Outcome
      requires Valid()
    {
      Scan(from, to, flags, src[sourceStart..sourceEnd], targetEnd - targetStart)
    }

    ghost function Step(source: nat): Step
      requires Valid() && source < sourceEnd
    {
      Next(from, to, flags, src[source..sourceEnd])
    }

    /** The target once `out` has been written. */
    ghost function Written(out: seq<int>): seq<int>
      requires Valid() && targetStart + |out| <= |was|
    {
      was[..targetStart] + out + was[targetStart + |out|..]
    }

    /** The loop has done `done` and stands at the two cursors. */
    ghost predicate Standing(done: Outcome, source: nat, target: nat, now: seq<int>)
      requires Valid()
    {
      && source == sourceStart + done.consumed && source <= sourceEnd
      && target == targetStart + |done.out| && target <= targetEnd
      && Partway(from, to, flags, Whole(), done, src[source..sourceEnd], targetEnd - target)
      && now == Written(done.out)
    }

    /** The call has ended with everything it is to do. */
    ghost predicate Reached(result: ConversionResult, source: nat, target: nat, now: seq<int>)
      requires Valid()
    {
      && result == Whole().Result()
      && source == sourceStart + Whole().consumed && target == targetStart + |Whole().out|
      && now == Written(Whole().out)
    }

    lemma Start()
      requires Valid()
      ensures Standing(NOTHING, sourceStart, targetStart, was)
    {
      hide Scan, Next;
      Begin(from, to, flags, src[sourceStart..sourceEnd], targetEnd - targetStart);
      NothingSpliced(was, targetStart);
    }

    /** After a turn the loop stands behind the step it has taken, or has come to its end. */
    lemma AfterTurn(done: Outcome, source0: nat, target0: nat, now0: seq<int>,
                    source: nat, target: nat, now: seq<int>, result: ConversionResult, go: bool)
      returns (after: Outcome)
      requires Valid() && Standing(done, source0, target0, now0) && source0 < sourceEnd
      requires Turned(Step(source0), targetEnd - target0, now0, now,
                      done.Result(), result, source0, source, target0, target, go)
      ensures go ==> source > source0 && result == after.Result() && Standing(after, source, target, now)
      ensures !go ==> Reached(result, source, target, now)
    {
      hide Scan, Next;
      var rest, room, step := src[source0..sourceEnd], targetEnd - target0, Step(source0);
      if go {
        after := Then(done, Taken(step));
        Advance(from, to, flags, Whole(), done, rest, room, step);
        assert rest[step.n..] == src[source..sourceEnd];
        Spliced(was, now0, targetStart, done.out, step.out);
      } else {
        after := done.(stop := result);
        Finish(from, to, flags, Whole(), done, rest, room);
      }
    }

    lemma SourceRead(done: Outcome, target: nat, now: seq<int>)
      requires Valid() && Standing(done, sourceEnd, target, now)
      ensures Reached(done.Result(), sourceEnd, target, now)
    {
      Finish(from, to, flags, Whole(), done, src[sourceEnd..sourceEnd], targetEnd - target);
    }
  }

  lemma NothingSpliced(was: seq<int>, start: nat)
    requires start <= |was|
    ensures was == was[..start] + [] + was[start..]
  {
  }

  lemma Spliced(was: seq<int>, now: seq<int>, start: nat, out: seq<int>, more: seq<int>)
    requires start + |out| + |more| <= |was|
    requires now == was[..start] + out + was[start + |out|..]
    ensures now[..start + |out|] + more + now[start + |out| + |more|..]
         == was[..start] + (out + more) + was[start + |out| + |more|..]
  {
  }

  // ---- The loops ---------------------------------------------------------------------

  method ConvertUTF32toUTF16(src: seq<Unit>, sourceStart: nat, sourceEnd: nat,
                             tgt: array<Word>, targetStart: nat, targetEnd: nat, flags: ConversionFlags)
    returns (result: ConversionResult, source: nat, target: nat)
    requires sourceStart <= sourceEnd <= |src| && targetStart <= targetEnd <= tgt.Length
    modifies tgt
    ensures Call(UTF32, UTF16, flags, src, sourceStart, sourceEnd, old(tgt[..]), targetStart, targetEnd)
            .Reached(result, source, target, tgt[..])
  {
    result, source, target := ConversionOK, sourceStart, targetStart;
    ghost var call := Call(UTF32, UTF16, flags, src, sourceStart, sourceEnd, tgt[..], targetStart, targetEnd);
    ghost var done := NOTHING;
    call.Start();
    while source < sourceEnd
      invariant call.Standing(done, source, target, tgt[..])
      invariant result == done.Result()
    {
      ghost var source0, target0, now0 := source, target, tgt[..];
      var go: bool;
      result, source, target, go := Turn32to16(src, source, sourceEnd, tgt, target, targetEnd, flags, result);
      done := call.AfterTurn(done, source0, target0, now0, source, target, tgt[..], result, go);
      if !go { return; }
    }
    call.SourceRead(done, target, tgt[..]);
  }

  method ConvertUTF32toUTF8(src: seq<Unit>, sourceStart: nat, sourceEnd: nat,
                             tgt: array<Byte>, targetStart: nat, targetEnd: nat, flags: ConversionFlags)
    returns (result: ConversionResult, source: nat, target: nat)
    requires sourceStart <= sourceEnd <= |src| && targetStart <= targetEnd <= tgt.Length
    modifies tgt
    ensures Call(UTF32, UTF8, flags, src, sourceStart, sourceEnd, old(tgt[..]), targetStart, targetEnd)
            .Reached(result, source, target, tgt[..])
  {
    result, source, target := ConversionOK, sourceStart, targetStart;
    ghost var call := Call(UTF32, UTF8, flags, src, sourceStart, sourceEnd, tgt[..], targetStart, targetEnd);
    ghost var done := NOTHING;
    call.Start();
    while source < sourceEnd
      invariant call.Standing(done, source, target, tgt[..])
      invariant result == done.Result()
    {
      ghost var source0, target0, now0 := source, target, tgt[..];
      var go: bool;
      result, source, target, go := Turn32to8(src, source, sourceEnd, tgt, target, targetEnd, flags, result);
      done := call.AfterTurn(done, source0, target0, now0, source, target, tgt[..], result, go);
      if !go { return; }
    }
    call.SourceRead(done, target, tgt[..]);
  }

  method ConvertUTF16toUTF32(src: seq<Word>, sourceStart: nat, sourceEnd: nat,
                             tgt: array<Unit>, targetStart: nat, targetEnd: nat, flags: ConversionFlags)
    returns (result: ConversionResult, source: nat, target: nat)
    requires sourceStart <= sourceEnd <= |src| && targetStart <= targetEnd <= tgt.Length
    modifies tgt
    ensures Call(UTF16, UTF32, flags, src, sourceStart, sourceEnd, old(tgt[..]), targetStart, targetEnd)
            .Reached(result, source, target, tgt[..])
  {
    result, source, target := ConversionOK, sourceStart, targetStart;
    ghost var call := Call(UTF16, UTF32, flags, src, sourceStart, sourceEnd, tgt[..], targetStart, targetEnd);
    ghost var done := NOTHING;
    call.Start();
    while source < sourceEnd
      invariant call.Standing(done, source, target, tgt[..])
      invariant result == done.Result()
    {
      ghost var source0, target0, now0 := source, target, tgt[..];
      var go: bool;
      result, source, target, go := Turn16to32(src, source, sourceEnd, tgt, target, targetEnd, flags, result);
      done := call.AfterTurn(done, source0, target0, now0, source, target, tgt[..], result, go);
      if !go { return; }
    }
    call.SourceRead(done, target, tgt[..]);
  }

  method ConvertUTF16toUTF8(src: seq<Word>, sourceStart: nat, sourceEnd: nat,
                             tgt: array<Byte>, targetStart: nat, targetEnd: nat, flags: ConversionFlags)
    returns (result: ConversionResult, source: nat, target: nat)
    requires sourceStart <= sourceEnd <= |src| && targetStart <= targetEnd <= tgt.Length
    modifies tgt
    ensures Call(UTF16, UTF8, flags, src, sourceStart, sourceEnd, old(tgt[..]), targetStart, targetEnd)
            .Reached(result, source, target, tgt[..])
  {
    result, source, target := ConversionOK, sourceStart, targetStart;
    ghost var call := Call(UTF16, UTF8, flags, src, sourceStart, sourceEnd, tgt[..], targetStart, targetEnd);
    ghost var done := NOTHING;
    call.Start();
    while source < sourceEnd
      invariant call.Standing(done, source, target, tgt[..])
      invariant result == done.Result()
    {
      ghost var source0, target0, now0 := source, target, tgt[..];
      var go: bool;
      result, source, target, go := Turn16to8(src, source, sourceEnd, tgt, target, targetEnd, flags, result);
      done := call.AfterTurn(done, source0, target0, now0, source, target, tgt[..], result, go);
      if !go { return; }
    }
    call.SourceRead(done, target, tgt[..]);
  }

  method ConvertUTF8toUTF32(src: seq<Byte>, sourceStart: nat, sourceEnd: nat,
                             tgt: array<Unit>, targetStart: nat, targetEnd: nat, flags: ConversionFlags)
    returns (result: ConversionResult, source: nat, target: nat)
    requires sourceStart <= sourceEnd <= |src| && targetStart <= targetEnd <= tgt.Length
    modifies tgt
    ensures Call(UTF8, UTF32, flags, src, sourceStart, sourceEnd, old(tgt[..]), targetStart, targetEnd)
            .Reached(result, source, target, tgt[..])
  {
    result, source, target := ConversionOK, sourceStart, targetStart;
    ghost var call := Call(UTF8, UTF32, flags, src, sourceStart, sourceEnd, tgt[..], targetStart, targetEnd);
    ghost var done := NOTHING;
    call.Start();
    while source < sourceEnd
      invariant call.Standing(done, source, target, tgt[..])
      invariant result == done.Result()
    {
      ghost var source0, target0, now0 := source, target, tgt[..];
      var go: bool;
      result, source, target, go := Turn8to32(src, source, sourceEnd, tgt, target, targetEnd, flags, result);
      done := call.AfterTurn(done, source0, target0, now0, source, target, tgt[..], result, go);
      if !go { return; }
    }
    call.SourceRead(done, target, tgt[..]);
  }

  method ConvertUTF8toUTF16(src: seq<Byte>, sourceStart: nat, sourceEnd: nat,
                             tgt: array<Word>, targetStart: nat, targetEnd: nat, flags: ConversionFlags)
    returns (result: ConversionResult, source: nat, target: nat)
    requires sourceStart <= sourceEnd <= |src| && targetStart <= targetEnd <= tgt.Length
    modifies tgt
    ensures Call(UTF8, UTF16, flags, src, sourceStart, sourceEnd, old(tgt[..]), targetStart, targetEnd)
            .Reached(result, source, target, tgt[..])
  {
    result, source, target := ConversionOK, sourceStart, targetStart;
    ghost var call := Call(UTF8, UTF16, flags, src, sourceStart, sourceEnd, tgt[..], targetStart, targetEnd);
    ghost var done := NOTHING;
    call.Start();
    while source < sourceEnd
      invariant call.Standing(done, source, target, tgt[..])
      invariant result == done.Result()
    {
      ghost var source0, target0, now0 := source, target, tgt[..];
      var go: bool;
      result, source, target, go := Turn8to16(src, source, sourceEnd, tgt, target, targetEnd, flags, result);
      done := call.AfterTurn(done, source0, target0, now0, source, target, tgt[..], result, go);
      if !go { return; }
    }
    call.SourceRead(done, target, tgt[..]);
  }
}
