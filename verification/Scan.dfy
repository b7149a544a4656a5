/**
 What one call of a conversion computes, for any pair of forms: a scan over the source that
 takes one character at a time while the target has room for it.
 */
module Scanning {
  import opened Unicode

  datatype ConversionResult = ConversionOK | SourceExhausted | TargetExhausted | SourceIllegal
  datatype ConversionFlags = Strict | Lenient

  // ---- Legality of UTF-8 -------------------------------------------------------------

  /** trailingBytesForUTF8, by ranges of the lead byte. */
  function TrailingBytes(lead: Unit): (n: nat)
    ensures n <= 5
  {
    if lead < 0xC0 then 0
    else if lead < 0xE0 then 1
    else if lead < 0xF0 then 2
    else if lead < 0xF8 then 3
    else if lead < 0xFC then 4
    else 5
  }

  predicate SecondByteLegal(lead: Unit, a: Unit) {
    a <= 0xBF &&
    if lead == 0xE0 then a >= 0xA0
    else if lead == 0xED then a <= 0x9F
    else if lead == 0xF0 then a >= 0x90
    else if lead == 0xF4 then a <= 0x8F
    else a >= 0x80
  }

  /** The bytes are checked from the last one back to the lead, as the switch falls through. */
  predicate IsLegalUTF8(source: seq<Unit>, length: nat)
    requires 1 <= length <= |source|
  {
    if length > 4 then false
    else if length >= 4 && !Tail(source[3]) then false
    else if length >= 3 && !Tail(source[2]) then false
    else if length >= 2 && !SecondByteLegal(source[0], source[1]) then false
    else if 0x80 <= source[0] < 0xC2 then false
    else source[0] <= 0xF4
  }

  predicate IsLegalUTF8Sequence(source: seq<Unit>)
    requires source != []
  {
    var length := TrailingBytes(source[0]) + 1;
    length <= |source| && IsLegalUTF8(source, length)
  }

  /** A sequence of the length its lead byte announces that passes the legality check. */
  predicate Accepted8(s: seq<Unit>) {
    s != [] && |s| == TrailingBytes(s[0]) + 1 && IsLegalUTF8(s, |s|)
  }

  /** Lead 0xED or 0xF4 with a second byte that is no continuation byte. */
  predicate LooseSecondByte(s: seq<Unit>) {
    || (|s| == 3 && s[0] == 0xED && s[1] < 0x80 && Tail(s[2]))
    || (|s| == 4 && s[0] == 0xF4 && s[1] < 0x80 && Tail(s[2]) && Tail(s[3]))
  }

  /** The check accepts the characters of RFC 3629 and the loose sequences, and nothing else. */
  lemma AcceptedExactly(s: seq<Unit>)
    ensures Accepted8(s) <==> IsChar8(s) || LooseSecondByte(s)
  {
  }

  /** Whatever the check accepts decodes to a scalar value. */
  lemma AcceptedIsScalar(s: seq<Unit>)
    requires Accepted8(s)
    ensures 0 <= Value8(s) < 0x11_0000 && !IsSurrogate(Value8(s))
  {
    if IsChar8(s) {
      CharIsEncoded8(s);
    }
  }

  // ---- One character -----------------------------------------------------------------

  /**
   What the head of a nonempty source asks for. Halt: stop in front of it. Put: take n units
   and write out, possibly flagging the source as illegal. Either happens only when the target
   has room for `need` units; otherwise the target is exhausted.
   */
  datatype Step =
    | Halt(result: ConversionResult, need: nat)
    | Put(n: nat, out: seq<Unit>, need: nat, flagged: bool)

  function PutChar(n: nat, to: Form, v: Unit): Step {
    Put(n, Encode(to, v), |Encode(to, v)|, false)
  }

  function Step8(to: Form, src: seq<Unit>): Step
    requires src != []
  {
    var n := TrailingBytes(src[0]) + 1;
    if |src| < n then Halt(SourceExhausted, 0)
    else if !IsLegalUTF8(src, n) then Halt(SourceIllegal, 0)
    else
      AcceptedIsScalar(src[..n]);
      PutChar(n, to, Value8(src[..n]))
  }

  function Step16(to: Form, flags: ConversionFlags, src: seq<Unit>): Step
    requires src != []
  {
    if IsHigh(src[0]) then
      if |src| == 1 then Halt(SourceExhausted, 0)
      else if IsLow(src[1]) then PutChar(2, to, PairValue(src[0], src[1]))
      else if flags == Strict then Halt(SourceIllegal, 0)
      else PutChar(1, to, src[0])
    else if IsLow(src[0]) && flags == Strict then Halt(SourceIllegal, 0)
    else PutChar(1, to, src[0])
  }

  function Step32(to: Form, flags: ConversionFlags, src: seq<Unit>): Step
    requires src != []
  {
    if to == UTF16 then
      if IsSurrogate(src[0]) then
        if flags == Strict then Halt(SourceIllegal, 1) else PutChar(1, to, REPLACEMENT)
      else if src[0] > 0x10_FFFF && flags == Strict then Put(1, [], 1, true)
      else PutChar(1, to, src[0])
    else if IsSurrogate(src[0]) && flags == Strict then Halt(SourceIllegal, 0)
    else Put(1, Encode(to, src[0]), |Encode(to, src[0])|, src[0] > 0x10_FFFF)
  }

  function Next(from: Form, to: Form, flags: ConversionFlags, src: seq<Unit>): (s: Step)
    requires src != []
    ensures s.Put? ==> 1 <= s.n <= |src| && |s.out| <= s.need <= 4 && s.need > 0
    ensures s.Halt? ==> s.result in {SourceExhausted, SourceIllegal} && s.need <= 1
  {
    match from
    case UTF8 => Step8(to, src)
    case UTF16 => Step16(to, flags, src)
    case UTF32 => Step32(to, flags, src)
  }

  // ---- A whole call ------------------------------------------------------------------

  /** Where a scan ends; `flagged` says that it has let an illegal value by. */
  datatype Outcome = Outcome(consumed: nat, out: seq<Unit>, flagged: bool, stop: ConversionResult)
  {
    /** The value the call returns: it keeps no flag when the call ends for want of room. */
    function Result(): ConversionResult {
      if stop == ConversionOK && flagged then SourceIllegal else stop
    }
  }

  const NOTHING := Outcome(0, [], false, ConversionOK)

  /** Two pieces of work, one after the other. */
  function Then(a: Outcome, b: Outcome): Outcome {
    Outcome(a.consumed + b.consumed, a.out + b.out, a.flagged || b.flagged, b.stop)
  }

  function Scan(from: Form, to: Form, flags: ConversionFlags, src: seq<Unit>, room: nat): (o: Outcome)
    ensures o.consumed <= |src| && |o.out| <= room
    decreases |src|
  {
    if src == [] then NOTHING
    else
      var step := Next(from, to, flags, src);
      if room < step.need then Outcome(0, [], false, TargetExhausted)
      else if step.Halt? then Outcome(0, [], false, step.result)
      else Then(Taken(step),
                Scan(from, to, flags, src[step.n..], room - |step.out|))
  }

  /** What taking a step does. */
  function Taken(step: Step): Outcome
    requires step.Put?
  {
    Outcome(step.n, step.out, step.flagged, ConversionOK)
  }

  lemma ScanStep(from: Form, to: Form, flags: ConversionFlags, src: seq<Unit>, room: nat)
    requires src != []
    ensures var step, o := Next(from, to, flags, src), Scan(from, to, flags, src, room);
            if room < step.need then o == Outcome(0, [], false, TargetExhausted)
            else if step.Halt? then o == Outcome(0, [], false, step.result)
            else o == Then(Taken(step), Scan(from, to, flags, src[step.n..], room - |step.out|))
  {
  }

  lemma ScanEmpty(from: Form, to: Form, flags: ConversionFlags, room: nat)
    ensures Scan(from, to, flags, [], room) == NOTHING
  {
  }

  /** `done` is the part of the call `whole` that precedes the source `rest` and the target `room`. */
  ghost predicate Partway(from: Form, to: Form, flags: ConversionFlags,
                          whole: Outcome, done: Outcome, rest: seq<Unit>, room: nat)
  {
    done.stop == ConversionOK && whole == Then(done, Scan(from, to, flags, rest, room))
  }

  lemma ThenAssociative(a: Outcome, b: Outcome, c: Outcome)
    ensures Then(Then(a, b), c) == Then(a, Then(b, c))
  {
    assert (a.out + b.out) + c.out == a.out + (b.out + c.out);
  }

  lemma Begin(from: Form, to: Form, flags: ConversionFlags, src: seq<Unit>, room: nat)
    ensures Partway(from, to, flags, Scan(from, to, flags, src, room), NOTHING, src, room)
  {
    assert [] + Scan(from, to, flags, src, room).out == Scan(from, to, flags, src, room).out;
  }

  lemma Advance(from: Form, to: Form, flags: ConversionFlags,
                whole: Outcome, done: Outcome, rest: seq<Unit>, room: nat, step: Step)
    requires rest != [] && step == Next(from, to, flags, rest) && step.Put? && step.need <= room
    requires Partway(from, to, flags, whole, done, rest, room)
    ensures Partway(from, to, flags, whole,
                    Then(done, Taken(step)),
                    rest[step.n..], room - |step.out|)
  {
    ThenAssociative(done, Taken(step),
                    Scan(from, to, flags, rest[step.n..], room - |step.out|));
  }

  lemma Finish(from: Form, to: Form, flags: ConversionFlags,
               whole: Outcome, done: Outcome, rest: seq<Unit>, room: nat)
    requires Partway(from, to, flags, whole, done, rest, room)
    ensures rest == [] ==> whole == done
    ensures rest != [] ==>
              var step := Next(from, to, flags, rest);
              && (room < step.need ==> whole == done.(stop := TargetExhausted))
              && (room >= step.need && step.Halt? ==> whole == done.(stop := step.result))
  {
    assert done.out + [] == done.out;
  }
}
