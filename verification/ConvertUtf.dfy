/** The tables of the conversions, and the two switches that read and write one UTF-8 sequence. */
module ConvertUtf {
  import opened Bits
  import opened Octets
  import opened Unicode
  import opened Scanning

  /** Values subtracted after the bytes of a sequence have been summed. */
  const OFFSETS_FROM_UTF8: seq<Unit> := [0, 0x3080, 0xE_2080, 0x3C8_2080, 0xFA08_2080, 0x8208_2080]

  /** firstByteMark: the mark or-ed into the lead byte, by the length of the sequence. */
  function FirstByteMark(n: nat): Unit {
    if n < 2 then 0x00 else if n == 2 then 0xC0 else if n == 3 then 0xE0
    else if n == 4 then 0xF0 else if n == 5 then 0xF8 else 0xFC
  }

  const HALF_BASE: Unit := 0x1_0000
  const HALF_MASK: Unit := 0x3FF
  const BYTE_MASK: Unit := 0xBF
  const BYTE_MARK: Unit := 0x80

  /** Unsigned 32-bit arithmetic wraps around. */
  function Unsigned32(x: int): Unit { if 0 <= x < 0x1_0000_0000 then x else x % 0x1_0000_0000 }

  // ---- Reading and writing UTF-8 sequences -------------------------------------------

  /** The running sum of a sequence, shifted by six bits after each byte but the last. */
  function Accumulate(bytes: seq<Unit>, ch: Unit): Unit {
    if bytes == [] then ch
    else if |bytes| == 1 then Unsigned32(ch + bytes[0])
    else Accumulate(bytes[1..], Unsigned32(Unsigned32(ch + bytes[0]) * 64))
  }

  /** One case of the reading switch that falls through to the next. */
  lemma Shifted(s: seq<Unit>, ch: Unit)
    requires |s| > 1
    ensures Accumulate(s, ch) == Accumulate(s[1..], Unsigned32(Unsigned32(ch + s[0]) * 64))
  {
  }

  lemma AccumulateTwo(a: Unit, b: Unit, ch: Unit)
    ensures Accumulate([a, b], ch) == Unsigned32(Unsigned32(Unsigned32(ch + a) * 64) + b)
  {
    Shifted([a, b], ch);
    assert [a, b][1..] == [b];
  }

  lemma AccumulateThree(a: Unit, b: Unit, c: Unit)
    requires a < 0x100 && b < 0x100 && c < 0x100
    ensures Accumulate([a, b, c], 0) == a * 4096 + b * 64 + c
  {
    Shifted([a, b, c], 0);
    assert [a, b, c][1..] == [b, c];
    AccumulateTwo(b, c, a * 64);
  }

  lemma AccumulateFour(a: Unit, b: Unit, c: Unit, d: Unit)
    requires a < 0x100 && b < 0x100 && c < 0x100 && d < 0x100
    ensures Accumulate([a, b, c, d], 0) == a * 0x4_0000 + b * 4096 + c * 64 + d
  {
    Shifted([a, b, c, d], 0);
    assert [a, b, c, d][1..] == [b, c, d];
    Shifted([b, c, d], a * 64);
    assert [b, c, d][1..] == [c, d];
    AccumulateTwo(c, d, (a * 64 + b) * 64);
  }

  /** The sum, less the offset for its length, is the character number the sequence carries. */
  lemma AccumulatedValue(s: seq<Unit>)
    requires Accepted8(s)
    ensures Unsigned32(Accumulate(s, 0) - OFFSETS_FROM_UTF8[|s| - 1]) == Value8(s)
  {
    AcceptedIsScalar(s);
    AcceptedExactly(s);
    if |s| == 2 {
      assert s == [s[0], s[1]];
      AccumulateTwo(s[0], s[1], 0);
    } else if |s| == 3 {
      assert s == [s[0], s[1], s[2]];
      AccumulateThree(s[0], s[1], s[2]);
    } else if |s| == 4 {
      assert s == [s[0], s[1], s[2], s[3]];
      AccumulateFour(s[0], s[1], s[2], s[3]);
    }
  }

  /** The reading switch, as the loop it unrolls. */
  method ReadSequence(src: seq<Byte>, start: nat, extra: nat) returns (ch: Unit, source: nat)
    requires extra <= 5 && start + extra < |src|
    ensures source == start + extra + 1
    ensures ch == Accumulate(src[start..source], 0)
  {
    ch, source := 0, start;
    var tmpBytesToRead := extra + 1;
    ghost var end := start + extra + 1;
    while tmpBytesToRead > 0
      invariant 0 <= tmpBytesToRead <= extra + 1 && source == end - tmpBytesToRead
      invariant Accumulate(src[source..end], ch) == Accumulate(src[start..end], 0)
    {
      assert src[source..end][1..] == src[source + 1..end];
      ch := Unsigned32(ch + src[source]);
      source := source + 1;
      tmpBytesToRead := tmpBytesToRead - 1;
      if tmpBytesToRead > 0 { ch := Unsigned32(ch * 64); }
    }
  }

  function BytesToWrite(ch: Unit): nat {
    if ch < 0x80 then 1 else if ch < 0x800 then 2 else if ch < 0x1_0000 then 3 else 4
  }

  /** The n bytes that carry ch in a sequence of `length` bytes. */
  function Pack(ch: Unit, n: nat, length: nat): seq<int>
    requires 1 <= n <= length <= 4
  {
    if n == 1 then [ch + FirstByteMark(length)] else Pack(ch / 64, n - 1, length) + [0x80 + ch % 64]
  }

  lemma PackStep(ch: Unit, n: nat, length: nat, code: seq<int>)
    requires 1 < n <= length <= 4 && n <= |code| && Pack(ch, n, length) == code[..n]
    ensures code[n - 1] == 0x80 + ch % 64
    ensures Pack(ch / 64, n - 1, length) == code[..n - 1]
  {
    assert code[..n][n - 1] == code[n - 1];
    assert Pack(ch, n, length)[..n - 1] == Pack(ch / 64, n - 1, length) by {
      PackLength(ch / 64, n - 1, length);
    }
    assert code[..n][..n - 1] == code[..n - 1];
  }

  lemma {:induction false} PackLength(ch: Unit, n: nat, length: nat)
    requires 1 <= n <= length <= 4
    ensures |Pack(ch, n, length)| == n
  {
    if n > 1 { PackLength(ch / 64, n - 1, length); }
  }

  lemma PackEncodes(ch: Unit)
    requires ch < 0x11_0000
    ensures Pack(ch, BytesToWrite(ch), BytesToWrite(ch)) == Encode8(ch)
  {
    assert ch / 64 / 64 == ch / 4096 && ch / 4096 / 64 == ch / 0x4_0000;
    var n := BytesToWrite(ch);
    if n == 3 {
      assert Pack(ch / 64, 2, 3) == [0xE0 + ch / 4096, 0x80 + ch / 64 % 64];
    } else if n == 4 {
      assert Pack(ch / 4096, 2, 4) == [0xF0 + ch / 0x4_0000, 0x80 + ch / 4096 % 64];
    }
  }

  /** The lead byte of a sequence of n bytes is its mark plus bits below the mark. */
  predicate IsLead(lead: int, n: nat)
    requires 1 <= n <= 4
  {
    var c := lead - FirstByteMark(n);
    0 <= c < (if n == 1 then 0x80 else if n == 2 then 32 else if n == 3 then 16 else 8)
  }

  lemma EncodeLead(ch: Unit)
    requires ch < 0x11_0000
    ensures IsLead(Encode8(ch)[0], BytesToWrite(ch))
  {
  }

  /** The body of cases 2 to 4: write a continuation byte in front of the cursor. */
  method WriteContinuation(tgt: array<Byte>, target: nat, ch: Unit)
    requires target < tgt.Length
    modifies tgt
    ensures tgt[..] == old(tgt[..])[target := 0x80 + ch % 64]
  {
    ContinuationByte(ch);
    tgt[target] := BitAnd(BitOr(ch, BYTE_MARK), BYTE_MASK);
  }

  /** The buffer `was` with the bytes of code from number n on written at `start`. */
  function Overlay(was: seq<int>, start: nat, code: seq<int>, n: nat): (s: seq<int>)
    requires n <= |code| && start + |code| <= |was|
    ensures |s| == |was|
  {
    was[..start + n] + code[n..] + was[start + |code|..]
  }

  lemma OverlayStep(was: seq<int>, start: nat, code: seq<int>, n: nat)
    requires 1 <= n <= |code| && start + |code| <= |was|
    ensures Overlay(was, start, code, n)[start + n - 1 := code[n - 1]] == Overlay(was, start, code, n - 1)
  {
  }

  lemma OverlayNothing(was: seq<int>, start: nat, code: seq<int>)
    requires start + |code| <= |was|
    ensures Overlay(was, start, code, |code|) == was
  {
  }

  lemma PackLead(ch: Unit, length: nat, code: seq<int>)
    requires 1 <= length == |code| <= 4 && Pack(ch, 1, length) == code[..1] && IsLead(code[0], length)
    ensures code[0] == ch + FirstByteMark(length) && IsLead(ch + FirstByteMark(length), length)
  {
    assert code[..1][0] == code[0];
  }

  lemma LeadMark(ch: Unit, n: nat)
    requires 1 <= n <= 4 && IsLead(ch + FirstByteMark(n), n)
    ensures BitOr(ch, FirstByteMark(n)) == ch + FirstByteMark(n) < 0x100
  {
    LeadByte(ch, FirstByteMark(n));
  }

  /** The body of case 1: write the lead byte, marked with the length of the sequence. */
  method WriteLead(tgt: array<Byte>, target: nat, ch: Unit, n: nat)
    requires target < tgt.Length && 1 <= n <= 4 && IsLead(ch + FirstByteMark(n), n)
    modifies tgt
    ensures tgt[..] == old(tgt[..])[target := ch + FirstByteMark(n)]
  {
    LeadMark(ch, n);
    tgt[target] := BitOr(ch, FirstByteMark(n)) % 0x100;
  }

  /** The writing switch, as the loop it unrolls: backwards from the end of the sequence. */
  method WriteDigits(tgt: array<Byte>, start: nat, ch0: Unit, bytesToWrite: nat, ghost code: seq<int>)
    requires 1 <= bytesToWrite <= 4 && start + bytesToWrite <= tgt.Length
    requires code == Pack(ch0, bytesToWrite, bytesToWrite) && |code| == bytesToWrite
    requires IsLead(code[0], bytesToWrite)
    modifies tgt
    ensures tgt[..] == Overlay(old(tgt[..]), start, code, 0)
  {
    hide Pack, IsLead, FirstByteMark, Overlay;
    ghost var was: seq<int> := tgt[..];
    OverlayNothing(was, start, code);
    assert code == code[..bytesToWrite];
    var ch, target, n := ch0, start + bytesToWrite, bytesToWrite;
    while n > 1
      invariant 1 <= n <= bytesToWrite && target == start + n
      invariant tgt[..] == Overlay(was, start, code, n)
      invariant Pack(ch, n, bytesToWrite) == code[..n]
    {
      PackStep(ch, n, bytesToWrite, code);
      OverlayStep(was, start, code, n);
      target := target - 1;
      WriteContinuation(tgt, target, ch);
      ch := ch / 64;
      n := n - 1;
    }
    OverlayStep(was, start, code, 1);
    PackLead(ch, bytesToWrite, code);
    target := target - 1;
    WriteLead(tgt, target, ch, bytesToWrite);
  }

  method WriteSequence(tgt: array<Byte>, start: nat, ch: Unit)
    requires ch < 0x11_0000 && start + BytesToWrite(ch) <= tgt.Length
    modifies tgt
    ensures |Encode8(ch)| == BytesToWrite(ch)
    ensures tgt[..] == old(tgt[..start]) + Encode8(ch) + old(tgt[start + BytesToWrite(ch)..])
  {
    PackEncodes(ch);
    EncodeLead(ch);
    WriteDigits(tgt, start, ch, BytesToWrite(ch), Encode8(ch));
  }
}
