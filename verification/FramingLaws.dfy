/** The packets of the remote file protocol, byte by byte. */
module FramingLaws {
  import opened Octets
  import opened Framing

  /** The number whose four bytes stand at i, the most significant one first. */
  function NumberAt(d: Bytes, i: nat): int
    requires i + 4 <= |d|
  {
    var b: seq<int> := d;
    b[i] * 0x100_0000 + b[i + 1] * 0x1_0000 + b[i + 2] * 0x100 + b[i + 3]
  }

  lemma NumberIsValue(d: Bytes, i: nat)
    requires i + 4 <= |d|
    ensures Value4(d[i..i + 4]) == NumberAt(d, i)
  {
  }

  lemma NumberOfBig4(n: nat)
    requires n < 0x1_0000_0000
    ensures NumberAt(Big4(n), 0) == n
  {
  }

  /** A packet: the flag 0xBF, the size of the payload, the payload, two zero bytes and the flag 0xEF. */
  lemma EnvelopeLaw(p: Bytes)
    requires |p| < 0x1_0000_0000
    ensures var d := Envelope(p);
            && |d| == |p| + 8 && d[0] == 0xBF && NumberAt(d, 1) == |p| && d[5..5 + |p|] == p
            && d[5 + |p|] == 0 && d[6 + |p|] == 0 && d[7 + |p|] == 0xEF
  {
    hide Big4, Wrapped;
    NumberOfBig4(|p|);
    assert forall i | 0 <= i < 4 :: Envelope(p)[1 + i] == Big4(|p|)[i];
  }

  /** Data passes for a complete packet if it has eight bytes, and as many as the 32-bit sum says. */
  lemma CompleteLaw(d: Bytes)
    ensures |d| < 8 ==> !HasCompletePacket(d)
    ensures |d| >= 8 ==> (HasCompletePacket(d) <==> (8 + NumberAt(d, 1)) % 0x1_0000_0000 <= |d|)
  {
    hide Value4;
    if |d| >= 8 { NumberIsValue(d, 1); }
  }

  /** The packet at the front of the data is executed if and only if both flags are in their places; bytes
      that should be there and are not are read past the end. */
  lemma ExecLaw(d: Bytes)
    requires |d| >= 5 && |d| >= 8 + NumberAt(d, 1)
    ensures var sz := NumberAt(d, 1);
            if !(d[0] == 0xBF && d[7 + sz] == 0xEF) then Exec(d) == Done(false, 0, [])
            else if sz < 2 then Exec(d) == PastEnd
            else Exec(d) == Done(true, 8 + sz, d[5..5 + sz])
  {
    hide Value4;
    NumberIsValue(d, 1);
  }

  lemma ShortLaw(d: Bytes)
    requires d != [] && (|d| < 5 || |d| < 8 + NumberAt(d, 1))
    ensures Exec(d) == PastEnd && Exec([]) == Done(true, 0, [])
  {
    hide Value4;
    if |d| >= 5 { NumberIsValue(d, 1); }
  }

  /** The numbers of the methods, in the order of the source's enumeration. */
  const ORDER: seq<Method> := [SelectFile, OpenReadOnly, OpenWriteOnly, Close, Offset, SetPos, Read, Write]

  /** A payload begins with 1 for a request and 3 for a notification, then the place of the method in the
      enumeration; a request goes on with its id; then come the fields. Closing a file and setting its
      position are the notifications. */
  lemma PayloadLaw(m: Message, rid: nat, k: nat)
    requires rid < 0x1_0000_0000 && k < 8 && ORDER[k] == m.method'
    ensures var p := Payload(m, rid);
            && p[1] == k + 1
            && if k == 3 || k == 5 then p[0] == 3 && p[2..] == m.fields
               else p[0] == 1 && |p| >= 6 && NumberAt(p, 2) == rid && p[6..] == m.fields
  {
    NumberOfBig4(rid);
    hide Big4;
    assert k != 3 && k != 5 ==> forall i | 0 <= i < 4 :: Payload(m, rid)[2 + i] == Big4(rid)[i];
  }
}
