/** The envelopes of the remote file protocol. */
module Framing {
  import opened Octets

  const BEGIN: Byte := 0xBF
  const END: Byte := 0xEF

  /** The two flags, the size and the checksum. */
  const MIN_PACKET_SIZE: nat := 8

  /** std::uint32_t */
  const WORD32: nat := 0x1_0000_0000

  /** Four bytes, the most significant one first. */
  function Big4(n: nat): (d: Bytes)
    requires n < WORD32
    ensures |d| == 4
  {
    var a := n / 0x100;
    var b := a / 0x100;
    [b / 0x100, b % 0x100, a % 0x100, n % 0x100]
  }

  function Horner(x: int, y: int): int { x * 0x100 + y }

  function Value4(d: Bytes): (n: nat)
    requires |d| == 4
    ensures n < WORD32
  {
    Horner(Horner(Horner(d[0], d[1]), d[2]), d[3])
  }

  lemma Value4OfBig4(n: nat)
    requires n < WORD32
    ensures Value4(Big4(n)) == n
  {
  }

  lemma Big4OfValue4(d: Bytes)
    requires |d| == 4
    ensures Big4(Value4(d)) == d
  {
    Digit(Horner(Horner(d[0], d[1]), d[2]), d[3]);
    Digit(Horner(d[0], d[1]), d[2]);
    Digit(d[0], d[1]);
    hide Horner;
  }

  lemma Digit(x: int, y: int)
    requires 0 <= y < 0x100
    ensures Horner(x, y) / 0x100 == x && Horner(x, y) % 0x100 == y
  {
  }

  /** A conversion to std::uint32_t. */
  function Wrapped(n: nat): (r: nat)
    ensures r < WORD32 && (n < WORD32 ==> r == n) && (WORD32 <= n < 2 * WORD32 ==> r == n - WORD32)
  {
    n % WORD32
  }

  /** serialize_envelope: the checksum is always zero. */
  function Envelope(payload: Bytes): (d: Bytes)
    ensures |d| == MIN_PACKET_SIZE + |payload|
  {
    [BEGIN] + Big4(Wrapped(|payload|)) + payload + [0, 0] + [END]
  }

  /** The size field. */
  function SizeAt(d: Bytes): (n: nat)
    requires |d| >= 5
    ensures n < WORD32
  {
    Value4(d[1..5])
  }

  /** The sum is taken modulo 2^32. */
  predicate HasCompletePacket(d: Bytes) {
    |d| >= MIN_PACKET_SIZE && Wrapped(MIN_PACKET_SIZE + SizeAt(d)) <= |d|
  }

  /** What exec returns, and the payload that it has processed; or the stream is read past its end. */
  datatype ExecResult = Done(success: bool, consumed: nat, payload: Bytes) | PastEnd

  /** The checksum is read but not looked at. An operation and a method are read from the payload. */
  function Exec(d: Bytes): (r: ExecResult)
    ensures r.Done? ==> r.consumed <= |d| && (r.success && d != [] ==> r.consumed > 0)
  {
    if d == [] then Done(true, 0, [])
    else if |d| < 5 || |d| < MIN_PACKET_SIZE + SizeAt(d) then PastEnd
    else
      var sz := SizeAt(d);
      if !(d[0] == BEGIN && d[5 + sz + 2] == END) then Done(false, 0, [])
      else if sz < 2 then PastEnd
      else Done(true, MIN_PACKET_SIZE + sz, d[5..5 + sz])
  }

  // ---- One packet --------------------------------------------------------------------

  /** A payload that exec accepts, and whose packet has a size of 32 bits. */
  predicate GoodPayload(p: Bytes) { 2 <= |p| && MIN_PACKET_SIZE + |p| < WORD32 }

  lemma EnvelopeParts(p: Bytes, more: Bytes)
    requires |p| < WORD32
    ensures var d := Envelope(p) + more;
            && |d| >= MIN_PACKET_SIZE + |p| && SizeAt(d) == |p| && d[0] == BEGIN && d[5 + |p| + 2] == END
            && d[5..5 + |p|] == p && d[MIN_PACKET_SIZE + |p|..] == more
  {
    hide Big4, Value4, Wrapped;
    var d := Envelope(p) + more;
    assert d[1..5] == Big4(|p|);
    Value4OfBig4(|p|);
  }

  /** What is serialized is complete, and is executed as it was, whatever follows it. */
  lemma RoundTrip(p: Bytes, more: Bytes)
    requires GoodPayload(p)
    ensures HasCompletePacket(Envelope(p) + more)
    ensures Exec(Envelope(p) + more) == Done(true, MIN_PACKET_SIZE + |p|, p)
  {
    hide Envelope, SizeAt, Wrapped;
    EnvelopeParts(p, more);
  }

  /** What is executed is an envelope, but for the checksum. */
  lemma ExecutedIsEnvelope(d: Bytes)
    requires Exec(d).Done? && Exec(d).success && d != []
    ensures var p, n := Exec(d).payload, Exec(d).consumed;
            && n == MIN_PACKET_SIZE + |p| <= |d| && |p| < WORD32
            && d[..n] == Envelope(p)[5 + |p| := d[5 + |p|]][6 + |p| := d[6 + |p|]]
  {
    hide Big4, Value4, Wrapped;
    var sz := SizeAt(d);
    Big4OfValue4(d[1..5]);
    var p := d[5..5 + sz];
    assert d[..8 + sz] == [d[0]] + d[1..5] + p + [d[5 + sz], d[6 + sz]] + [d[7 + sz]];
    assert Envelope(p) == [d[0]] + d[1..5] + p + [0, 0] + [d[7 + sz]];
  }

  /** The test for a complete packet is right if and only if the size does not make the sum wrap,
      or the packet is there all the same. */
  lemma CompleteExactly(d: Bytes)
    requires |d| >= MIN_PACKET_SIZE
    ensures (HasCompletePacket(d) <==> MIN_PACKET_SIZE + SizeAt(d) <= |d|)
            <==> SizeAt(d) < WORD32 - MIN_PACKET_SIZE || MIN_PACKET_SIZE + SizeAt(d) <= |d|
  {
    hide SizeAt, Wrapped;
  }

  /** A size of 2^32 - 1 passes for complete, and is then read past its end. */
  lemma WrapBreaks()
    ensures var d := [BEGIN, 0xFF, 0xFF, 0xFF, 0xFF, 0, 0, END]; HasCompletePacket(d) && Exec(d) == PastEnd
  {
    var d := [BEGIN, 0xFF, 0xFF, 0xFF, 0xFF, 0, 0, END];
    assert d[1..5] == [0xFF, 0xFF, 0xFF, 0xFF];
    assert SizeAt(d) == WORD32 - 1;
    assert Wrapped(MIN_PACKET_SIZE + SizeAt(d)) == 7;
  }

  // ---- A stream of packets -----------------------------------------------------------

  /** The payloads that were executed, what is left, and whether all went well. */
  datatype Decoded = Decoded(packets: seq<Bytes>, rest: Bytes, ok: bool)

  /** Executes packets as long as there is a complete one. */
  function Decode(d: Bytes): Decoded
    decreases |d|
  {
    CompleteIsSome(d);
    if !HasCompletePacket(d) then Decoded([], d, true)
    else
      var e := Exec(d);
      if e.PastEnd? || !e.success then Decoded([], d, false)
      else
        var more := Decode(d[e.consumed..]);
        more.(packets := [e.payload] + more.packets)
  }

  /** More data does not change what a packet is. */
  lemma MoreData(d: Bytes, more: Bytes)
    ensures HasCompletePacket(d) ==> HasCompletePacket(d + more)
    ensures Exec(d).Done? && d != [] ==> Exec(d + more) == Exec(d)
    ensures Exec(d).Done? ==> (d + more)[Exec(d).consumed..] == d[Exec(d).consumed..] + more
  {
    hide Value4, Wrapped;
    if |d| >= 5 {
      assert (d + more)[1..5] == d[1..5];
      var sz := SizeAt(d);
      if |d| >= MIN_PACKET_SIZE + sz { assert (d + more)[5..5 + sz] == d[5..5 + sz]; }
    }
  }

  lemma CompleteIsSome(d: Bytes)
    ensures HasCompletePacket(d) ==> d != []
  {
  }

  lemma DecodeFirst(d: Bytes)
    requires HasCompletePacket(d) && Decode(d).ok
    ensures d != [] && Exec(d).Done? && Exec(d).success
    ensures var more := Decode(d[Exec(d).consumed..]);
            Decode(d) == Decoded([Exec(d).payload] + more.packets, more.rest, more.ok)
  {
    CompleteIsSome(d);
    hide Exec, HasCompletePacket;
  }

  /** Decoding what has come so far, and the rest when it comes, is decoding all at once. */
  lemma {:induction false} DecodeInTwo(a: Bytes, b: Bytes)
    requires Decode(a).ok
    ensures var x, y := Decode(a), Decode(Decode(a).rest + b);
            Decode(a + b) == Decoded(x.packets + y.packets, y.rest, y.ok)
    decreases |a|
  {
    hide Exec, HasCompletePacket, Decode;
    if HasCompletePacket(a) {
      DecodeFirst(a);
      MoreData(a, b);
      DecodeInTwo(a[Exec(a).consumed..], b);
      var more, y := Decode(a[Exec(a).consumed..]), Decode(Decode(a).rest + b);
      assert ([Exec(a).payload] + more.packets) + y.packets == [Exec(a).payload] + (more.packets + y.packets);
      DecodeAgain(a, b);
    } else {
      DecodeNone(a);
      assert [] + Decode(a + b).packets == Decode(a + b).packets;
    }
  }

  lemma DecodeNone(d: Bytes)
    requires !HasCompletePacket(d)
    ensures Decode(d) == Decoded([], d, true)
  {
  }

  lemma DecodeAgain(a: Bytes, b: Bytes)
    requires HasCompletePacket(a) && a != [] && Exec(a).Done? && Exec(a).success
    ensures var more := Decode(a[Exec(a).consumed..] + b);
            Decode(a + b) == Decoded([Exec(a).payload] + more.packets, more.rest, more.ok)
  {
    hide Exec, HasCompletePacket;
    MoreData(a, b);
  }

  function Stream(ps: seq<Bytes>): Bytes {
    if ps == [] then [] else Envelope(ps[0]) + Stream(ps[1..])
  }

  predicate AllGood(ps: seq<Bytes>) { forall i | 0 <= i < |ps| :: GoodPayload(ps[i]) }

  /** A proper prefix of an envelope is not complete. */
  lemma PartIncomplete(p: Bytes, d: Bytes)
    requires GoodPayload(p) && d <= Envelope(p) && |d| < |Envelope(p)|
    ensures !HasCompletePacket(d)
  {
    hide Big4, Value4, Wrapped;
    if |d| >= MIN_PACKET_SIZE {
      EnvelopeParts(p, []);
      assert Envelope(p) + [] == Envelope(p);
      assert d[1..5] == Envelope(p)[1..5];
    }
  }

  /** Any prefix of a stream of envelopes is decoded to exactly the packets that lie wholly inside it,
      and what is left is a proper prefix of the next envelope. */
  lemma {:induction false} PrefixDecodes(ps: seq<Bytes>, d: Bytes)
    requires AllGood(ps) && d <= Stream(ps)
    ensures var r, k := Decode(d), |Decode(d).packets|;
            && r.ok && k <= |ps| && r.packets == ps[..k] && d == Stream(ps[..k]) + r.rest
            && if k < |ps| then r.rest <= Envelope(ps[k]) && |r.rest| < |Envelope(ps[k])| else r.rest == []
    decreases |ps|
  {
    hide GoodPayload;
    if ps != [] {
      var e := Envelope(ps[0]);
      assert GoodPayload(ps[0]);
      if |d| < |e| {
        assert d == e[..|d|];
        PartIncomplete(ps[0], d);
      } else {
        var more := d[|e|..];
        assert d == e + more && more <= Stream(ps[1..]);
        RoundTrip(ps[0], more);
        PrefixDecodes(ps[1..], more);
        hide Envelope, HasCompletePacket, Exec;
        PrefixAlong(ps, more, d);
      }
    }
  }

  lemma PrefixAlong(ps: seq<Bytes>, more: Bytes, d: Bytes)
    requires ps != [] && d == Envelope(ps[0]) + more
    requires Decode(d) == Decoded([ps[0]] + Decode(more).packets, Decode(more).rest, Decode(more).ok)
    requires var k := |Decode(more).packets|;
             k <= |ps[1..]| && Decode(more).packets == ps[1..][..k] && more == Stream(ps[1..][..k]) + Decode(more).rest
    ensures var k := |Decode(d).packets|;
            k <= |ps| && Decode(d).packets == ps[..k] && d == Stream(ps[..k]) + Decode(d).rest
            && (k < |ps| ==> ps[k] == ps[1..][k - 1])
  {
    hide Decode, Envelope;
    var k := |Decode(more).packets| + 1;
    assert ps[..k][1..] == ps[1..][..k - 1];
    assert ps[..k] == [ps[0]] + ps[1..][..k - 1];
  }

  /** The whole stream is decoded to all the packets. */
  lemma StreamDecodes(ps: seq<Bytes>)
    requires AllGood(ps)
    ensures Decode(Stream(ps)) == Decoded(ps, [], true)
  {
    PrefixDecodes(ps, Stream(ps));
    var r := Decode(Stream(ps));
    if |r.packets| < |ps| {
      StreamBehind(ps, |r.packets|);
    }
  }

  lemma {:induction false} StreamBehind(ps: seq<Bytes>, k: nat)
    requires k < |ps|
    ensures |Stream(ps)| >= |Stream(ps[..k])| + |Envelope(ps[k])|
    decreases k
  {
    hide Envelope;
    if k > 0 {
      StreamBehind(ps[1..], k - 1);
      assert ps[..k][1..] == ps[1..][..k - 1];
    }
  }

  /** A receiver that decodes whenever a chunk arrives. */
  function Received(buf: Bytes, chunks: seq<Bytes>): Decoded
    decreases |chunks|
  {
    if chunks == [] then Decoded([], buf, true)
    else
      var now := Decode(buf + chunks[0]);
      if !now.ok then now
      else
        var later := Received(now.rest, chunks[1..]);
        later.(packets := now.packets + later.packets)
  }

  lemma {:induction false} StreamSplit(ps: seq<Bytes>, k: nat)
    requires k <= |ps|
    ensures Stream(ps) == Stream(ps[..k]) + Stream(ps[k..])
    decreases k
  {
    hide Envelope;
    if k == 0 {
      assert ps[0..] == ps && [] + Stream(ps) == Stream(ps);
    } else {
      StreamSplit(ps[1..], k - 1);
      assert ps[..k][1..] == ps[1..][..k - 1] && ps[k..] == ps[1..][k - 1..];
      assert (Envelope(ps[0]) + Stream(ps[1..][..k - 1])) + Stream(ps[k..])
          == Envelope(ps[0]) + (Stream(ps[1..][..k - 1]) + Stream(ps[k..]));
    }
  }

  /** However a stream of packets is cut into chunks, the same packets come out. */
  lemma {:induction false} ChunksDoNotMatter(ps: seq<Bytes>, buf: Bytes, chunks: seq<Bytes>)
    requires AllGood(ps) && buf + Joined(chunks) <= Stream(ps) && Decode(buf) == Decoded([], buf, true)
    ensures Received(buf, chunks) == Decode(buf + Joined(chunks))
    decreases |chunks|
  {
    hide HasCompletePacket, Exec, Decode, GoodPayload;
    if chunks == [] {
      assert buf + [] == buf;
    } else {
      var a, b := buf + chunks[0], Joined(chunks[1..]);
      assert buf + (chunks[0] + b) == a + b && a <= Stream(ps);
      PrefixDecodes(ps, a);
      DecodeInTwo(a, b);
      RestIsRest(a);
      var r := Decode(a);
      StreamSplit(ps, |r.packets|);
      Cancel(Stream(ps[..|r.packets|]), r.rest, b, Stream(ps[|r.packets|..]));
      ChunksDoNotMatter(ps[|r.packets|..], r.rest, chunks[1..]);
    }
  }

  lemma Cancel(head: Bytes, rest: Bytes, b: Bytes, tail: Bytes)
    requires (head + rest) + b <= head + tail
    ensures rest + b <= tail
  {
    assert (head + rest) + b == head + (rest + b);
    assert (head + (rest + b))[|head|..] == rest + b && (head + tail)[|head|..] == tail;
  }

  /** What is left is not complete. */
  lemma {:induction false} RestIsRest(d: Bytes)
    requires Decode(d).ok
    ensures Decode(Decode(d).rest) == Decoded([], Decode(d).rest, true)
    decreases |d|
  {
    if HasCompletePacket(d) { RestIsRest(d[Exec(d).consumed..]); }
  }

  // ---- The protocol object -----------------------------------------------------------

  datatype Method = SelectFile | OpenReadOnly | OpenWriteOnly | Close | Offset | SetPos | Read | Write

  /** A message: what it is for, and its fields as the stream writes them. */
  datatype Message = Message(method': Method, fields: Bytes)

  function MethodCode(m: Method): Byte {
    match m
    case SelectFile => 1
    case OpenReadOnly => 2
    case OpenWriteOnly => 3
    case Close => 4
    case Offset => 5
    case SetPos => 6
    case Read => 7
    case Write => 8
  }

  /** Closing and setting the position are notifications, and carry no request id. */
  predicate IsNotification(m: Method) { m.Close? || m.SetPos? }

  /** The operation and the method, the id of a request, and the fields. */
  function Payload(m: Message, rid: nat): (p: Bytes)
    requires rid < WORD32
    ensures |p| >= 2 && |p| <= 6 + |m.fields|
  {
    if IsNotification(m.method') then [3, MethodCode(m.method')] + m.fields
    else [1, MethodCode(m.method')] + Big4(rid) + m.fields
  }

  class Protocol {
    var rid: nat   // the id of the last request

    ghost predicate Valid()
      reads this
    {
      rid < WORD32
    }

    constructor ()
      ensures Valid() && rid == 0
    {
      rid := 0;
    }

    method NextRid() returns (r: nat)
      requires Valid()
      modifies this
      ensures Valid() && r == rid == Wrapped(old(rid) + 1)
    {
      rid := (rid + 1) % WORD32;
      r := rid;
    }

    /** Requests are numbered. A serialized packet whose size has 32 bits is complete, and executes
        to its payload. */
    method Serialize(m: Message) returns (packet: Bytes)
      requires Valid()
      modifies this
      ensures Valid() && rid == if IsNotification(m.method') then old(rid) else Wrapped(old(rid) + 1)
      ensures packet == Envelope(Payload(m, rid))
      ensures |packet| < WORD32 ==> HasCompletePacket(packet) && Exec(packet) == Done(true, |packet|, Payload(m, rid))
    {
      hide Big4, Exec, HasCompletePacket, Envelope, MethodCode;
      var payload: Bytes;
      if IsNotification(m.method') {
        payload := [3, MethodCode(m.method')] + m.fields;
      } else {
        var r := NextRid();
        payload := [1, MethodCode(m.method')] + Big4(r) + m.fields;
      }
      packet := Envelope(payload);
      if |packet| < WORD32 {
        RoundTrip(payload, []);
        assert packet + [] == packet;
      }
    }
  }
}
