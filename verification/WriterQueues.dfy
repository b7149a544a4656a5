/** The output queue of a socket: messages that are sent piece by piece. */
module WriterQueues {
  import opened Numbers
  import opened Octets

  /** A message, and how much of it has been sent. */
  datatype Elem = Elem(b: Bytes, cursor: nat)

  predicate ValidQueue(q: seq<Elem>) {
    forall i | 0 <= i < |q| :: q[i].cursor < |q[i].b|
  }

  /** The bytes still to be sent. */
  function Pending(q: seq<Elem>): Bytes
    requires ValidQueue(q)
  {
    if q == [] then [] else q[0].b[q[0].cursor..] + Pending(q[1..])
  }

  function Enqueued(q: seq<Elem>, data: Bytes): seq<Elem> {
    if data == [] then q else q + [Elem(data, 0)]
  }

  /** The next piece to send: of the first message only, and no more than the frame size. */
  function Frame(q: seq<Elem>, frameSize: nat): Bytes
    requires ValidQueue(q)
  {
    if q == [] then [] else q[0].b[q[0].cursor..q[0].cursor + Min(|q[0].b| - q[0].cursor, frameSize)]
  }

  function Shifted(q: seq<Elem>, n: nat): seq<Elem>
    requires q != []
  {
    if q[0].cursor + n >= |q[0].b| then q[1..] else [q[0].(cursor := q[0].cursor + n)] + q[1..]
  }

  // ---- The queue is a stream of bytes ------------------------------------------------

  lemma {:induction false} PendingAppend(q: seq<Elem>, e: Elem)
    requires ValidQueue(q) && e.cursor < |e.b|
    ensures ValidQueue(q + [e]) && Pending(q + [e]) == Pending(q) + e.b[e.cursor..]
  {
    if q != [] {
      PendingAppend(q[1..], e);
      assert (q + [e])[1..] == q[1..] + [e];
    }
  }

  /** A message joins the end of the stream. */
  lemma EnqueueAppends(q: seq<Elem>, data: Bytes)
    requires ValidQueue(q)
    ensures ValidQueue(Enqueued(q, data)) && Pending(Enqueued(q, data)) == Pending(q) + data
  {
    if data != [] { PendingAppend(q, Elem(data, 0)); }
  }

  /** A frame is a piece of the front of the stream, as long as the first message and the frame size
      let it be, and empty only if there is nothing to send or no room to send it. */
  lemma FrameIsNext(q: seq<Elem>, frameSize: nat)
    requires ValidQueue(q)
    ensures var f := Frame(q, frameSize);
            && |f| <= |Pending(q)| && Pending(q)[..|f|] == f
            && |f| == (if q == [] then 0 else Min(|q[0].b| - q[0].cursor, frameSize))
            && (f == [] <==> frameSize == 0 || Pending(q) == [])
  {
  }

  /** How much of the front message is still to be sent. */
  function Remaining(q: seq<Elem>): nat
    requires ValidQueue(q) && q != []
  {
    |q[0].b| - q[0].cursor
  }

  /** Shifting takes so many bytes off the front of the stream, though never more than the front
      message. */
  lemma ShiftDrops(q: seq<Elem>, n: nat)
    requires ValidQueue(q) && q != []
    ensures Min(n, Remaining(q)) <= |Pending(q)|
    ensures ValidQueue(Shifted(q, n)) && Pending(Shifted(q, n)) == Pending(q)[Min(n, Remaining(q))..]
  {
    ShiftNoMore(q, n);
    ShiftWithin(q, Min(n, Remaining(q)));
    hide Pending, Shifted, ValidQueue;
  }

  lemma ShiftNoMore(q: seq<Elem>, n: nat)
    requires ValidQueue(q) && q != []
    ensures Shifted(q, n) == Shifted(q, Min(n, Remaining(q)))
  {
  }

  lemma ShiftWithin(q: seq<Elem>, n: nat)
    requires ValidQueue(q) && q != [] && n <= Remaining(q)
    ensures n <= |Pending(q)|
    ensures ValidQueue(Shifted(q, n)) && Pending(Shifted(q, n)) == Pending(q)[n..]
  {
    hide Pending, Shifted, ValidQueue;
    var e, rest := q[0], q[1..];
    FirstAndRest(q);
    if e.cursor + n < |e.b| {
      ShiftSome(e, rest, n);
    } else {
      ShiftWhole(e, rest);
    }
  }

  lemma ShiftSome(e: Elem, rest: seq<Elem>, n: nat)
    requires ValidQueue(rest) && e.cursor + n < |e.b|
    ensures var q := [e] + rest;
            ValidQueue(q) && ValidQueue(Shifted(q, n))
            && n <= |Pending(q)| && Pending(Shifted(q, n)) == Pending(q)[n..]
  {
    hide Pending, Shifted, ValidQueue;
    PendingOf(e, rest);
    DropFront(e, Pending(rest), n);
    ShiftFirst(e, rest, n);
    PendingOf(e.(cursor := e.cursor + n), rest);
  }

  lemma ShiftWhole(e: Elem, rest: seq<Elem>)
    requires ValidQueue(rest) && e.cursor < |e.b|
    ensures var q, n := [e] + rest, |e.b| - e.cursor;
            ValidQueue(q) && ValidQueue(Shifted(q, n))
            && n <= |Pending(q)| && Pending(Shifted(q, n)) == Pending(q)[n..]
  {
    hide Pending, Shifted, ValidQueue;
    PendingOf(e, rest);
    DropFront(e, Pending(rest), |e.b| - e.cursor);
    ShiftFirst(e, rest, |e.b| - e.cursor);
  }

  lemma FirstAndRest(q: seq<Elem>)
    requires ValidQueue(q) && q != []
    ensures q == [q[0]] + q[1..] && ValidQueue(q[1..]) && q[0].cursor < |q[0].b|
  {
  }

  lemma ShiftFirst(e: Elem, rest: seq<Elem>, n: nat)
    ensures Shifted([e] + rest, n) == if e.cursor + n < |e.b| then [e.(cursor := e.cursor + n)] + rest else rest
  {
    assert ([e] + rest)[1..] == rest;
  }

  lemma DropFront(e: Elem, rest: Bytes, n: nat)
    requires e.cursor + n <= |e.b|
    ensures (e.b[e.cursor..] + rest)[n..] == if e.cursor + n < |e.b| then e.b[e.cursor + n..] + rest else rest
  {
    var t := e.b[e.cursor..];
    DropSum(t, rest, n);
    assert t[n..] == e.b[e.cursor + n..];
    assert [] + rest == rest;
  }

  lemma DropSum(a: Bytes, b: Bytes, n: nat)
    requires n <= |a|
    ensures (a + b)[n..] == a[n..] + b
  {
  }

  lemma PendingOf(e: Elem, q: seq<Elem>)
    requires ValidQueue(q) && e.cursor < |e.b|
    ensures ValidQueue([e] + q) && Pending([e] + q) == e.b[e.cursor..] + Pending(q)
  {
    assert ([e] + q)[1..] == q;
  }

  class WriterQueue {
    var q: seq<Elem>

    ghost predicate Valid()
      reads this
    {
      ValidQueue(q)
    }

    constructor ()
      ensures Valid() && q == [] && Pending(q) == []
    {
      q := [];
    }

    method Enqueue(data: Bytes)
      requires Valid()
      modifies this
      ensures Valid() && q == Enqueued(old(q), data) && Pending(q) == old(Pending(q)) + data
    {
      EnqueueAppends(q, data);
      if data == [] { return; }
      q := q + [Elem(data, 0)];
    }

    method Empty() returns (empty: bool)
      requires Valid()
      ensures empty <==> Pending(q) == []
    {
      empty := q == [];
    }

    method GetFrame(frameSize: nat) returns (frame: Bytes)
      requires Valid()
      ensures frame == Frame(q, frameSize) && |frame| <= |Pending(q)| && Pending(q)[..|frame|] == frame
    {
      FrameIsNext(q, frameSize);
      if q == [] { return []; }
      var front := q[0];
      var size := Min(|front.b| - front.cursor, frameSize);
      frame := front.b[front.cursor..front.cursor + size];
    }

    /** Takes off the front what has been sent; a message sent in full is popped. */
    method Shift(n: nat)
      requires Valid() && q != []
      modifies this
      ensures Valid() && q == Shifted(old(q), n)
      ensures Min(n, old(Remaining(q))) <= |old(Pending(q))|
      ensures Pending(q) == old(Pending(q))[Min(n, old(Remaining(q)))..]
    {
      ShiftDrops(q, n);
      var front := q[0].(cursor := q[0].cursor + n);
      if front.cursor >= |front.b| {
        q := q[1..];
      } else {
        q := q[0 := front];
        assert q == [front] + old(q)[1..];
      }
    }
  }

  // ---- The queue of the service: the front message is erased as it is sent -----------

  /** The bytes still to be sent, by message. */
  function Chunks(q: seq<Elem>): (cs: seq<Bytes>)
    requires ValidQueue(q)
    ensures |cs| == |q| && forall i | 0 <= i < |q| :: cs[i] == q[i].b[q[i].cursor..]
  {
    seq(|q|, i requires 0 <= i < |q| => q[i].b[q[i].cursor..])
  }

  /** pop() when all of the front message is sent, erase() of what is sent otherwise. */
  function Erased(cs: seq<Bytes>, n: nat): seq<Bytes>
    requires cs != [] && n <= |cs[0]|
  {
    if n == |cs[0]| then cs[1..] else [cs[0][n..]] + cs[1..]
  }

  /** Moving a cursor along is erasing from the front. */
  lemma ShiftErases(q: seq<Elem>, n: nat)
    requires ValidQueue(q) && q != [] && n <= |q[0].b| - q[0].cursor
    ensures ValidQueue(Shifted(q, n)) && Chunks(Shifted(q, n)) == Erased(Chunks(q), n)
  {
    hide Chunks, Shifted, ValidQueue, Erased;
    var e, rest := q[0], q[1..];
    FirstAndRest(q);
    ChunksOf(e, rest);
    ShiftFirst(e, rest, n);
    EraseFirst(e, Chunks(rest), n);
    if e.cursor + n < |e.b| { ChunksOf(e.(cursor := e.cursor + n), rest); }
  }

  lemma EraseFirst(e: Elem, rest: seq<Bytes>, n: nat)
    requires e.cursor + n <= |e.b|
    ensures Erased([e.b[e.cursor..]] + rest, n)
         == if e.cursor + n < |e.b| then [e.b[e.cursor + n..]] + rest else rest
  {
    var cs := [e.b[e.cursor..]] + rest;
    assert cs[1..] == rest && cs[0][n..] == e.b[e.cursor + n..];
  }

  lemma ChunksOf(e: Elem, q: seq<Elem>)
    requires ValidQueue(q) && e.cursor < |e.b|
    ensures ValidQueue([e] + q) && Chunks([e] + q) == [e.b[e.cursor..]] + Chunks(q)
  {
  }

  /** Erasing takes what is sent off the front of the stream. */
  lemma EraseDrops(cs: seq<Bytes>, n: nat)
    requires cs != [] && n <= |cs[0]|
    ensures n <= |Joined(cs)| && Joined(cs) == cs[0][..n] + Joined(Erased(cs, n))
  {
    assert cs[0] == cs[0][..n] + cs[0][n..];
    var more := Erased(cs, n);
    if n < |cs[0]| {
      assert more[1..] == cs[1..];
    }
  }

  lemma {:induction false} JoinedAppend(cs: seq<Bytes>, data: Bytes)
    ensures Joined(cs + [data]) == Joined(cs) + data
  {
    if cs != [] {
      assert (cs + [data])[1..] == cs[1..] + [data];
      JoinedAppend(cs[1..], data);
    }
  }
}
