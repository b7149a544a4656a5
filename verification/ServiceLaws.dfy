/** The send loops of a service, answer by answer. */
module ServiceLaws {
  import opened Numbers
  import opened Octets
  import opened Ordered
  import opened WriterQueues
  import opened WriterPoolState
  import opened ServiceState

  /** One answer to a loop that has something to send: a good one takes as much of the front message as it
      says, and the message itself once all of it has been taken; a failure hands the peer over for removal;
      a refusal makes a peer that can be written wait until it can again. */
  lemma AnswerLaw(p: Peer, a: Answer)
    requires p.outq != []
    ensures var l, n := Sending(Loop(p, [a], [], false)), Min(a.n, |p.outq[0]|);
            && l.answers == []
            && (a.status == Good && n > 0 ==>
                  && l.moved == p.outq[0][..n] && !l.broken && l.peer == p.(outq := l.peer.outq)
                  && l.peer.outq == (if n == |p.outq[0]| then [] else [p.outq[0][n..]]) + p.outq[1..])
            && (a.status == Good && n == 0 ==> l.moved == [] && !l.broken && l.peer == p)
            && (a.status == Failure || a.status == Network ==>
                  l.moved == [] && l.broken && l.peer == p.(removed := true))
            && (a.status == Again || a.status == Overflow ==>
                  && l.moved == [] && l.broken
                  && l.peer == if p.canWrite then p.(canWrite := false, waiting := true) else p)
  {
    var l := Loop(p, [a], [], false);
    assert !Done(l) && Done(Turn(l));
    assert [] + p.outq[1..] == p.outq[1..];
  }

  /** A loop with nothing to send, without an answer, or told to stop does nothing. */
  lemma IdleLaw(p: Peer, answers: seq<Answer>, stop: bool)
    requires p.outq == [] || answers == [] || stop
    ensures Sending(Loop(p, answers, [], stop)) == Loop(p, answers, [], stop)
  {
  }

  /** The answers one after the other: a loop over a + b is the loop over a, and then that over b. */
  lemma {:induction false} AnswersInTwo(l: Loop, b: seq<Answer>)
    ensures var first := Sending(l);
            Sending(l.(answers := l.answers + b)) == Sending(first.(answers := first.answers + b))
    decreases |l.answers|
  {
    if !Done(l) {
      TurnBefore(l, b);
      hide Turn;
      AnswersInTwo(Turn(l), b);
    }
  }

  lemma TurnBefore(l: Loop, b: seq<Answer>)
    requires !Done(l)
    ensures var more := l.(answers := l.answers + b);
            && !Done(more) && Turn(more) == Turn(l).(answers := Turn(l).answers + b)
            && |Turn(l).answers| < |l.answers|
  {
    hide Erased;
    assert (l.answers + b)[1..] == l.answers[1..] + b;
  }

  /** What was sent before the loop makes no difference to it. */
  lemma {:induction false} SentBefore(l: Loop, before: Bytes)
    ensures Sending(l.(moved := before + l.moved)) == Sending(l).(moved := before + Sending(l).moved)
    decreases |l.answers|
  {
    if !Done(l) {
      TurnAfter(l, before);
      hide Turn;
      SentBefore(Turn(l), before);
    }
  }

  lemma TurnAfter(l: Loop, before: Bytes)
    requires !Done(l)
    ensures Turn(l.(moved := before + l.moved)) == Turn(l).(moved := before + Turn(l).moved)
    ensures !Done(l.(moved := before + l.moved)) && |Turn(l).answers| < |l.answers|
  {
    hide Erased;
    var n := Min(l.answers[0].n, |l.peer.outq[0]|);
    assert n >= 0 ==> before + (l.moved + l.peer.outq[0][..n]) == (before + l.moved) + l.peer.outq[0][..n];
  }

  /** In a pass of a server, a requester that cannot be written is skipped; any other gets its loop, with
      the answers that are left and the flag as it stands. */
  lemma TurnOfRequester(s: Pass, id: Id)
    requires id in s.peers
    ensures var r, p := ServedAll(s, [id]), s.peers[id];
            if !p.canWrite then r == s
            else
              var l := Sending(Loop(p, s.answers, [], s.broken));
              && r.peers == s.peers[id := l.peer] && r.answers == l.answers && r.broken == l.broken
              && r.moved == s.moved[id := l.moved] && r.total == s.total + |l.moved|
  {
    hide Sending;
  }
}
