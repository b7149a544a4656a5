/** The send loops of a client and of a server: what a script of answers of the sockets leads to. */
module ServiceState {
  import opened Numbers
  import opened Octets
  import opened Ordered
  import opened WriterQueues
  import opened WriterPoolState

  datatype Answer = Answer(status: Status, n: nat)

  /** One end of a connection: whether it can be written, its output queue, whether its poller
      watches it for writing, and whether it has been handed to the poller for removal. */
  datatype Peer = Peer(canWrite: bool, outq: seq<Bytes>, waiting: bool, removed: bool)

  /** A send loop on its way: the answers still to come, the bytes sent so far, and whether the
      loop is to stop. */
  datatype Loop = Loop(peer: Peer, answers: seq<Answer>, moved: Bytes, broken: bool)

  /** One turn of the loop. */
  function Turn(l: Loop): Loop
    requires l.peer.outq != [] && l.answers != []
  {
    var p, a, next := l.peer, l.answers[0], l.(answers := l.answers[1..]);
    match a.status
    case Good =>
      var n := Min(a.n, |p.outq[0]|);
      if n > 0 then next.(peer := p.(outq := Erased(p.outq, n)), moved := l.moved + p.outq[0][..n]) else next
    case Failure => next.(peer := p.(removed := true), broken := true)
    case Network => next.(peer := p.(removed := true), broken := true)
    case Again => next.(peer := Unwritable(p), broken := true)
    case Overflow => next.(peer := Unwritable(p), broken := true)
  }

  function Unwritable(p: Peer): Peer {
    if p.canWrite then p.(canWrite := false, waiting := true) else p
  }

  predicate Done(l: Loop) { l.broken || l.peer.outq == [] || l.answers == [] }

  function Sending(l: Loop): Loop
    decreases |l.answers|
  {
    if Done(l) then l else Sending(Turn(l))
  }

  /** The send loop of a client. */
  function Outgoing(p: Peer, answers: seq<Answer>): Loop {
    var l := Loop(p, answers, [], false);
    if p.canWrite then Sending(l) else l
  }

  /** A pass of a server over its peers: one flag stops the loops of all of them. */
  datatype Pass = Pass(peers: map<Id, Peer>, answers: seq<Answer>, moved: map<Id, Bytes>, total: nat, broken: bool)

  function Served(s: Pass, id: Id): Pass
    requires id in s.peers
  {
    var p := s.peers[id];
    if !p.canWrite then s
    else
      var l := Sending(Loop(p, s.answers, [], s.broken));
      Pass(s.peers[id := l.peer], l.answers, s.moved[id := l.moved], s.total + |l.moved|, l.broken)
  }

  function ServedAll(s: Pass, ids: seq<Id>): (r: Pass)
    requires forall id | id in ids :: id in s.peers
    ensures r.peers.Keys == s.peers.Keys
    decreases |ids|
  {
    if ids == [] then s else
    KeysStay(s, ids[0]);
    ServedAll(Served(s, ids[0]), ids[1..])
  }

  lemma KeysStay(s: Pass, id: Id)
    requires id in s.peers
    ensures Served(s, id).peers.Keys == s.peers.Keys
  {
  }

  function Begin(peers: map<Id, Peer>, answers: seq<Answer>): Pass {
    Pass(peers, answers, map[], 0, false)
  }

  // ---- What the loops keep -----------------------------------------------------------

  /** Whatever the answers: what has been sent, with what is left in the queue, is what was queued. */
  lemma {:induction false} SendingKeepsStream(l: Loop)
    ensures Sending(l).moved + Joined(Sending(l).peer.outq) == l.moved + Joined(l.peer.outq)
    ensures l.moved <= Sending(l).moved
    decreases |l.answers|
  {
    if !Done(l) {
      TurnKeepsStream(l);
      hide Turn, Joined;
      SendingKeepsStream(Turn(l));
    }
  }

  lemma TurnKeepsStream(l: Loop)
    requires !Done(l)
    ensures Turn(l).moved + Joined(Turn(l).peer.outq) == l.moved + Joined(l.peer.outq)
    ensures l.moved <= Turn(l).moved && |Turn(l).answers| < |l.answers|
  {
    hide Joined, Erased;
    var cs, n := l.peer.outq, Min(l.answers[0].n, |l.peer.outq[0]|);
    EraseDrops(cs, n);
    assert (l.moved + cs[0][..n]) + Joined(Erased(cs, n)) == l.moved + (cs[0][..n] + Joined(Erased(cs, n)));
  }

  /** A loop is over when it is broken off, when the queue is empty, or when the answers run out. */
  lemma {:induction false} SendingEnds(l: Loop)
    ensures Done(Sending(l))
    decreases |l.answers|
  {
    hide Turn;
    if !Done(l) {
      TurnKeepsStream(l);
      SendingEnds(Turn(l));
    }
  }

  /** Some answer is a refusal or a failure. */
  predicate Trouble(answers: seq<Answer>) {
    exists i :: 0 <= i < |answers| && !answers[i].status.Good?
  }

  /** What is left of the answers is the end of them. */
  predicate Leaves(answers: seq<Answer>, left: seq<Answer>) {
    |left| <= |answers| && answers[|answers| - |left|..] == left
  }

  function Used(answers: seq<Answer>, left: seq<Answer>): seq<Answer>
    requires Leaves(answers, left)
  {
    answers[..|answers| - |left|]
  }

  lemma NoneUsed(answers: seq<Answer>)
    ensures Leaves(answers, answers) && !Trouble(Used(answers, answers))
  {
  }

  lemma UsedInTwo(a: seq<Answer>, b: seq<Answer>, c: seq<Answer>)
    requires Leaves(a, b) && Leaves(b, c)
    ensures Leaves(a, c) && (Trouble(Used(a, c)) <==> Trouble(Used(a, b)) || Trouble(Used(b, c)))
  {
    assert a[|a| - |c|..] == b[|b| - |c|..];
    assert Used(a, c) == Used(a, b) + Used(b, c);
    TroubleInTwo(Used(a, b), Used(b, c));
  }

  lemma TroubleInTwo(a: seq<Answer>, b: seq<Answer>)
    ensures Trouble(a + b) <==> Trouble(a) || Trouble(b)
  {
    if Trouble(b) {
      var i :| 0 <= i < |b| && !b[i].status.Good?;
      assert (a + b)[|a| + i] == b[i];
    }
    if Trouble(a) {
      var i :| 0 <= i < |a| && !a[i].status.Good?;
      assert (a + b)[i] == a[i];
    }
  }

  lemma TroubleOne(a: Answer)
    ensures Trouble([a]) <==> !a.status.Good?
  {
    assert [a][0] == a;
  }

  /** A loop is broken off if and only if one of the answers it has used was no good one. */
  lemma {:induction false} BreaksExactly(l: Loop)
    requires !l.broken
    ensures Leaves(l.answers, Sending(l).answers)
    ensures Sending(l).broken <==> Trouble(Used(l.answers, Sending(l).answers))
    decreases |l.answers|
  {
    if Done(l) {
      NoneUsed(l.answers);
    } else {
      var t := Turn(l);
      OneUsed(l.answers);
      hide Trouble, Used, Leaves, Erased;
      if t.broken {
        assert Sending(t) == t;
      } else {
        BreaksExactly(t);
        UsedInTwo(l.answers, t.answers, Sending(t).answers);
      }
    }
  }

  lemma OneUsed(answers: seq<Answer>)
    requires answers != []
    ensures Leaves(answers, answers[1..]) && (Trouble(Used(answers, answers[1..])) <==> !answers[0].status.Good?)
  {
    assert Used(answers, answers[1..]) == [answers[0]];
    TroubleOne(answers[0]);
  }

  /** The answer that stops a loop decides what becomes of the peer: a failure hands it over for
      removal, a refusal makes it wait until it can be written; any other loop changes neither. */
  lemma {:induction false} StopDecides(l: Loop)
    requires !l.broken
    ensures var r := Sending(l);
            && |r.answers| <= |l.answers| && (r.broken ==> |r.answers| < |l.answers|)
            && (r.peer.canWrite || r.peer.waiting || (!l.peer.canWrite && !l.peer.waiting))
            && (!r.broken ==> r.peer.canWrite == l.peer.canWrite && r.peer.removed == l.peer.removed)
    ensures Sending(l).broken ==>
              var r, a := Sending(l), l.answers[|l.answers| - |Sending(l).answers| - 1];
              && !a.status.Good?
              && (r.peer.removed <==> l.peer.removed || a.status in {Failure, Network})
              && (r.peer.canWrite <==> l.peer.canWrite && a.status in {Failure, Network})
    decreases |l.answers|
  {
    if !Done(l) {
      var t := Turn(l);
      hide Erased;
      if t.broken {
        assert Sending(t) == t;
      } else {
        StopDecides(t);
      }
    }
  }

  /** The loop has come to an end of its own, and not just to the end of the script. */
  predicate Settled(l: Loop) { l.broken || l.peer.outq == [] }

  /** How long the script goes on makes no difference to a loop that has come to its end. */
  lemma {:induction false} ScriptIsLongEnough(l: Loop, more: seq<Answer>)
    requires Settled(Sending(l))
    ensures Sending(l.(answers := l.answers + more)) == Sending(l).(answers := Sending(l).answers + more)
    decreases |l.answers|
  {
    if !Done(l) {
      assert (l.answers + more)[1..] == l.answers[1..] + more;
      TurnKeepsStream(l);
      hide Erased;
      ScriptIsLongEnough(Turn(l), more);
    }
  }

  // ---- The empty message -------------------------------------------------------------

  predicate AllTake(answers: seq<Answer>) {
    forall i | 0 <= i < |answers| :: answers[i].status.Good? && answers[i].n > 0
  }

  predicate NoneEmpty(cs: seq<Bytes>) {
    forall i | 0 <= i < |cs| :: cs[i] != []
  }

  /** An empty message at the front is never taken off: good answers change nothing at all. */
  lemma {:induction false} EmptyMessageStays(l: Loop)
    requires AllTake(l.answers) && l.peer.outq != [] && l.peer.outq[0] == [] && !l.broken
    ensures Sending(l) == l.(answers := [])
    decreases |l.answers|
  {
    if !Done(l) { EmptyMessageStays(Turn(l)); }
  }

  /** With sockets that always take something, and answers enough, the queue runs empty if and only
      if there is no empty message in it. */
  lemma {:induction false} DrainsExactly(l: Loop)
    requires AllTake(l.answers) && |l.answers| >= |Joined(l.peer.outq)| && !l.broken
    ensures Sending(l).peer.outq == [] <==> NoneEmpty(l.peer.outq)
    decreases |l.answers|
  {
    var cs := l.peer.outq;
    if cs != [] {
      if cs[0] == [] {
        EmptyMessageStays(l);
      } else {
        var n := Min(l.answers[0].n, |cs[0]|);
        EraseDrops(cs, n);
        TakenOne(cs, n);
        hide Joined, Erased, NoneEmpty;
        DrainsExactly(Turn(l));
      }
    }
  }

  lemma TakenOne(cs: seq<Bytes>, n: nat)
    requires cs != [] && 0 < n <= |cs[0]|
    ensures NoneEmpty(Erased(cs, n)) <==> NoneEmpty(cs)
  {
    assert cs == [cs[0]] + cs[1..];
    NoneEmptyCons(cs[0], cs[1..]);
    if n < |cs[0]| { NoneEmptyCons(cs[0][n..], cs[1..]); }
    hide NoneEmpty;
  }

  lemma NoneEmptyCons(c: Bytes, cs: seq<Bytes>)
    ensures NoneEmpty([c] + cs) <==> c != [] && NoneEmpty(cs)
  {
    assert forall i | 0 <= i < |cs| :: ([c] + cs)[i + 1] == cs[i];
    assert ([c] + cs)[0] == c;
  }

  // ---- The pass over the peers -------------------------------------------------------

  /** What a pass has moved for a peer. */
  function MovedFor(s: Pass, id: Id): Bytes { if id in s.moved then s.moved[id] else [] }

  /** A pass whose flag is set leaves the rest of the peers alone, and their answers too. */
  lemma {:induction false} FlagStopsAll(s: Pass, ids: seq<Id>)
    requires s.broken && forall id | id in ids :: id in s.peers
    ensures var r := ServedAll(s, ids); r.peers == s.peers && r.total == s.total && r.answers == s.answers && r.broken
    decreases |ids|
  {
    if ids != [] {
      var r := Served(s, ids[0]);
      assert r.peers == s.peers && r.broken && r.total == s.total && r.answers == s.answers;
      FlagStopsAll(r, ids[1..]);
    }
  }

  lemma {:induction false} ServedInTwo(s: Pass, a: seq<Id>, b: seq<Id>)
    requires forall id | id in a + b :: id in s.peers
    ensures forall id | id in a :: id in s.peers
    ensures forall id | id in b :: id in ServedAll(s, a).peers
    ensures ServedAll(s, a + b) == ServedAll(ServedAll(s, a), b)
    decreases |a|
  {
    assert forall id | id in a :: id in a + b;
    assert forall id | id in b :: id in a + b;
    if a == [] {
      assert a + b == b;
    } else {
      assert (a + b)[1..] == a[1..] + b;
      KeysStay(s, a[0]);
      hide Served;
      ServedInTwo(Served(s, a[0]), a[1..], b);
    }
  }

  /** The flag of a pass is set if and only if one of the answers it has used was no good one. */
  lemma {:induction false} PassBreaksExactly(s: Pass, ids: seq<Id>)
    requires !s.broken && forall id | id in ids :: id in s.peers
    ensures var r := ServedAll(s, ids);
            Leaves(s.answers, r.answers) && (r.broken <==> Trouble(Used(s.answers, r.answers)))
    decreases |ids|
  {
    if ids == [] {
      NoneUsed(s.answers);
    } else {
      var id := ids[0];
      var l := Loop(s.peers[id], s.answers, [], s.broken);
      BreaksExactly(l);
      NoneUsed(s.answers);
      hide Sending, Trouble, Used, Leaves;
      var m := Served(s, id);
      KeysStay(s, id);
      if m.broken {
        FlagStopsAll(m, ids[1..]);
      } else {
        PassBreaksExactly(m, ids[1..]);
        UsedInTwo(s.answers, m.answers, ServedAll(m, ids[1..]).answers);
      }
    }
  }

  /**
   Whether a peer is served depends on the peers before it: with data to send and an answer left,
   its loop is entered if and only if none of the answers used before it was a refusal or a
   failure; otherwise the pass leaves it exactly as it was.
   */
  lemma ServedExactly(s: Pass, a: seq<Id>, x: Id, b: seq<Id>)
    requires !s.broken && (forall id | id in a + [x] + b :: id in s.peers) && x !in a && x !in b
    requires s.peers[x].canWrite && s.peers[x].outq != []
    ensures forall id | id in a :: id in s.peers
    ensures forall id | id in a + [x] :: id in s.peers
    ensures var before, then', after := ServedAll(s, a), ServedAll(s, a + [x]), ServedAll(s, a + [x] + b);
            && Leaves(s.answers, before.answers) && x in after.peers
            && (before.answers != [] ==>
                  (|then'.answers| < |before.answers| <==> !Trouble(Used(s.answers, before.answers))))
            && (Trouble(Used(s.answers, before.answers)) ==> after.peers[x] == s.peers[x])
  {
    assert forall id | id in a :: id in a + [x] + b;
    assert forall id | id in a + [x] :: id in a + [x] + b;
    assert x in a + [x] + b;
    PassBreaksExactly(s, a);
    NotVisited(s, a, x);
    ServedInTwo(s, a, [x]);
    ServedInTwo(s, a + [x], b);
    var before := ServedAll(s, a);
    OnlyOne(before, x);
    if before.broken {
      FlagStopsAll(before, [x]);
      FlagStopsAll(ServedAll(s, a + [x]), b);
    } else {
      var l := Loop(before.peers[x], before.answers, [], false);
      if before.answers != [] {
        TurnKeepsStream(l);
        AnswersShrink(Turn(l));
      }
    }
  }

  lemma OnlyOne(s: Pass, x: Id)
    requires x in s.peers
    ensures ServedAll(s, [x]) == Served(s, x)
  {
    hide Served;
    assert [x][1..] == [];
  }

  lemma {:induction false} AnswersShrink(l: Loop)
    ensures |Sending(l).answers| <= |l.answers|
    decreases |l.answers|
  {
    if !Done(l) {
      TurnKeepsStream(l);
      hide Turn;
      AnswersShrink(Turn(l));
    }
  }

  /** One peer that refuses holds up the other, though that one could be written and there is an
      answer for it. */
  lemma OneHoldsUpTheRest()
    ensures var p := Peer(true, [[7]], false, false);
            var s := Begin(map[1 := p, 2 := p], [Answer(Again, 0), Answer(Good, 1)]);
            var r := ServedAll(s, [1, 2]);
            r.peers[2] == p && r.answers == [Answer(Good, 1)]
  {
    var p := Peer(true, [[7]], false, false);
    var s := Begin(map[1 := p, 2 := p], [Answer(Again, 0), Answer(Good, 1)]);
    assert s.answers[1..] == [Answer(Good, 1)];
    var r := Served(s, 1);
    assert r.broken && r.answers == [Answer(Good, 1)];
    assert [1, 2][1..] == [2];
    FlagStopsAll(r, [2]);
  }

  /** A peer that is not visited keeps its state. */
  lemma {:induction false} NotVisited(s: Pass, ids: seq<Id>, id: Id)
    requires (forall x | x in ids :: x in s.peers) && id !in ids && id in s.peers
    ensures id in ServedAll(s, ids).peers && ServedAll(s, ids).peers[id] == s.peers[id]
    ensures MovedFor(ServedAll(s, ids), id) == MovedFor(s, id)
    decreases |ids|
  {
    hide Sending;
    if ids != [] { NotVisited(Served(s, ids[0]), ids[1..], id); }
  }

  /** Whatever the answers: for every peer, what the pass has sent and what it has left make up
      what was queued. */
  lemma {:induction false} PassKeepsStreams(s: Pass, ids: seq<Id>, id: Id)
    requires (forall x | x in ids :: x in s.peers) && id in s.peers && id !in s.moved
    requires forall i, j | 0 <= i < j < |ids| :: ids[i] != ids[j]
    ensures id in ServedAll(s, ids).peers
    ensures MovedFor(ServedAll(s, ids), id) + Joined(ServedAll(s, ids).peers[id].outq) == Joined(s.peers[id].outq)
    decreases |ids|
  {
    hide Sending, Joined;
    if ids != [] {
      var r := Served(s, ids[0]);
      if id == ids[0] {
        SendingKeepsStream(Loop(s.peers[id], s.answers, [], s.broken));
        assert id !in ids[1..];
        NotVisited(r, ids[1..], id);
        assert [] + Joined(s.peers[id].outq) == Joined(s.peers[id].outq);
      } else {
        PassKeepsStreams(r, ids[1..], id);
      }
    } else {
      assert [] + Joined(s.peers[id].outq) == Joined(s.peers[id].outq);
    }
  }

  function SumMoved(s: Pass, ids: seq<Id>): nat {
    if ids == [] then 0 else |MovedFor(s, ids[0])| + SumMoved(s, ids[1..])
  }

  /** The number the pass returns counts exactly the bytes it has sent. */
  lemma {:induction false} PassCounts(s: Pass, ids: seq<Id>)
    requires (forall x | x in ids :: x in s.peers && x !in s.moved)
    requires forall i, j | 0 <= i < j < |ids| :: ids[i] != ids[j]
    ensures ServedAll(s, ids).total == s.total + SumMoved(ServedAll(s, ids), ids)
    decreases |ids|
  {
    hide Sending;
    if ids != [] {
      var r := Served(s, ids[0]);
      forall x | x in ids[1..] ensures x in r.peers && x !in r.moved {
        assert x != ids[0];
      }
      PassCounts(r, ids[1..]);
      assert ids[0] !in ids[1..];
      NotVisited(r, ids[1..], ids[0]);
    }
  }

  /** A whole pass, by ascending id: no byte of any peer is lost, and the result counts them all. */
  lemma WholePass(peers: map<Id, Peer>, answers: seq<Answer>, id: Id)
    requires id in peers
    ensures var r := ServedAll(Begin(peers, answers), Ascending(peers.Keys));
            && id in r.peers && MovedFor(r, id) + Joined(r.peers[id].outq) == Joined(peers[id].outq)
            && r.total == SumMoved(r, Ascending(peers.Keys))
  {
    hide Served, Joined;
    var ids := Ascending(peers.Keys);
    AscendingSorted(peers.Keys);
    assert forall i, j | 0 <= i < j < |ids| :: ids[i] < ids[j];
    PassKeepsStreams(Begin(peers, answers), ids, id);
    PassCounts(Begin(peers, answers), ids);
  }

  // ---- The two kinds of queue --------------------------------------------------------

  /** What a queue with cursors becomes under the answers: each good one takes its part of the
      front message, and any other one stops the loop. */
  function CursorTurns(q: seq<Elem>, answers: seq<Answer>): (r: seq<Elem>)
    requires ValidQueue(q)
    ensures ValidQueue(r)
    decreases |answers|
  {
    if q == [] || answers == [] || !answers[0].status.Good? then q
    else
      var n := Min(answers[0].n, |q[0].b| - q[0].cursor);
      ShiftErases(q, n);
      CursorTurns(Shifted(q, n), answers[1..])
  }

  /** Erasing what is sent, and moving a cursor along, come to the same queue under any answers. */
  lemma {:induction false} QueuesAgree(q: seq<Elem>, l: Loop)
    requires ValidQueue(q) && l.peer.outq == Chunks(q) && !l.broken
    ensures Sending(l).peer.outq == Chunks(CursorTurns(q, l.answers))
    decreases |l.answers|
  {
    if !Done(l) {
      var n := Min(l.answers[0].n, |q[0].b| - q[0].cursor);
      ShiftErases(q, n);
      EraseNothing(Chunks(q));
      var t := Turn(l);
      hide Chunks, Shifted, Erased;
      if t.broken {
        assert Sending(t) == t;
      } else {
        QueuesAgree(Shifted(q, n), t);
      }
    }
  }

  /** Erasing nothing of a message changes nothing, unless the message is empty. */
  lemma EraseNothing(cs: seq<Bytes>)
    requires cs != [] && cs[0] != []
    ensures Erased(cs, 0) == cs
  {
    assert cs[0][0..] == cs[0];
  }
}
