/** The client and the server of a service, with their send loops in place. */
module Services {
  import opened Numbers
  import opened Octets
  import opened Ordered
  import opened WriterQueues
  import opened ServiceState

  class Requester {
    var canWrite: bool
    var q: seq<Bytes>
    var waiting: bool         // the poller watches the socket for writing
    var removed: bool         // the socket has been handed to the poller for removal
    ghost var given: Bytes    // all that was ever queued
    ghost var sent: Bytes     // all that the socket has taken

    ghost predicate Valid()
      reads this
    {
      given == sent + Joined(q)
    }

    ghost function View(): Peer
      reads this
    {
      Peer(canWrite, q, waiting, removed)
    }

    constructor ()
      ensures Valid() && View() == Peer(false, [], false, false) && given == []
    {
      canWrite, q, waiting, removed := false, [], false, false;
      given, sent := [], [];
    }

    method Enqueue(data: Bytes)
      requires Valid()
      modifies this`q, this`given
      ensures Valid() && given == old(given) + data && q == old(q) + [data]
    {
      JoinedAppend(q, data);
      q := q + [data];
      given := given + data;
    }

    /** Sends until the socket takes no more; whatever it answers, nothing is lost or reordered. */
    method SendOutgoingData(answers: seq<Answer>)
      requires Valid()
      modifies this`canWrite, this`q, this`waiting, this`removed, this`sent
      ensures Valid() && View() == Outgoing(old(View()), answers).peer
      ensures sent == old(sent) + Outgoing(old(View()), answers).moved
      ensures old(canWrite) ==> Done(Outgoing(old(View()), answers))
      ensures !old(canWrite) ==> View() == old(View()) && sent == old(sent)
    {
      hide Joined, Sending;
      if !canWrite { return; }
      SendingKeepsStream(Loop(View(), answers, [], false));
      SendingEnds(Loop(View(), answers, [], false));
      assert [] + Joined(q) == Joined(q);
      var peer, rest, total, broken;
      ghost var moved;
      peer, rest, total, moved, broken := SendLoop(Peer(canWrite, q, waiting, removed), answers, false);
      canWrite, q, waiting, removed := peer.canWrite, peer.outq, peer.waiting, peer.removed;
      assert sent + (moved + Joined(q)) == (sent + moved) + Joined(q);
      sent := sent + moved;
    }
  }

  /** The loop of both sides: sends the front of the queue again and again. */
  method SendLoop(start: Peer, answers: seq<Answer>, stop: bool)
    returns (peer: Peer, rest: seq<Answer>, total: nat, ghost moved: Bytes, breakSending: bool)
    ensures peer == Sending(Loop(start, answers, [], stop)).peer
    ensures rest == Sending(Loop(start, answers, [], stop)).answers
    ensures breakSending == Sending(Loop(start, answers, [], stop)).broken
    ensures total == |Sending(Loop(start, answers, [], stop)).moved|
    ensures moved == Sending(Loop(start, answers, [], stop)).moved
  {
    peer, rest, total, moved, breakSending := start, answers, 0, [], stop;
    while !breakSending && peer.outq != [] && rest != []
      invariant Sending(Loop(peer, rest, moved, breakSending)) == Sending(Loop(start, answers, [], stop))
      invariant total == |moved|
      decreases |rest|
    {
      var data, result := peer.outq[0], rest[0];
      rest := rest[1..];
      match result.status {
        case Good =>
          var n := Min(result.n, |data|);
          if n > 0 {
            if n == |data| {
              peer := peer.(outq := peer.outq[1..]);
            } else {
              peer := peer.(outq := [data[n..]] + peer.outq[1..]);
            }
            total := total + n;
            moved := moved + data[..n];
          }
        case Failure =>
          peer, breakSending := peer.(removed := true), true;
        case Network =>
          peer, breakSending := peer.(removed := true), true;
        case Again =>
          if peer.canWrite { peer := peer.(canWrite := false, waiting := true); }
          breakSending := true;
        case Overflow =>
          if peer.canWrite { peer := peer.(canWrite := false, waiting := true); }
          breakSending := true;
      }
    }
  }

  class Respondent {
    var requesters: map<Id, Peer>   // accounts are held by value

    constructor ()
      ensures requesters == map[]
    {
      requesters := map[];
    }

    method Accept(id: Id) returns (added: bool)
      modifies this
      ensures added <==> id !in old(requesters)
      ensures requesters == if added then old(requesters)[id := Peer(true, [], false, false)] else old(requesters)
    {
      added := id !in requesters;
      if added { requesters := requesters[id := Peer(true, [], false, false)]; }
    }

    method Enqueue(id: Id, data: Bytes) returns (found: bool)
      modifies this
      ensures found <==> id in old(requesters)
      ensures found ==>
                var peer := old(requesters)[id];
                requesters == old(requesters)[id := peer.(outq := peer.outq + [data])]
      ensures found ==> id in requesters && Joined(requesters[id].outq) == Joined(old(requesters)[id].outq) + data
      ensures !found ==> requesters == old(requesters)
    {
      found := id in requesters;
      if found {
        JoinedAppend(requesters[id].outq, data);
        requesters := requesters[id := requesters[id].(outq := requesters[id].outq + [data])];
      }
    }

    method EnqueueBroadcast(data: Bytes)
      modifies this
      ensures requesters.Keys == old(requesters).Keys
      ensures forall id | id in requesters :: requesters[id] == WithMessage(old(requesters)[id], data)
    {
      var left := requesters.Keys;
      while left != {}
        invariant left <= requesters.Keys == old(requesters).Keys
        invariant forall id | id in requesters ::
          requesters[id] == if id in left then old(requesters)[id] else WithMessage(old(requesters)[id], data)
        decreases |left|
      {
        var id := Least(left);
        requesters := requesters[id := requesters[id].(outq := requesters[id].outq + [data])];
        left := left - {id};
      }
    }

    /** One pass over the requesters, by ascending id. */
    method SendOutgoingData(answers: seq<Answer>) returns (totalBytesSent: nat, ghost moved: map<Id, Bytes>)
      modifies this
      ensures var r := ServedAll(Begin(old(requesters), answers), Ascending(old(requesters).Keys));
              requesters == r.peers && totalBytesSent == r.total && moved == r.moved
    {
      hide Sending, Joined;
      var rest, breakSending, left := answers, false, requesters.Keys;
      totalBytesSent, moved := 0, map[];
      ghost var s := Begin(requesters, answers);
      ghost var goal := ServedAll(s, Ascending(left));
      while left != {}
        invariant left <= requesters.Keys == old(requesters).Keys
        invariant s == Pass(requesters, rest, moved, totalBytesSent, breakSending)
        invariant ServedAll(s, Ascending(left)) == goal
        decreases |left|
      {
        var id := Least(left);
        assert Ascending(left) == [id] + Ascending(left - {id});
        ServedFirst(s, id, Ascending(left - {id}));
        s := Served(s, id);
        left := left - {id};
        if requesters[id].canWrite {
          var peer, total;
          ghost var more;
          peer, rest, total, more, breakSending := SendLoop(requesters[id], rest, breakSending);
          requesters := requesters[id := peer];
          moved := moved[id := more];
          totalBytesSent := totalBytesSent + total;
        }
      }
    }
  }

  function WithMessage(p: Peer, data: Bytes): Peer { p.(outq := p.outq + [data]) }

  lemma ServedFirst(s: Pass, id: Id, ids: seq<Id>)
    requires forall x | x in [id] + ids :: x in s.peers
    ensures id in s.peers && (forall x | x in ids :: x in Served(s, id).peers)
    ensures ServedAll(s, [id] + ids) == ServedAll(Served(s, id), ids)
  {
    hide Served;
    assert ([id] + ids)[0] == id && ([id] + ids)[1..] == ids;
    assert forall x | x in ids :: x in [id] + ids;
    KeysStay(s, id);
  }
}
