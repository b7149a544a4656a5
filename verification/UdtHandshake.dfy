/** Incoming connections keep the invariant; a repeated handshake never makes a second one. */
module UdtHandshake {
  import opened Ordered
  import opened UdtState
  import opened UdtInvariant
  import opened UdtSteps

  /** Every accepted open socket of the peer under the key is broken. */
  ghost predicate GroupBroken(st: State, peer: Address, key: int) {
    forall a | Accepted(st, a) && st.store[a].peerAddr == Some(peer) && KeyOf(st.store[a]) == key :: st.store[a].broken
  }

  /** The lookup of a handshake's peer finds an unbroken connection if there is one. */
  lemma LookupFinds(st: State, peer: Address, key: int)
    requires LifeCycle(st) && PeerRecord(st) && OneUnbroken(st)
    ensures var prior := LocatePeer(st, peer, key);
            && (prior.None? ==> GroupBroken(st, peer, key))
            && (prior.Some? ==>
                  && Accepted(st, prior.value) && st.store[prior.value].peerAddr == Some(peer)
                  && KeyOf(st.store[prior.value]) == key
                  && (st.store[prior.value].broken ==> GroupBroken(st, peer, key)))
  {
    hide PeerKey;
    var same := SamePeer(st, peer, key);
    forall a | Accepted(st, a) && st.store[a].peerAddr == Some(peer) && KeyOf(st.store[a]) == key
      ensures a in same
    {
    }
    if same != {} {
      var prior := Least(same);
      assert prior in same;
      assert SameGroup(st.store[prior], st.store[prior]);
    }
  }

  // ---- A broken connection gives way -------------------------------------------------

  lemma MarkClosedKeeps(st: State, prior: Id)
    requires Invariant(st) && Accepted(st, prior) && st.store[prior].broken
    ensures Invariant(Put(st, prior, st.store[prior].(status := CLOSED)))
  {
    var t := st.store[prior].(status := CLOSED);
    AboutSocket(st, prior);
    SameQueue(st, prior, t);
    hide Invariant, QueueOf;
    TouchKeeps(st, prior, t);
  }

  lemma DequeueKeeps(st: State, listen: Id, prior: Id)
    requires Invariant(st) && listen in st.store
    ensures var ls := st.store[listen];
            Invariant(Put(st, listen, ls.(queued := Without(ls.queued, {prior}),
                                          accepted := Without(ls.accepted, {prior}))))
  {
    hide Invariant, QueueOf, Role, NamesMux, Without;
    AboutSocket(st, listen);
    DequeuedRole(st.store[listen], prior);
    DequeuedQueue(st, listen, prior);
    var ls := st.store[listen];
    TouchKeeps(st, listen, ls.(queued := Without(ls.queued, {prior}), accepted := Without(ls.accepted, {prior})));
  }

  lemma DequeuedRole(s: Socket, prior: Id)
    requires Role(s)
    ensures var t := s.(queued := Without(s.queued, {prior}), accepted := Without(s.accepted, {prior}));
            Role(t) && Touch(s, t) && KeepsMux(s, t)
  {
  }

  lemma DequeuedQueue(st: State, listen: Id, prior: Id)
    requires listen in st.store && QueueOf(st, listen)
    ensures var ls := st.store[listen];
            var t := ls.(queued := Without(ls.queued, {prior}), accepted := Without(ls.accepted, {prior}));
            QueueOf(Put(st, listen, t), listen)
  {
    var ls := st.store[listen];
    if ls.queued.Some? { SmallerQueue(ls.queued.value, {prior}); }
  }

  lemma SmallerQueue(q: set<Id>, d: set<Id>)
    ensures |q - d| <= |q|
  {
  }

  lemma ReplaceKeeps(st: State, listen: Id, prior: Id)
    requires Invariant(st) && Accepted(st, prior) && st.store[prior].broken
    requires Located(st, listen) && st.store[listen].status == LISTENING
    ensures Invariant(Replace(st, listen, prior))
    ensures Located(Replace(st, listen, prior), listen)
    ensures Replace(st, listen, prior).store[listen].status == LISTENING
  {
    AboutSocket(st, prior);
    MarkClosedKeeps(st, prior);
    hide Invariant;
    DequeueKeeps(Put(st, prior, st.store[prior].(status := CLOSED)), listen, prior);
  }

  /** Giving way does not bring an unbroken connection of any peer into being. */
  lemma ReplaceGroup(st: State, listen: Id, prior: Id, peer: Address, key: int)
    requires Invariant(st) && Accepted(st, prior) && Located(st, listen) && GroupBroken(st, peer, key)
    ensures GroupBroken(Replace(st, listen, prior), peer, key)
  {
    var st' := Replace(st, listen, prior);
    hide PeerKey, Invariant;
    forall a | Accepted(st', a) ensures Accepted(st, a) && KeyOf(st'.store[a]) == KeyOf(st.store[a]) { }
  }

  // ---- The new connection, in three stages -------------------------------------------

  /** First the object, open and recorded under its peer, without a multiplexer. */
  ghost function Recorded(st: State, listen: Id, peer: Address, peerId: int, isn: int): State
    requires listen in st.store && st.lastId > 1
  {
    var id: Id := st.lastId - 1;
    var ns := Socket(st.store[listen].config, CONNECTED, false, 0, Some(peer), listen, peerId, isn, None, None, 0, -1);
    st.(lastId := id, store := st.store[id := ns], sockets := st.sockets + {id},
        peerRec := Record(st.peerRec, PeerKey(peerId, isn), id))
  }

  lemma RecordedPeers(st: State, listen: Id, peer: Address, peerId: int, isn: int)
    requires LifeCycle(st) && PeerRecord(st) && OneUnbroken(st) && listen in st.store && listen != 0 && st.lastId > 1
    requires GroupBroken(st, peer, PeerKey(peerId, isn))
    ensures PeerRecord(Recorded(st, listen, peer, peerId, isn)) && OneUnbroken(Recorded(st, listen, peer, peerId, isn))
  {
    hide PeerKey, PeerRecord, OneUnbroken, GroupBroken, LifeCycle, Recorded;
    AcceptedBefore(st, listen, peer, peerId, isn);
    RecordedRecord(st, listen, peer, peerId, isn);
    RecordedUnbroken(st, listen, peer, peerId, isn);
  }

  lemma AcceptedBefore(st: State, listen: Id, peer: Address, peerId: int, isn: int)
    requires LifeCycle(st) && listen in st.store && st.lastId > 1
    ensures var st' := Recorded(st, listen, peer, peerId, isn);
            && st'.lastId == st.lastId - 1 && st'.lastId !in st.store
            && (forall a: Id | Accepted(st', a) && a != st'.lastId :: Accepted(st, a) && a > st'.lastId)
  {
    hide PeerKey;
  }

  lemma RecordedRecord(st: State, listen: Id, peer: Address, peerId: int, isn: int)
    requires PeerRecord(st) && listen in st.store && listen != 0 && st.lastId > 1 && st.lastId - 1 !in st.store
    requires var st' := Recorded(st, listen, peer, peerId, isn);
             forall a: Id | Accepted(st', a) && a != st'.lastId :: Accepted(st, a)
    ensures PeerRecord(Recorded(st, listen, peer, peerId, isn))
  {
    hide PeerKey;
  }

  lemma RecordedUnbroken(st: State, listen: Id, peer: Address, peerId: int, isn: int)
    requires OneUnbroken(st) && listen in st.store && st.lastId > 1
    requires GroupBroken(st, peer, PeerKey(peerId, isn))
    requires var st' := Recorded(st, listen, peer, peerId, isn);
             forall a: Id | Accepted(st', a) && a != st'.lastId :: Accepted(st, a) && a > st'.lastId
    ensures OneUnbroken(Recorded(st, listen, peer, peerId, isn))
  {
    hide PeerKey, Record;
  }

  lemma RecordedKeeps(st: State, listen: Id, peer: Address, peerId: int, isn: int)
    requires Invariant(st) && Located(st, listen) && st.store[listen].status == LISTENING && st.lastId > 1
    requires GroupBroken(st, peer, PeerKey(peerId, isn))
    ensures Invariant(Recorded(st, listen, peer, peerId, isn))
  {
    hide Queues, PeerRecord, OneUnbroken, Counted, QueueOf, PeerKey, Record;
    var st' := Recorded(st, listen, peer, peerId, isn);
    var id: Id := st.lastId - 1;
    AboutSocket(st, listen);
    RecordedPeers(st, listen, peer, peerId, isn);
    assert id !in st.store;
    AddedQueues(st, id, st'.store[id], st');
    AddedCounted(st, id, st'.store[id]);
    assert st'.store.Keys == st.store.Keys + {id};
  }

  /** Then its share of the listener's multiplexer and its own port. */
  ghost function Shared(st: State, id: Id, port: int): State
    requires id in st.store
  {
    var st1 := if OnPort(st.muxes, port) == {} then st else Share(st, id, Least(OnPort(st.muxes, port)));
    Put(st1, id, st1.store[id].(selfPort := PortOf(st1, st1.store[id].muxId)))
  }

  lemma SharedKeeps(st: State, id: Id, port: int)
    requires Invariant(st) && id in st.sockets && id in st.store && st.store[id].muxId == -1
    requires st.store[id].status == CONNECTED
    ensures Invariant(Shared(st, id, port))
  {
    hide Invariant, QueueOf;
    var st' := Shared(st, id, port);
    var t := st'.store[id];
    AboutSocket(st, id);
    SameQueue(st, id, t);
    if OnPort(st.muxes, port) == {} {
      TouchKeeps(st, id, t);
    } else {
      var m := Least(OnPort(st.muxes, port));
      assert m in OnPort(st.muxes, port);
      assert Gained(st, st'.muxes, m);
      assert st' == Put(st, id, t).(muxes := st'.muxes);
      hide Gained;
      GainKeeps(st, id, t, st'.muxes, m);
    }
  }

  /** Last its place in the listener's queue. */
  lemma EnqueuedKeeps(st: State, listen: Id, id: Id)
    requires Invariant(st) && listen in st.store && st.store[listen].status == LISTENING
    requires Accepted(st, id) && st.store[id].listener == listen && id !in st.handedOut
    requires st.store[listen].queued.Some? && |st.store[listen].queued.value| < st.store[listen].backlog
    ensures Invariant(Put(st, listen, st.store[listen].(queued := Some(st.store[listen].queued.value + {id}))))
  {
    hide Invariant;
    var ls := st.store[listen];
    var t := ls.(queued := Some(ls.queued.value + {id}));
    AboutSocket(st, listen);
    OneMore(ls.queued.value, id);
    assert QueueOf(Put(st, listen, t), listen);
    hide QueueOf;
    TouchKeeps(st, listen, t);
  }

  lemma OneMore(q: set<Id>, id: Id)
    ensures |q + {id}| <= |q| + 1
  {
    if id in q { assert q + {id} == q; }
  }

  /** The stages together are the transition. */
  lemma EstablishStages(st: State, listen: Id, peer: Address, peerId: int, isn: int)
    requires listen in st.store && listen >= st.lastId > 1 && st.store[listen].queued.Some?
    requires QueueLength(st.store[listen]) < st.store[listen].backlog
    ensures var id: Id := st.lastId - 1;
            var st2 := Shared(Recorded(st, listen, peer, peerId, isn), id, st.store[listen].selfPort);
            && st2.lastId == id && st2.handedOut == st.handedOut && st2.sockets == st.sockets + {id}
            && st2.store.Keys == st.store.Keys + {id} && st2.store[listen] == st.store[listen]
            && st2.store[id].listener == listen
            && Establish(st, listen, peer, peerId, isn, true)
            == (Put(st2, listen, st.store[listen].(queued := Some(st.store[listen].queued.value + {id}))), 1)
  {
    hide PeerKey, Record;
  }

  lemma EstablishKeeps(st: State, listen: Id, peer: Address, peerId: int, isn: int)
    requires Invariant(st) && Located(st, listen) && st.store[listen].status == LISTENING && st.lastId > 1
    requires GroupBroken(st, peer, PeerKey(peerId, isn))
    ensures Invariant(Establish(st, listen, peer, peerId, isn, true).0)
  {
    if QueueLength(st.store[listen]) < st.store[listen].backlog {
      AboutSocket(st, listen);
      EstablishStages(st, listen, peer, peerId, isn);
      RecordedKeeps(st, listen, peer, peerId, isn);
      var id: Id := st.lastId - 1;
      var st1 := Recorded(st, listen, peer, peerId, isn);
      SharedKeeps(st1, id, st.store[listen].selfPort);
      NotHandedOut(st, id);
      hide Invariant, Recorded, Shared, Establish;
      EnqueuedKeeps(Shared(st1, id, st.store[listen].selfPort), listen, id);
    }
  }

  lemma NotHandedOut(st: State, id: Id)
    requires Invariant(st) && id < st.lastId
    ensures id !in st.handedOut
  {
  }

  // ---- A handshake rolled back -------------------------------------------------------

  lemma RolledBackState(st: State, listen: Id, peer: Address, peerId: int, isn: int)
    requires listen in st.store && st.lastId > 1 && QueueLength(st.store[listen]) < st.store[listen].backlog
    ensures var st' := Establish(st, listen, peer, peerId, isn, false).0;
            var ms := OnPort(st.muxes, st.store[listen].selfPort);
            st' == if ms == {} then st.(lastId := st.lastId - 1)
                   else
                     var m := Least(ms);
                     st.(lastId := st.lastId - 1, rolledBack := st.rolledBack + multiset{m},
                         muxes := st.muxes[m := st.muxes[m].(refCount := st.muxes[m].refCount + 1)])
  {
  }

  /** A reference taken for a handshake that failed stays, and is recorded as such. */
  lemma RollbackKeeps(st: State, listen: Id, peer: Address, peerId: int, isn: int)
    requires Invariant(st) && listen in st.store && st.lastId > 1
    ensures Invariant(Establish(st, listen, peer, peerId, isn, false).0)
  {
    var st' := Establish(st, listen, peer, peerId, isn, false).0;
    if QueueLength(st.store[listen]) < st.store[listen].backlog {
      RolledBackState(st, listen, peer, peerId, isn);
      hide Establish;
      var ms := OnPort(st.muxes, st.store[listen].selfPort);
      IdGoneBy(st);
      hide LifeCycle, Queues, PeerRecord, OneUnbroken;
      if ms != {} {
        SameButMuxes(st.(lastId := st'.lastId), st'.muxes, st'.rolledBack);
        RolledBackReferences(st, st', Least(ms));
      }
    }
  }

  /** An id may go by unused. */
  lemma IdGoneBy(st: State)
    requires Invariant(st) && st.lastId > 1
    ensures Invariant(st.(lastId := st.lastId - 1))
  {
    var st' := st.(lastId := st.lastId - 1);
    assert QueuesFit(st') by {
      forall L | L in st'.store ensures QueueOf(st', L) { assert QueueOf(st, L); }
    }
    assert Families(st'.store, st'.lastId) by {
      forall u | u in st'.store ensures Kin(st'.store, st'.lastId, u) { assert Kin(st.store, st.lastId, u); }
    }
    hide QueuesFit, Families, PeerKey, Counted, NamesMux;
    forall a | Accepted(st', a) ensures Accepted(st, a) { }
  }

  lemma RolledBackReferences(st: State, st': State, m: Id)
    requires References(st) && m in st.muxes
    requires st' == st.(lastId := st'.lastId, rolledBack := st.rolledBack + multiset{m},
                        muxes := st.muxes[m := st.muxes[m].(refCount := st.muxes[m].refCount + 1)])
    requires st'.lastId <= st.lastId
    ensures References(st')
  {
    hide Carriers;
    assert st'.muxes.Keys == st.muxes.Keys;
  }

  lemma NewConnectionKeeps(st: State, listen: Id, peer: Address, peerId: int, isn: int, connected: bool)
    requires Invariant(st) && st.lastId > 1 && (Located(st, listen) ==> st.store[listen].status == LISTENING)
    ensures Invariant(NewConnection(st, listen, peer, peerId, isn, connected).0)
  {
    if Located(st, listen) {
      LookupFinds(st, peer, PeerKey(peerId, isn));
      var prior := LocatePeer(st, peer, PeerKey(peerId, isn));
      var st1 := st;
      if prior.Some? && st.store[prior.value].broken {
        st1 := Replace(st, listen, prior.value);
        ReplaceKeeps(st, listen, prior.value);
        ReplaceGroup(st, listen, prior.value, peer, PeerKey(peerId, isn));
      }
      if prior.None? || st.store[prior.value].broken {
        hide Invariant, Replace, Establish, LocatePeer, GroupBroken;
        if connected {
          EstablishKeeps(st1, listen, peer, peerId, isn);
        } else {
          RollbackKeeps(st1, listen, peer, peerId, isn);
        }
      }
    }
  }
}
