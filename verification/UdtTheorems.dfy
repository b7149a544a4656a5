/** Safety of the socket manager over whole runs. */
module UdtTheorems {
  import opened Ordered
  import opened UdtState
  import opened UdtInvariant
  import opened UdtSteps
  import opened UdtHandshake
  import opened UdtCollect

  lemma StepKeeps(st: State, e: Event)
    requires Invariant(st) && Enabled(st, e)
    ensures Invariant(Apply(st, e))
  {
    hide Invariant, NewSocket, Bind, Listen, NewConnection, Accept, Connect, ConnectComplete, Close, Break;
    hide Collect, Shutdown;
    match e
    case ENewSocket(config) => NewSocketKeeps(st, config);
    case EBind(u, port, channel) => BindKeeps(st, u, port, channel);
    case EListen(u, limit, ready) => ListenKeeps(st, u, limit, ready);
    case EHandshake(u, peer, peerId, isn, connected) => NewConnectionKeeps(st, u, peer, peerId, isn, connected);
    case EAccept(u) => AcceptKeeps(st, u);
    case EConnect(u, peer, channel, attempt) => ConnectKeeps(st, u, peer, channel, attempt);
    case EConnectComplete(u) => ConnectCompleteKeeps(st, u);
    case EClose(u) => CloseKeeps(st, u);
    case EBreak(u) => BreakKeeps(st, u);
    case ECollect(keep, reap) => CollectKeeps(st, keep, reap);
    case EShutdown => ShutdownEmpties(st);
  }

  /** Every state of every permitted run satisfies the invariant. */
  lemma {:induction false} RunKeeps(seed: Id, es: seq<Event>)
    requires seed > 0
    ensures var r := Run(Initial(seed), es); r.Some? ==> Invariant(r.value)
    decreases |es|
  {
    hide Invariant, Apply, Enabled;
    if es == [] {
      InitialInvariant(seed);
    } else {
      RunKeeps(seed, es[..|es| - 1]);
      var mid := Run(Initial(seed), es[..|es| - 1]);
      if mid.Some? && Enabled(mid.value, es[|es| - 1]) { StepKeeps(mid.value, es[|es| - 1]); }
    }
  }

  // ---- Replayed handshakes -----------------------------------------------------------

  /** At most one unbroken accepted socket stands for a peer, and no id of its group is smaller. */
  lemma OneConnectionPerPeer(seed: Id, es: seq<Event>, st: State, a: Id, b: Id)
    requires seed > 0 && Run(Initial(seed), es) == Some(st)
    requires Accepted(st, a) && Accepted(st, b) && SameGroup(st.store[a], st.store[b]) && !st.store[a].broken
    ensures a <= b
    ensures !st.store[b].broken ==> a == b
  {
    RunKeeps(seed, es);
    assert SameGroup(st.store[b], st.store[a]);
  }

  /** The lookup of a peer finds its unbroken connection. */
  lemma LookupUnbroken(st: State, a: Id)
    requires Invariant(st) && Accepted(st, a) && !st.store[a].broken && st.store[a].peerAddr.Some?
    ensures LocatePeer(st, st.store[a].peerAddr.value, KeyOf(st.store[a])) == Some(a)
  {
    hide LifeCycle, Queues, References, PeerKey;
    var s := st.store[a];
    var same := SamePeer(st, s.peerAddr.value, KeyOf(s));
    assert a in same;
    var b := Least(same);
    assert b in same && Accepted(st, b) && SameGroup(s, st.store[b]);
  }

  /** A handshake repeated while its connection stands is answered from it and changes nothing. */
  lemma RepeatedHandshake(seed: Id, es: seq<Event>, st: State, listen: Id, a: Id, connected: bool)
    requires seed > 0 && Run(Initial(seed), es) == Some(st) && st.lastId > 1
    requires Located(st, listen) && Accepted(st, a) && !st.store[a].broken
    ensures st.store[a].peerAddr.Some?
    ensures var s := st.store[a];
            LocatePeer(st, s.peerAddr.value, KeyOf(s)) == Some(a)
            && NewConnection(st, listen, s.peerAddr.value, s.peerId, s.isn, connected) == (st, 0)
  {
    hide Invariant, Run, LocatePeer, PeerKey, Establish, Replace;
    RunKeeps(seed, es);
    AboutSocket(st, a);
    LookupUnbroken(st, a);
  }

  /** The keys of m_PeerRec agree if and only if the numbers id * 2^30 + isn do modulo 2^32. */
  predicate SameKey(id: int, isn: int, id': int, isn': int) {
    (id * 0x4000_0000 + isn) % 0x1_0000_0000 == (id' * 0x4000_0000 + isn') % 0x1_0000_0000
  }

  lemma KeysAgree(id: int, isn: int, id': int, isn': int)
    ensures PeerKey(id, isn) == PeerKey(id', isn') <==> SameKey(id, isn, id', isn')
  {
    hide Signed32;
    SignedSum(id * 0x4000_0000, isn);
    SignedSum(id' * 0x4000_0000, isn');
    SignedAgree(id * 0x4000_0000 + isn, id' * 0x4000_0000 + isn');
  }

  lemma SignedSum(x: int, n: int)
    ensures Signed32(Signed32(x) + n) == Signed32(x + n)
  {
  }

  lemma SignedAgree(x: int, y: int)
    ensures Signed32(x) == Signed32(y) <==> x % 0x1_0000_0000 == y % 0x1_0000_0000
  {
    hide Signed32;
    SignedRest(x);
    SignedRest(y);
  }

  lemma SignedRest(x: int)
    ensures Signed32(x) == Signed32(x % 0x1_0000_0000) && Signed32(x) % 0x1_0000_0000 == x % 0x1_0000_0000
  {
  }

  /** An unbroken connection accepted from the address, whose key is that of the id and the number. */
  ghost predicate Stands(st: State, a: Id, peer: Address, peerId: int, isn: int) {
    && Accepted(st, a) && !st.store[a].broken && st.store[a].peerAddr == Some(peer)
    && SameKey(st.store[a].peerId, st.store[a].isn, peerId, isn)
  }

  lemma PeersInOrder(seed: Id, es: seq<Event>, st: State)
    requires seed > 0 && Run(Initial(seed), es) == Some(st)
    ensures LifeCycle(st) && PeerRecord(st) && OneUnbroken(st)
  {
    hide LifeCycle, PeerRecord, OneUnbroken, Run;
    RunKeeps(seed, es);
  }

  /** In every reachable state a handshake is answered from a connection that is there if and only if
      one stands under the same key, be it a repeat or not; it then changes nothing. */
  lemma AnsweredExactly(seed: Id, es: seq<Event>, st: State, listen: Id, peer: Address, peerId: int, isn: int,
                        connected: bool)
    requires seed > 0 && Run(Initial(seed), es) == Some(st) && st.lastId > 1
    ensures var r := NewConnection(st, listen, peer, peerId, isn, connected);
            && (r.1 == 0 <==> Located(st, listen) && exists a :: Stands(st, a, peer, peerId, isn))
            && (r.1 == 0 ==> r.0 == st)
  {
    hide LifeCycle, PeerRecord, OneUnbroken, Run, LocatePeer, PeerKey, SameKey, Replace, Record, Arrive;
    PeersInOrder(seed, es, st);
    LookupFinds(st, peer, PeerKey(peerId, isn));
    forall a | Accepted(st, a)
      ensures KeyOf(st.store[a]) == PeerKey(peerId, isn) <==> SameKey(st.store[a].peerId, st.store[a].isn, peerId, isn)
    {
      KeysAgree(st.store[a].peerId, st.store[a].isn, peerId, isn);
    }
    var prior := LocatePeer(st, peer, PeerKey(peerId, isn));
    if prior.Some? && !st.store[prior.value].broken { assert Stands(st, prior.value, peer, peerId, isn); }
  }

  // ---- Multiplexers ------------------------------------------------------------------

  /** A multiplexer in use is alive, and counts at least the sockets that carry it. */
  lemma MultiplexerAlive(seed: Id, es: seq<Event>, st: State, u: Id)
    requires seed > 0 && Run(Initial(seed), es) == Some(st)
    requires u in st.store && st.store[u].muxId >= 0
    ensures st.store[u].muxId in st.muxes
    ensures st.muxes[st.store[u].muxId].refCount >= |Carriers(st.store, st.store[u].muxId)| >= 1
  {
    RunKeeps(seed, es);
    assert NamesMux(st.store[u], u, st.muxes);
    CarrierCounts(st.store, u, st.store[u].muxId);
    hide Carriers;
  }

  // ---- Life cycle --------------------------------------------------------------------

  /** What has become of the socket u between two states. */
  predicate Since(st: State, st': State, u: Id)
    requires u in st.store
  {
    if u in st'.store then
      && (st.store[u].status == CLOSED ==> st'.store[u].status == CLOSED)
      && (st.store[u].broken ==> st'.store[u].broken)
      && st'.store[u].listener == st.store[u].listener
      && (u in st.closed ==> u in st'.closed)
    else u in st'.freed
  }

  /** st' comes after st: ids go down and are not used again, CLOSED and broken are final, and
      a socket that is gone has been deleted. */
  ghost predicate Later(st: State, st': State) {
    && st'.lastId <= st.lastId
    && st.freed <= st'.freed && st.handedOut <= st'.handedOut
    && (forall u | u in st.store :: Since(st, st', u))
    && (forall u | u in st'.store && u !in st.store :: u < st.lastId)
  }

  lemma LaterTransitive(a: State, b: State, c: State)
    requires LifeCycle(a) && LifeCycle(b) && Later(a, b) && Later(b, c)
    ensures Later(a, c)
  {
    forall u | u in a.store ensures Since(a, c, u) {
      assert Since(a, b, u);
      if u in b.store { assert Since(b, c, u); } else { assert u in b.freed; }
    }
  }

  lemma RemoveLater(st: State, u: Id)
    requires Invariant(st)
    ensures Later(st, RemoveSocket(st, u))
  {
    hide Invariant, Unrecord, Release, KeyOf;
    InvariantLife(st);
    if u in st.closed {
      AboutSocket(st, u);
      QueuedAreOpen(st, u);
      RemovedKeys(st, u);
      hide QueueOf, Role;
      var st' := RemoveSocket(st, u);
      forall x | x in st.store ensures Since(st, st', x) { }
    }
  }

  lemma {:induction false} RemoveAllLater(st: State, us: seq<Id>)
    requires Invariant(st)
    ensures Later(st, RemoveAll(st, us))
    decreases |us|
  {
    if us != [] {
      var st1 := RemoveSocket(st, us[0]);
      RemoveLater(st, us[0]);
      RemoveSocketKeeps(st, us[0]);
      hide RemoveSocket, Later;
      RemoveAllLater(st1, us[1..]);
      LaterTransitive(st, st1, RemoveAll(st1, us[1..]));
    }
  }

  lemma CloseAllLater(st: State, gone: set<Id>, breaking: bool)
    requires LifeCycle(st) && gone <= st.sockets
    ensures Later(st, CloseAll(st, gone, breaking))
  {
    hide Children;
    CloseAllKeys(st, gone, breaking);
  }

  lemma CollectLater(st: State, keep: set<Id>, reap: set<Id>)
    requires Invariant(st)
    ensures Later(st, Collect(st, keep, reap))
  {
    var gone := Broken(st, keep);
    var st1 := CloseAll(st, gone, false);
    CloseAllLater(st, gone, false);
    CloseAllKeeps(st, gone, false);
    hide Later, CloseAll;
    RemoveAllLater(st1, Ascending(reap * st1.closed));
    LaterTransitive(st, st1, RemoveAll(st1, Ascending(reap * st1.closed)));
  }

  /** A step that changes one socket, and at most moves it to the closed ones. */
  lemma ChangeLater(st: State, st': State, u: Id)
    requires u in st.store && u in st'.store && st'.store == st.store[u := st'.store[u]]
    requires Since(st, st', u) && st.closed <= st'.closed
    requires st'.lastId <= st.lastId && st'.freed == st.freed && st.handedOut <= st'.handedOut
    ensures Later(st, st')
  {
  }

  lemma EstablishLater(st: State, listen: Id, peer: Address, peerId: int, isn: int, connected: bool)
    requires LifeCycle(st) && listen in st.store && st.lastId > 1
    ensures Later(st, Establish(st, listen, peer, peerId, isn, connected).0)
  {
    hide Establish;
    assert st.lastId - 1 !in st.store;
    EstablishEffects(st, listen, peer, peerId, isn, connected);
  }

  lemma EstablishEffects(st: State, listen: Id, peer: Address, peerId: int, isn: int, connected: bool)
    requires listen in st.store && st.lastId > 1 && st.lastId - 1 !in st.store
    ensures var st' := Establish(st, listen, peer, peerId, isn, connected).0;
            && st'.lastId <= st.lastId && st'.freed == st.freed
            && st'.handedOut == st.handedOut && st'.closed == st.closed
            && st'.store.Keys <= st.store.Keys + {st.lastId - 1}
            && forall u | u in st.store :: u in st'.store && Unmarked(st.store[u], st'.store[u])
  {
    hide PeerKey, Record, PortOf, Arrive;
    ArriveOnly(st, listen, peer, peerId, isn);
  }

  /** A new connection leaves every other socket as it is. */
  lemma ArriveOnly(st: State, listen: Id, peer: Address, peerId: int, isn: int)
    requires listen in st.store && st.lastId > 1 && st.lastId - 1 !in st.store
    ensures var r := Arrive(st, listen, peer, peerId, isn);
            && r.freed == st.freed && r.handedOut == st.handedOut && r.closed == st.closed && r.sockets == st.sockets
            && r.store.Keys == st.store.Keys + {st.lastId - 1} && r.store[st.lastId - 1].status == CONNECTED
            && forall u | u in st.store :: r.store[u] == st.store[u]
  {
    hide OnPort;
  }

  /** Neither closed nor broken. */
  predicate Unmarked(s: Socket, s': Socket) {
    s'.status == s.status && s'.broken == s.broken && s'.listener == s.listener
  }

  lemma HandshakeLater(st: State, e: Event)
    requires Invariant(st) && e.EHandshake? && Enabled(st, e)
    ensures Later(st, Apply(st, e))
  {
    LaterItself(st);
    if Located(st, e.u) {
      LookupFinds(st, e.peer, PeerKey(e.peerId, e.isn));
      var prior := LocatePeer(st, e.peer, PeerKey(e.peerId, e.isn));
      hide Invariant, LocatePeer, PeerKey, GroupBroken, Later, Establish;
      InvariantLife(st);
      if prior.Some? && !st.store[prior.value].broken {
      } else if prior.Some? {
        var st1 := Replace(st, e.u, prior.value);
        ReplaceLater(st, e.u, prior.value);
        EstablishLater(st1, e.u, e.peer, e.peerId, e.isn, e.connected);
        LaterTransitive(st, st1, Establish(st1, e.u, e.peer, e.peerId, e.isn, e.connected).0);
      } else {
        EstablishLater(st, e.u, e.peer, e.peerId, e.isn, e.connected);
      }
    }
  }

  lemma ReplaceLater(st: State, listen: Id, prior: Id)
    requires LifeCycle(st) && listen in st.store && prior in st.sockets && st.store[prior].broken
    requires st.store[listen].status == LISTENING
    ensures Later(st, Replace(st, listen, prior)) && LifeCycle(Replace(st, listen, prior))
    ensures listen in Replace(st, listen, prior).store
    ensures Replace(st, listen, prior).lastId == st.lastId
  {
    var st' := Replace(st, listen, prior);
    assert st'.store.Keys == st.store.Keys;
  }

  /** Every step leads to a later state. */
  lemma StepLater(st: State, e: Event)
    requires Invariant(st) && Enabled(st, e)
    ensures Later(st, Apply(st, e))
  {
    hide Invariant, CloseAll, Later;
    InvariantLife(st);
    match e
    case ENewSocket(config) => NewSocketLater(st, config);
    case EHandshake(_, _, _, _, _) => HandshakeLater(st, e);
    case ECollect(keep, reap) => CollectLater(st, keep, reap);
    case EShutdown => CloseAllLater(st, st.sockets, true);
    case EBind(u, port, channel) => BindLater(st, u, port, channel);
    case EConnect(u, peer, channel, attempt) => ConnectLater(st, u, peer, channel, attempt);
    case _ => OtherLater(st, e);
  }

  lemma BindLater(st: State, u: Id, port: int, channel: Option<int>)
    requires LifeCycle(st)
    ensures Later(st, Bind(st, u, port, channel))
  {
    hide Shareable, LifeCycle, Later;
    LaterItself(st);
    if Located(st, u) { ChangeLater(st, Bind(st, u, port, channel), u); }
  }

  lemma ConnectLater(st: State, u: Id, peer: Address, channel: Option<int>, attempt: Attempt)
    requires LifeCycle(st)
    ensures Later(st, Connect(st, u, peer, channel, attempt))
  {
    hide Shareable, LifeCycle, Later;
    LaterItself(st);
    if Located(st, u) { ChangeLater(st, Connect(st, u, peer, channel, attempt), u); }
  }

  lemma OtherLater(st: State, e: Event)
    requires LifeCycle(st) && (e.EListen? || e.EAccept? || e.EConnectComplete? || e.EClose? || e.EBreak?)
    requires Enabled(st, e)
    ensures Later(st, Apply(st, e))
  {
    hide LifeCycle, Later, NewConnection, Collect, CloseAll, Bind, Connect;
    LaterItself(st);
    match e
    case EListen(u, _, _) => if Located(st, u) { ChangeLater(st, Apply(st, e), u); }
    case EAccept(u) => if Located(st, u) { ChangeLater(st, Apply(st, e), u); }
    case EConnectComplete(u) => if Located(st, u) { ChangeLater(st, Apply(st, e), u); }
    case EClose(u) => if Located(st, u) { ChangeLater(st, Apply(st, e), u); }
    case EBreak(u) => if u in st.store { ChangeLater(st, Apply(st, e), u); }
  }

  lemma NewSocketLater(st: State, config: Config)
    requires LifeCycle(st) && st.lastId > 1
    ensures Later(st, NewSocket(st, config))
  {
  }

  /** A state reached by extending a run is later than the one the run had reached. */
  lemma {:induction false} RunLater(seed: Id, es: seq<Event>, more: seq<Event>, st: State, st': State)
    requires seed > 0 && Run(Initial(seed), es) == Some(st) && Run(Initial(seed), es + more) == Some(st')
    ensures Later(st, st')
    decreases |more|
  {
    hide Apply, Enabled, Invariant;
    RunKeeps(seed, es);
    if more == [] {
      assert es + more == es;
      LaterItself(st);
    } else {
      var last := |more| - 1;
      assert (es + more)[..|es + more| - 1] == es + more[..last];
      var mid := Run(Initial(seed), es + more[..last]);
      RunKeeps(seed, es + more[..last]);
      RunLater(seed, es, more[..last], st, mid.value);
      StepLater(mid.value, more[last]);
      hide Later;
      assert LifeCycle(st) && LifeCycle(mid.value) by { InvariantLife(st); InvariantLife(mid.value); }
      LaterTransitive(st, mid.value, st');
    }
  }

  lemma InvariantLife(st: State)
    requires Invariant(st)
    ensures LifeCycle(st)
  {
  }

  lemma LaterItself(st: State)
    ensures Later(st, st)
  {
  }

  /** CLOSED is final, a deleted socket stays deleted, and its id is never given out again. */
  lemma SocketsEndOnce(seed: Id, es: seq<Event>, more: seq<Event>, st: State, st': State, u: Id)
    requires seed > 0 && Run(Initial(seed), es) == Some(st) && Run(Initial(seed), es + more) == Some(st')
    ensures u in st.store && st.store[u].status == CLOSED ==>
              (u in st'.store && st'.store[u].status == CLOSED) || u in st'.freed
    ensures u in st.freed ==> u in st'.freed && u !in st'.store
    ensures Distinct(st'.freed) && Distinct(st'.handedOut)
  {
    RunLater(seed, es, more, st, st');
    RunKeeps(seed, es + more);
    hide Run;
    if u in st.store { assert Since(st, st', u); }
    if u in st.freed {
      var i :| 0 <= i < |st.freed| && st.freed[i] == u;
      assert st'.freed[i] == u;
    }
  }

  /** Only the collector deletes, and it deletes only sockets that are closed. */
  lemma OnlyClosedAreFreed(st: State, e: Event, u: Id)
    requires Enabled(st, e) && u in Apply(st, e).freed && u !in st.freed
    ensures e.ECollect? && (u in st.closed || (u in st.sockets && u in st.store && st.store[u].broken && u !in e.keep))
  {
    hide Least, LocatePeer, OnPort, Shareable;
    if e.ECollect? {
      var gone := Broken(st, e.keep);
      var st1 := CloseAll(st, gone, false);
      CloseAllFreesNone(st, gone, false);
      hide CloseAll;
      RemoveAllFrees(st1, Ascending(e.reap * st1.closed), u);
    } else {
      FreesNone(st, e);
    }
  }

  lemma CloseAllFreesNone(st: State, gone: set<Id>, breaking: bool)
    ensures CloseAll(st, gone, breaking).freed == st.freed
    ensures CloseAll(st, gone, breaking).closed == st.closed + gone
  {
  }

  lemma FreesNone(st: State, e: Event)
    requires Enabled(st, e) && !e.ECollect?
    ensures Apply(st, e).freed == st.freed
  {
    hide Least, Shareable, CloseAll, NewConnection;
    match e
    case EShutdown => CloseAllFreesNone(st, st.sockets, true);
    case EHandshake(u, peer, peerId, isn, connected) => HandshakeFreesNone(st, u, peer, peerId, isn, connected);
    case _ =>
  }

  lemma HandshakeFreesNone(st: State, listen: Id, peer: Address, peerId: int, isn: int, connected: bool)
    requires st.lastId > 1
    ensures NewConnection(st, listen, peer, peerId, isn, connected).0.freed == st.freed
  {
    hide Least, OnPort, SamePeer, Record, PeerKey;
  }

  lemma {:induction false} RemoveAllFrees(st: State, us: seq<Id>, u: Id)
    requires u in RemoveAll(st, us).freed && u !in st.freed
    ensures u in us
    decreases |us|
  {
    if us != [] {
      if u != us[0] { RemoveAllFrees(RemoveSocket(st, us[0]), us[1..], u); }
    }
  }

  // ---- Accept queues -----------------------------------------------------------------

  /** The queue of a listener: within its backlog, apart from what has been accepted, made of
      open connections of its own, none of which accept has handed out. */
  lemma QueuedConnections(seed: Id, es: seq<Event>, st: State, L: Id)
    requires seed > 0 && Run(Initial(seed), es) == Some(st)
    requires L in st.store && st.store[L].queued.Some?
    ensures var s := st.store[L];
            && s.accepted.Some? && |s.queued.value| <= s.backlog && s.queued.value !! s.accepted.value
            && (forall u | u in s.queued.value :: u in st.sockets && u in st.store && st.store[u].listener == L
                                                  && u !in st.handedOut)
  {
    RunKeeps(seed, es);
    AboutSocket(st, L);
    hide Invariant, Run;
  }

  /** accept hands out a connection it never handed out before; since ids count down, the most
      recent one of those queued. */
  lemma AcceptIsFresh(seed: Id, es: seq<Event>, st: State, L: Id)
    requires seed > 0 && Run(Initial(seed), es) == Some(st) && Accept(st, L).1.Some?
    ensures var u := Accept(st, L).1.value;
            && u in st.sockets && u in st.store && st.store[u].listener == L && u !in st.handedOut
            && Accept(st, L).0.handedOut == st.handedOut + [u]
            && (forall v | v in st.store[L].queued.value :: u <= v)
  {
    hide Run;
    QueuedConnections(seed, es, st, L);
  }
}
