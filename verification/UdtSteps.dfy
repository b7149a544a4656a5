/** Every transition of the socket manager keeps the invariant. */
module UdtSteps {
  import opened Ordered
  import opened UdtState
  import opened UdtInvariant

  // ---- Creating, binding, listening, connecting --------------------------------------

  /** A new socket without queues leaves the queues of the others alone. */
  lemma AddedFamilies(store: map<Id, Socket>, lastId: Id, id: Id, s: Socket)
    requires Families(store, lastId) && lastId > 1 && id == lastId - 1 && id !in store
    requires Role(s)
    requires s.listener == 0 || (s.listener in store && lastId <= s.listener && store[s.listener].queued.Some?)
    ensures Families(store[id := s], id)
  {
    hide Role;
    var store' := store[id := s];
    forall x | x in store' ensures Kin(store', id, x) {
      if x != id { assert Kin(store, lastId, x); }
    }
  }

  lemma AddedQueues(st: State, id: Id, s: Socket, st': State)
    requires LifeCycle(st) && Queues(st) && st.lastId > 1 && id == st.lastId - 1
    requires Role(s) && s.queued.None?
    requires s.listener == 0 || (s.listener in st.store && st.store[s.listener].queued.Some?)
    requires st'.store == st.store[id := s] && st'.handedOut == st.handedOut && st'.lastId == id
    requires st.sockets <= st'.sockets
    ensures Queues(st')
  {
    AddedFamilies(st.store, st.lastId, id, s);
    hide Families, Role;
    forall L | L in st'.store ensures QueueOf(st', L) {
      if L != id { assert QueueOf(st, L); }
    }
    hide QueueOf;
  }

  lemma AddedCounted(st: State, id: Id, s: Socket)
    requires LifeCycle(st) && References(st) && id !in st.store && s.muxId == -1
    ensures Counted(st.store[id := s], st.muxes, st.rolledBack)
  {
    forall m | m in st.muxes ensures |Carriers(st.store[id := s], m)| == |Carriers(st.store, m)| {
      CarriersChange(st.store, id, s, m);
    }
    hide Carriers;
  }

  lemma NewSocketKeeps(st: State, config: Config)
    requires Invariant(st) && st.lastId > 1
    ensures Invariant(NewSocket(st, config))
  {
    hide Invariant, Queues, PeerRecord, OneUnbroken, References, LifeCycle;
    InvariantParts(st);
    NewSocketLife(st, config);
    NewSocketQueues(st, config);
    NewSocketPeers(st, config);
    NewSocketReferences(st, config);
    InvariantWhole(NewSocket(st, config));
  }

  lemma NewSocketLife(st: State, config: Config)
    requires LifeCycle(st) && st.lastId > 1
    ensures LifeCycle(NewSocket(st, config))
  {
    var id: Id := st.lastId - 1;
    assert NewSocket(st, config).store.Keys == st.store.Keys + {id};
  }

  lemma NewSocketQueues(st: State, config: Config)
    requires LifeCycle(st) && Queues(st) && st.lastId > 1
    ensures Queues(NewSocket(st, config))
  {
    hide Queues, LifeCycle;
    AddedQueues(st, st.lastId - 1, FreshSocket(config), NewSocket(st, config));
  }

  lemma NewSocketReferences(st: State, config: Config)
    requires LifeCycle(st) && References(st) && st.lastId > 1
    ensures References(NewSocket(st, config))
  {
    AddedCounted(st, st.lastId - 1, FreshSocket(config));
    hide Counted;
    var st' := NewSocket(st, config);
    forall u | u in st'.store ensures NamesMux(st'.store[u], u, st'.muxes) {
      if u != st'.lastId { assert NamesMux(st.store[u], u, st.muxes); }
    }
  }

  lemma NewSocketPeers(st: State, config: Config)
    requires LifeCycle(st) && PeerRecord(st) && OneUnbroken(st) && st.lastId > 1
    ensures PeerRecord(NewSocket(st, config)) && OneUnbroken(NewSocket(st, config))
  {
    var st' := NewSocket(st, config);
    hide PeerKey;
    forall a | Accepted(st', a) ensures Accepted(st, a) { }
  }

  /** What the invariant says of one socket. */
  lemma AboutSocket(st: State, u: Id)
    requires Invariant(st) && u in st.store
    ensures Role(st.store[u]) && QueueOf(st, u) && NamesMux(st.store[u], u, st.muxes)
    ensures u in st.closed ==> st.store[u].status == CLOSED
    ensures st.store[u].listener in st.store ==> st.store[st.store[u].listener].queued.Some?
    ensures u in st.sockets <==> u !in st.closed
    ensures st.lastId <= u && u != 0
  {
    assert Kin(st.store, st.lastId, u);
  }

  lemma MuxGained(st: State, u: Id, st1: State, port: Option<int>, channel: Option<int>)
    requires u in st.store && UpdateMux(st, u, port, channel) == Some(st1) && u !in st.muxes
    ensures st1.store[u].muxId >= 0
    ensures var m: Id := st1.store[u].muxId; Gained(st, st1.muxes, m) && (m in st.muxes || m == u)
    ensures var m: Id := st1.store[u].muxId; st1 == Put(st, u, st.store[u].(muxId := m)).(muxes := st1.muxes)
  {
  }

  lemma BoundKeeps(st: State, u: Id, t: Socket, st1: State, port: Option<int>, channel: Option<int>)
    requires Invariant(st) && u in st.sockets && u in st.store && st.store[u].status == INIT
    requires UpdateMux(st, u, port, channel) == Some(st1)
    requires var s := st1.store[u];
             t == s.(status := t.status, selfPort := t.selfPort, peerAddr := t.peerAddr)
             && t.status in {OPENED, CONNECTING, CONNECTED}
    ensures Invariant(Put(st1, u, t))
  {
    hide Invariant, UpdateMux, QueueOf, Gained, Role, NamesMux;
    AboutInit(st, u);
    MuxGained(st, u, st1, port, channel);
    assert Put(st1, u, t) == Put(st, u, t).(muxes := st1.muxes);
    BoundGains(st, u, t, st1.muxes, st1.store[u].muxId);
  }

  /** A socket that has just been made has no queues and no multiplexer. */
  lemma AboutInit(st: State, u: Id)
    requires Invariant(st) && u in st.sockets && u in st.store && st.store[u].status == INIT
    ensures st.store[u].muxId == -1 && u !in st.muxes && st.store[u].listener == 0
  {
    AboutSocket(st, u);
    hide Invariant;
  }

  lemma BoundGains(st: State, u: Id, t: Socket, muxes: map<Id, Mux>, m: Id)
    requires Invariant(st) && u in st.sockets && u in st.store && st.store[u].status == INIT
    requires t == st.store[u].(muxId := m, status := t.status, selfPort := t.selfPort, peerAddr := t.peerAddr)
    requires t.status in {OPENED, CONNECTING, CONNECTED} && Gained(st, muxes, m) && (m in st.muxes || m == u)
    ensures Invariant(Put(st, u, t).(muxes := muxes))
  {
    hide Invariant, Gained;
    AboutSocket(st, u);
    SameQueue(st, u, t);
    hide QueueOf;
    GainKeeps(st, u, t, muxes, m);
  }

  lemma BindKeeps(st: State, u: Id, port: int, channel: Option<int>)
    requires Invariant(st)
    ensures Invariant(Bind(st, u, port, channel))
  {
    if Located(st, u) && st.store[u].status == INIT {
      match UpdateMux(st, u, Some(port), channel)
      case None =>
      case Some(st1) =>
        hide Invariant, UpdateMux;
        BoundKeeps(st, u, st1.store[u].(status := OPENED, selfPort := PortOf(st1, st1.store[u].muxId)),
                   st1, Some(port), channel);
    }
  }

  lemma ListenKeeps(st: State, u: Id, backlog: int, ready: bool)
    requires Invariant(st)
    ensures Invariant(Listen(st, u, backlog, ready))
  {
    var st' := Listen(st, u, backlog, ready);
    if st' != st {
      AboutSocket(st, u);
      hide Invariant;
      TouchKeeps(st, u, st'.store[u]);
    }
  }

  lemma AttemptedKeeps(st: State, u: Id, peer: Address, attempt: Attempt)
    requires Invariant(st) && u in st.sockets && u in st.store && st.store[u].status == OPENED
    ensures Invariant(Attempted(st, u, peer, attempt))
  {
    var t := Attempted(st, u, peer, attempt).store[u];
    OutgoingKeeps(st, u, t);
  }

  /** An independent socket that is not CLOSED may change its status and addresses. */
  lemma OutgoingKeeps(st: State, u: Id, t: Socket)
    requires Invariant(st) && u in st.sockets && u in st.store && st.store[u].status in {OPENED, CONNECTING}
    requires t == st.store[u].(status := t.status, selfPort := t.selfPort, peerAddr := t.peerAddr)
    requires t.status in {OPENED, CONNECTING, CONNECTED}
    ensures Invariant(Put(st, u, t))
  {
    AboutSocket(st, u);
    SameQueue(st, u, t);
    hide Invariant, QueueOf;
    TouchKeeps(st, u, t);
  }

  lemma ConnectKeeps(st: State, u: Id, peer: Address, channel: Option<int>, attempt: Attempt)
    requires Invariant(st)
    ensures Invariant(Connect(st, u, peer, channel, attempt))
  {
    hide Invariant;
    if Located(st, u) {
      if st.store[u].status == INIT && !st.store[u].config.rendezvous {
        match UpdateMux(st, u, None, channel)
        case None =>
        case Some(st1) =>
          var t := Attempted(st1, u, peer, attempt).store[u];
          hide UpdateMux;
          BoundKeeps(st, u, t, st1, None, channel);
      } else if st.store[u].status == OPENED {
        AttemptedKeeps(st, u, peer, attempt);
      }
    }
  }

  lemma ConnectCompleteKeeps(st: State, u: Id)
    requires Invariant(st) && (Located(st, u) ==> st.store[u].status in {OPENED, CONNECTING})
    ensures Invariant(ConnectComplete(st, u))
  {
    if Located(st, u) { OutgoingKeeps(st, u, ConnectComplete(st, u).store[u]); }
  }

  // ---- Accepting ---------------------------------------------------------------------

  lemma AcceptQueuesFit(st: State, L: Id)
    requires QueuesFit(st) && CanAccept(st, L) && Role(st.store[L])
    ensures QueuesFit(Accept(st, L).0)
  {
    var st' := Accept(st, L).0;
    assert QueueOf(st, L);
    var queue := st.store[L].queued.value;
    var u := Least(queue);
    assert |queue - {u}| <= |queue|;
    forall M | M in st'.store ensures QueueOf(st', M) {
      assert QueueOf(st, M);
    }
  }

  lemma AcceptKeeps(st: State, L: Id)
    requires Invariant(st)
    ensures Invariant(Accept(st, L).0)
  {
    if CanAccept(st, L) {
      var st' := Accept(st, L).0;
      var t := st'.store[L];
      AboutSocket(st, L);
      TouchLifeCycle(st, L, t);
      TouchPeers(st, L, t);
      TouchReferences(st, L, t);
      TouchFamilies(st.store, st.lastId, L, t);
      AcceptQueuesFit(st, L);
      NextHandedOut(st, L);
      assert st' == Put(st, L, t).(handedOut := st'.handedOut);
      hide Families, QueuesFit, HandedOut;
      SameButHandedOut(Put(st, L, t), st'.handedOut);
    }
  }

  lemma NextHandedOut(st: State, L: Id)
    requires Invariant(st) && CanAccept(st, L) && QueueOf(st, L) && Role(st.store[L])
    ensures HandedOut(Accept(st, L).0.handedOut, st.lastId)
  {
  }

  lemma SameButHandedOut(st: State, handedOut: seq<Id>)
    ensures var st' := st.(handedOut := handedOut);
            && (LifeCycle(st) ==> LifeCycle(st')) && (References(st) ==> References(st'))
            && (PeerRecord(st) && OneUnbroken(st) ==> PeerRecord(st') && OneUnbroken(st'))
  {
    var st' := st.(handedOut := handedOut);
    if PeerRecord(st) && OneUnbroken(st) {
      forall a | Accepted(st', a) ensures Accepted(st, a) { }
    }
  }

  // ---- Closing -----------------------------------------------------------------------

  lemma CloseKeeps(st: State, u: Id)
    requires Invariant(st) && Enabled(st, EClose(u))
    ensures Invariant(Close(st, u))
  {
    hide Invariant;
    if Located(st, u) {
      if st.store[u].status == LISTENING { BreakKeeps(st, u); } else { CloseOther(st, u); }
    }
  }

  lemma CloseOther(st: State, u: Id)
    requires Invariant(st) && Enabled(st, EClose(u)) && Located(st, u) && st.store[u].status != LISTENING
    ensures Invariant(Close(st, u))
  {
    hide Invariant, LifeCycle, Queues, PeerRecord, OneUnbroken, References, QueueOf, Role, NamesMux;
    InvariantParts(st);
    AboutSocket(st, u);
    CloseLife(st, u);
    ClosePeers(st, u);
    CloseQueues(st, u);
    CloseReferences(st, u);
    InvariantWhole(Close(st, u));
  }

  lemma CloseLife(st: State, u: Id)
    requires LifeCycle(st) && Located(st, u) && st.store[u].status != LISTENING
    ensures LifeCycle(Close(st, u))
  {
    assert Close(st, u).store.Keys == st.store.Keys;
  }

  lemma CloseReferences(st: State, u: Id)
    requires References(st) && Located(st, u) && st.store[u].status != LISTENING
    ensures References(Close(st, u))
  {
    var st1 := Put(st, u, st.store[u].(status := CLOSED));
    TouchReferences(st, u, st1.store[u]);
    hide Counted, NamesMux;
  }

  lemma ClosePeers(st: State, u: Id)
    requires PeerRecord(st) && OneUnbroken(st) && Located(st, u) && st.store[u].status != LISTENING
    ensures PeerRecord(Close(st, u)) && OneUnbroken(Close(st, u))
  {
    var st' := Close(st, u);
    assert KeyOf(st'.store[u]) == KeyOf(st.store[u]);
    hide PeerKey;
    forall a | Accepted(st', a) ensures Accepted(st, a) { }
  }

  lemma CloseQueues(st: State, u: Id)
    requires LifeCycle(st) && Queues(st) && Enabled(st, EClose(u))
    requires Located(st, u) && st.store[u].status != LISTENING && Role(st.store[u])
    ensures Queues(Close(st, u))
  {
    var st' := Close(st, u);
    CloseQueuesFit(st, u);
    hide QueuesFit, HandedOut;
    forall x | x in st'.store ensures Kin(st'.store, st.lastId, x) { assert Kin(st.store, st.lastId, x); }
  }

  lemma CloseQueuesFit(st: State, u: Id)
    requires QueuesFit(st) && Enabled(st, EClose(u)) && 0 !in st.store
    requires Located(st, u) && st.store[u].status != LISTENING
    ensures QueuesFit(Close(st, u))
  {
    var st' := Close(st, u);
    forall L | L in st'.store ensures QueueOf(st', L) { assert QueueOf(st, L); }
  }

  lemma BreakKeeps(st: State, u: Id)
    requires Invariant(st)
    ensures Invariant(Break(st, u))
  {
    if u in st.store {
      var t := st.store[u].(broken := true);
      AboutSocket(st, u);
      SameQueue(st, u, t);
      hide Invariant, QueueOf;
      TouchKeeps(st, u, t);
    }
  }
}
