/** What each event of a run does to the sockets, the maps and the multiplexers, told by their fields. */
module UdtLaws {
  import opened Ordered
  import opened UdtState
  import opened UdtInvariant
  import opened UdtHandshake
  import opened UdtTheorems

  /** The run es leads from the start to st, and its extension by e to st'. */
  ghost predicate Leads(seed: Id, es: seq<Event>, st: State, e: Event, st': State) {
    seed > 0 && Run(Initial(seed), es) == Some(st) && Run(Initial(seed), es + [e]) == Some(st')
  }

  lemma LeadsBy(seed: Id, es: seq<Event>, st: State, e: Event, st': State)
    requires Leads(seed, es, st, e, st')
    ensures Enabled(st, e) && st' == Apply(st, e)
  {
    hide Apply, Enabled;
    assert (es + [e])[..|es + [e]| - 1] == es;
  }

  /** In the map of open sockets, and not CLOSED. */
  predicate IsOpen(st: State, u: Id) {
    u in st.sockets && u in st.store && st.store[u].status != CLOSED
  }

  /** The two states differ in the object of u at most. */
  predicate OnlySocket(st: State, st': State, u: Id) {
    && st' == st.(store := st'.store) && st'.store.Keys == st.store.Keys
    && forall x | x in st.store && x != u :: st'.store[x] == st.store[x]
  }

  // ---- Calls on one socket -----------------------------------------------------------

  /** newSocket makes one object under the next lower id, open, and in its first status. */
  lemma NewSocketLaw(seed: Id, es: seq<Event>, st: State, config: Config, st': State)
    requires Leads(seed, es, st, ENewSocket(config), st')
    ensures var u := st.lastId - 1;
            && u > 0 && st'.store == st.store[u := Socket(config, INIT, false, 0, None, 0, 0, 0, None, None, 0, -1)]
            && st' == st.(lastId := u, store := st'.store, sockets := st.sockets + {u})
  {
    LeadsBy(seed, es, st, ENewSocket(config), st');
    hide Run;
  }

  /** The multiplexer may be shared by a socket of the configuration for the port. */
  predicate Fits(mux: Mux, config: Config, port: int) {
    mux.ipVersion == config.ipVersion && mux.mss == config.mss && mux.reusable && mux.port == port
  }

  /** The multiplexer m is the first that fits. */
  ghost predicate FirstFit(st: State, config: Config, port: int, m: Id) {
    && m in st.muxes && Fits(st.muxes[m], config, port)
    && forall x | x in st.muxes && Fits(st.muxes[x], config, port) :: m <= x
  }

  /** One more reference to the multiplexer m, for the socket u on its port. */
  predicate Joins(st: State, st': State, u: Id, m: Id)
    requires u in st.store && m in st.muxes
  {
    var mux := st.muxes[m];
    && st' == st.(store := st'.store, muxes := st'.muxes)
    && st'.store == st.store[u := st.store[u].(status := OPENED, selfPort := mux.port, muxId := m)]
    && st'.muxes == st.muxes[m := mux.(refCount := mux.refCount + 1)]
  }

  ghost predicate Binds(st: State, u: Id, port: int, channel: Option<int>, st': State) {
    if !IsOpen(st, u) || st.store[u].status != INIT then st' == st
    else
      var s, c := st.store[u], st.store[u].config;
      if c.reuseAddr && exists m: Id :: m in st.muxes && Fits(st.muxes[m], c, port) then
        exists m: Id :: FirstFit(st, c, port, m) && Joins(st, st', u, m)
      else if channel.Some? then
        && st'.store == st.store[u := s.(status := OPENED, selfPort := channel.value, muxId := u)]
        && st'.muxes == st.muxes[u := Mux(channel.value, c.ipVersion, c.mss, c.reuseAddr, 1)]
        && st' == st.(store := st'.store, muxes := st'.muxes)
      else st' == st
  }

  lemma BindEffect(st: State, u: Id, port: int, channel: Option<int>)
    ensures Binds(st, u, port, channel, Bind(st, u, port, channel))
  {
    hide Shareable, FirstFit, Fits;
    if IsOpen(st, u) && st.store[u].status == INIT { FirstIsLeast(st, st.store[u].config, port); }
  }

  /** bind changes an open socket in its first status only. If the socket allows it and some
      multiplexer fits, the first of them gets one more reference; otherwise, if the channel opens,
      the socket gets a multiplexer of its own, on the port of the channel. The socket's port is that
      of its multiplexer. */
  lemma BindLaw(seed: Id, es: seq<Event>, st: State, u: Id, port: int, channel: Option<int>, st': State)
    requires Leads(seed, es, st, EBind(u, port, channel), st')
    ensures Binds(st, u, port, channel, st')
  {
    hide Binds, Bind, Run;
    LeadsBy(seed, es, st, EBind(u, port, channel), st');
    BindEffect(st, u, port, channel);
  }

  lemma FirstIsLeast(st: State, config: Config, port: int)
    ensures Shareable(st, config, port) != {} <==> exists m: Id :: m in st.muxes && Fits(st.muxes[m], config, port)
    ensures var fit := Shareable(st, config, port);
            fit != {} ==> FirstFit(st, config, port, Least(fit)) && st.muxes[Least(fit)].port == port
  {
    var fit := Shareable(st, config, port);
    assert forall m :: m in fit <==> m in st.muxes && Fits(st.muxes[m], config, port);
    if fit != {} { assert IsLeast(Least(fit), fit); }
  }

  /** listen gives an open, opened socket without the rendezvous option its queues and backlog. */
  lemma ListenLaw(seed: Id, es: seq<Event>, st: State, u: Id, limit: int, ready: bool, st': State)
    requires Leads(seed, es, st, EListen(u, limit, ready), st')
    ensures if IsOpen(st, u) && st.store[u].status == OPENED && !st.store[u].config.rendezvous && limit > 0 then
              && OnlySocket(st, st', u)
              && st'.store[u] == st.store[u].(status := if ready then LISTENING else OPENED, backlog := limit,
                                              queued := Some({}), accepted := Some({}))
            else st' == st
  {
    hide Run;
    LeadsBy(seed, es, st, EListen(u, limit, ready), st');
  }

  ghost predicate Accepts(st: State, L: Id, st': State) {
    if IsOpen(st, L) && st.store[L].status == LISTENING && !st.store[L].config.rendezvous
       && !st.store[L].broken && st.store[L].queued.Some? && st.store[L].queued.value != {} then
      && OnlySocket(st, st'.(handedOut := st.handedOut), L) && st.store[L].accepted.Some?
      && exists u: Id :: IsLeast(u, st.store[L].queued.value)
           && st'.handedOut == st.handedOut + [u]
           && st'.store[L] == st.store[L].(queued := Some(st.store[L].queued.value - {u}),
                                           accepted := Some(st.store[L].accepted.value + {u}))
    else st' == st
  }

  lemma AcceptEffect(st: State, L: Id)
    requires L in st.store && st.store[L].queued.Some? ==> st.store[L].accepted.Some?
    ensures Accepts(st, L, Accept(st, L).0)
  {
    hide Least, IsLeast;
    if CanAccept(st, L) { assert IsLeast(Least(st.store[L].queued.value), st.store[L].queued.value); }
  }

  /** accept takes the first connection off the queue of an open, unbroken listener. */
  lemma AcceptLaw(seed: Id, es: seq<Event>, st: State, L: Id, st': State)
    requires Leads(seed, es, st, EAccept(L), st')
    ensures Accepts(st, L, st')
  {
    hide Accept, Accepts, Run, Invariant;
    LeadsBy(seed, es, st, EAccept(L), st');
    RunKeeps(seed, es);
    if L in st.store { AcceptedThere(st, L); }
    AcceptEffect(st, L);
  }

  lemma AcceptedThere(st: State, L: Id)
    requires Invariant(st) && L in st.store
    ensures st.store[L].queued.Some? ==> st.store[L].accepted.Some?
  {
    assert Kin(st.store, st.lastId, L);
  }

  /** What connect makes of a socket, with the port of its multiplexer. */
  function Attempting(s: Socket, peer: Address, attempt: Attempt, port: int): Socket {
    match attempt
    case Refused => s.(status := OPENED)
    case Pending => s.(status := CONNECTING, peerAddr := Some(peer))
    case Completed => s.(status := CONNECTED, peerAddr := Some(peer), selfPort := port)
  }

  predicate Connects(st: State, u: Id, peer: Address, channel: Option<int>, attempt: Attempt, st': State) {
    if IsOpen(st, u) && st.store[u].status == INIT && !st.store[u].config.rendezvous && channel.Some? then
      var s, c, p := st.store[u], st.store[u].config, channel.value;
      && st'.muxes == st.muxes[u := Mux(p, c.ipVersion, c.mss, c.reuseAddr, 1)]
      && OnlySocket(st, st'.(muxes := st.muxes), u)
      && st'.store[u] == Attempting(s.(muxId := u), peer, attempt, p)
    else if IsOpen(st, u) && st.store[u].status == OPENED then
      && OnlySocket(st, st', u)
      && st'.store[u] == Attempting(st.store[u], peer, attempt, st'.store[u].selfPort)
      && (attempt.Completed? && st.store[u].muxId >= 0 ==>
            st.store[u].muxId in st.muxes && st'.store[u].selfPort == st.muxes[st.store[u].muxId].port)
    else st' == st
  }

  lemma ConnectEffect(st: State, u: Id, peer: Address, channel: Option<int>, attempt: Attempt)
    requires u in st.store && st.store[u].muxId >= 0 ==> st.store[u].muxId in st.muxes
    ensures Connects(st, u, peer, channel, attempt, Connect(st, u, peer, channel, attempt))
  {
    hide Shareable, Least;
  }

  /** connect gives a socket in its first status a multiplexer of its own, unless it is to meet its peer
      or the channel fails. That or an opened socket is then CONNECTED, CONNECTING, or OPENED. */
  lemma ConnectLaw(seed: Id, es: seq<Event>, st: State, u: Id, peer: Address, channel: Option<int>,
                   attempt: Attempt, st': State)
    requires Leads(seed, es, st, EConnect(u, peer, channel, attempt), st')
    ensures Connects(st, u, peer, channel, attempt, st')
  {
    hide Connect, Connects, Run, Invariant;
    LeadsBy(seed, es, st, EConnect(u, peer, channel, attempt), st');
    RunKeeps(seed, es);
    if u in st.store { NamedIsThere(st, u); }
    ConnectEffect(st, u, peer, channel, attempt);
  }

  lemma NamedIsThere(st: State, u: Id)
    requires Invariant(st) && u in st.store
    ensures st.store[u].muxId >= 0 ==> st.store[u].muxId in st.muxes
  {
    assert NamesMux(st.store[u], u, st.muxes);
  }

  /** The second half of a connect makes the socket CONNECTED, with the port of its multiplexer. */
  lemma ConnectCompleteLaw(seed: Id, es: seq<Event>, st: State, u: Id, st': State)
    requires Leads(seed, es, st, EConnectComplete(u), st')
    ensures if IsOpen(st, u) then
              && OnlySocket(st, st', u)
              && st'.store[u] == st.store[u].(status := CONNECTED, selfPort := st'.store[u].selfPort)
              && (st.store[u].muxId >= 0 ==>
                    st.store[u].muxId in st.muxes && st'.store[u].selfPort == st.muxes[st.store[u].muxId].port)
            else st' == st
  {
    hide Run, Invariant;
    LeadsBy(seed, es, st, EConnectComplete(u), st');
    RunKeeps(seed, es);
    if u in st.store { NamedIsThere(st, u); }
  }

  /** close marks a listener broken, and leaves it to the collection; any other open socket becomes
      CLOSED and goes over to the closed ones. Nothing else changes. */
  lemma CloseLaw(seed: Id, es: seq<Event>, st: State, u: Id, st': State)
    requires Leads(seed, es, st, EClose(u), st')
    ensures if !IsOpen(st, u) then st' == st
            else if st.store[u].status == LISTENING then
              OnlySocket(st, st', u) && st'.store[u] == st.store[u].(broken := true) && u in st'.sockets
            else
              && OnlySocket(st, st'.(sockets := st.sockets, closed := st.closed), u)
              && st'.store[u] == st.store[u].(status := CLOSED) && !IsOpen(st', u)
              && st'.sockets == st.sockets - {u} && st'.closed == st.closed + {u}
  {
    hide Run;
    LeadsBy(seed, es, st, EClose(u), st');
  }

  /** A connection that the core protocol finds broken is marked so. */
  lemma BreakLaw(seed: Id, es: seq<Event>, st: State, u: Id, st': State)
    requires Leads(seed, es, st, EBreak(u), st')
    ensures if u in st.store then OnlySocket(st, st', u) && st'.store[u] == st.store[u].(broken := true)
            else st' == st
  {
    hide Run;
    LeadsBy(seed, es, st, EBreak(u), st');
  }

  // ---- Handshakes --------------------------------------------------------------------

  /** The open connections accepted from the address whose id and sequence number agree with those of
      the handshake in id * 2^30 + number modulo 2^32. */
  function Group(st: State, peer: Address, peerId: int, isn: int): set<Id> {
    set a | a in st.sockets && a in st.store && st.store[a].listener != 0 && st.store[a].peerAddr == Some(peer)
            && SameKey(st.store[a].peerId, st.store[a].isn, peerId, isn)
  }

  function Less(q: Option<set<Id>>, u: Id): Option<set<Id>> {
    if q.Some? then Some(q.value - {u}) else None
  }

  /** The connection that was there is CLOSED, and leaves the queues of the listener. */
  function Giving(st: State, L: Id, prior: Option<Id>): State
    requires L in st.store && (prior.Some? ==> prior.value in st.store)
  {
    if prior.None? then st
    else
      var u, ls := prior.value, st.store[L];
      st.(store := st.store[u := st.store[u].(status := CLOSED)]
                           [L := ls.(queued := Less(ls.queued, u), accepted := Less(ls.accepted, u))])
  }

  /** The first multiplexer on the listener's port. */
  ghost predicate FirstOnPort(st: State, L: Id, m: Option<Id>)
    requires L in st.store
  {
    match m
    case None => forall x | x in st.muxes :: st.muxes[x].port != st.store[L].selfPort
    case Some(m) => m in st.muxes && st.muxes[m].port == st.store[L].selfPort
                    && forall x | x in st.muxes && st.muxes[x].port == st.store[L].selfPort :: m <= x
  }

  /** One more reference to the multiplexer, if there is one. */
  function Referred(muxes: map<Id, Mux>, m: Option<Id>): map<Id, Mux> {
    if m.Some? && m.value in muxes then muxes[m.value := muxes[m.value].(refCount := muxes[m.value].refCount + 1)]
    else muxes
  }

  /** The new connection of the listener, with the multiplexer and its port. */
  function NewComer(ls: Socket, L: Id, peer: Address, peerId: int, isn: int, m: Option<Id>): Socket {
    Socket(ls.config, CONNECTED, false, if m.Some? then ls.selfPort else 0, Some(peer), L, peerId, isn, None, None, 0,
           if m.Some? then m.value else -1)
  }

  /** The connection stands under the next lower id, in the queue of its listener. */
  ghost predicate Enters(st: State, L: Id, peer: Address, peerId: int, isn: int, st': State)
    requires L in st.store
  {
    exists m | FirstOnPort(st, L, m) ::
      var u: int, ls := st.lastId - 1, st.store[L];
      && u > 0 && ls.queued.Some?
      && st' == st.(lastId := u, store := st'.store, sockets := st.sockets + {u}, muxes := Referred(st.muxes, m),
                    peerRec := st'.peerRec)
      && st'.store == st.store[u := NewComer(ls, L, peer, peerId, isn, m)]
                              [L := ls.(queued := Some(ls.queued.value + {u}))]
  }

  /** The id and the reference are gone, and nothing else has changed. */
  ghost predicate FallsBack(st: State, L: Id, st': State)
    requires L in st.store
  {
    exists m | FirstOnPort(st, L, m) ::
      st' == st.(lastId := st'.lastId, muxes := Referred(st.muxes, m),
                 rolledBack := st.rolledBack + if m.Some? then multiset{m.value} else multiset{})
      && st'.lastId == st.lastId - 1
  }

  ghost predicate Handles(st: State, L: Id, peer: Address, peerId: int, isn: int, connected: bool, st': State) {
    if !IsOpen(st, L) || (exists a :: a in Group(st, peer, peerId, isn) && !st.store[a].broken) then st' == st
    else
      exists prior: Option<Id> ::
        && (if Group(st, peer, peerId, isn) == {} then prior.None?
            else prior.Some? && IsLeast(prior.value, Group(st, peer, peerId, isn)))
        && var st1 := Giving(st, L, prior);
           st1.store[L].queued.Some? &&
           if |st1.store[L].queued.value| >= st1.store[L].backlog then st' == st1
           else if connected then Enters(st1, L, peer, peerId, isn, st')
           else FallsBack(st1, L, st')
  }

  lemma GroupIsRecorded(st: State, peer: Address, peerId: int, isn: int)
    requires LifeCycle(st) && PeerRecord(st)
    ensures Group(st, peer, peerId, isn) == SamePeer(st, peer, PeerKey(peerId, isn))
  {
    hide PeerKey, SameKey;
    forall a | a in st.store
      ensures KeyOf(st.store[a]) == PeerKey(peerId, isn) <==> SameKey(st.store[a].peerId, st.store[a].isn, peerId, isn)
    {
      KeysAgree(st.store[a].peerId, st.store[a].isn, peerId, isn);
    }
    forall a ensures a in Group(st, peer, peerId, isn) <==> a in SamePeer(st, peer, PeerKey(peerId, isn)) {
      if a in Group(st, peer, peerId, isn) { assert Accepted(st, a); }
    }
  }

  lemma GivingIs(st: State, L: Id, prior: Id)
    requires L in st.store && prior in st.store && prior != L
    ensures Giving(st, L, Some(prior)) == Replace(st, L, prior)
  {
  }

  lemma FirstIsOnPort(st: State, L: Id)
    requires L in st.store
    ensures FirstOnPort(st, L, FirstMux(st, L))
  {
    var on := OnPort(st.muxes, st.store[L].selfPort);
    assert forall x | x in st.muxes && st.muxes[x].port == st.store[L].selfPort :: x in on;
  }

  function FirstMux(st: State, L: Id): Option<Id>
    requires L in st.store
  {
    var on := OnPort(st.muxes, st.store[L].selfPort);
    if on == {} then None else Some(Least(on))
  }

  lemma ArriveEffect(st: State, L: Id, peer: Address, peerId: int, isn: int)
    requires L in st.store && st.lastId > 1 && FirstOnPort(st, L, FirstMux(st, L))
    ensures var m, u := FirstMux(st, L), st.lastId - 1;
            && Arrive(st, L, peer, peerId, isn)
               == st.(lastId := u, muxes := Referred(st.muxes, m),
                      store := st.store[u := NewComer(st.store[L], L, peer, peerId, isn, m).(selfPort := 0)])
            && PortIn(Referred(st.muxes, m), if m.Some? then m.value else -1)
               == if m.Some? then st.store[L].selfPort else 0
  {
    hide OnPort;
    var u: Id := st.lastId - 1;
    var bare := st.store[u := NewComer(st.store[L], L, peer, peerId, isn, None)];
    if FirstMux(st, L).Some? { assert bare[u := bare[u].(muxId := FirstMux(st, L).value)]
      == st.store[u := bare[u].(muxId := FirstMux(st, L).value)]; }
  }

  lemma EntersEffect(st: State, L: Id, peer: Address, peerId: int, isn: int)
    requires L in st.store && st.lastId > 1 && st.lastId <= L && st.store[L].queued.Some?
    requires |st.store[L].queued.value| < st.store[L].backlog && (forall m | m in st.muxes :: st.lastId <= m)
    ensures Enters(st, L, peer, peerId, isn, Establish(st, L, peer, peerId, isn, true).0)
  {
    hide PeerKey, Record, Arrive, FirstOnPort, FirstMux, Referred, PortIn;
    FirstIsOnPort(st, L);
    ArriveEffect(st, L, peer, peerId, isn);
    assert FirstOnPort(st, L, FirstMux(st, L));
  }

  lemma FallsEffect(st: State, L: Id, peer: Address, peerId: int, isn: int)
    requires L in st.store && st.lastId > 1 && st.lastId <= L && st.store[L].queued.Some?
    requires |st.store[L].queued.value| < st.store[L].backlog && (forall m | m in st.muxes :: st.lastId <= m)
    ensures FallsBack(st, L, Establish(st, L, peer, peerId, isn, false).0)
  {
    hide PeerKey, Record, Arrive, FirstOnPort, FirstMux;
    FirstIsOnPort(st, L);
    ArriveEffect(st, L, peer, peerId, isn);
    assert FirstOnPort(st, L, FirstMux(st, L));
  }

  /** What the invariant says of an open listener, and of the connection that gives way to a new one. */
  lemma ListenerIs(st: State, L: Id)
    requires Invariant(st) && IsOpen(st, L) && st.store[L].status == LISTENING
    ensures LifeCycle(st) && PeerRecord(st) && OneUnbroken(st)
    ensures st.store[L].queued.Some? && st.store[L].listener == 0 && st.lastId <= L
    ensures forall m | m in st.muxes :: st.lastId <= m
  {
    assert Kin(st.store, st.lastId, L);
  }

  lemma EstablishHandles(st: State, L: Id, peer: Address, peerId: int, isn: int, connected: bool)
    requires L in st.store && st.lastId > 1 && st.lastId <= L && st.store[L].queued.Some?
    requires forall m | m in st.muxes :: st.lastId <= m
    ensures var st' := Establish(st, L, peer, peerId, isn, connected).0;
            if |st.store[L].queued.value| >= st.store[L].backlog then st' == st
            else if connected then Enters(st, L, peer, peerId, isn, st')
            else FallsBack(st, L, st')
  {
    if |st.store[L].queued.value| < st.store[L].backlog {
      if connected { EntersEffect(st, L, peer, peerId, isn); } else { FallsEffect(st, L, peer, peerId, isn); }
    }
    hide Enters, FallsBack, Arrive, Record, PeerKey;
  }

  lemma HandshakeEffect(st: State, L: Id, peer: Address, peerId: int, isn: int, connected: bool)
    requires Invariant(st) && st.lastId > 1 && (IsOpen(st, L) ==> st.store[L].status == LISTENING)
    ensures Handles(st, L, peer, peerId, isn, connected, NewConnection(st, L, peer, peerId, isn, connected).0)
  {
    hide Invariant, LifeCycle, PeerRecord, OneUnbroken, SamePeer, PeerKey, Establish, Enters, FallsBack, Replace;
    if IsOpen(st, L) {
      ListenerIs(st, L);
      var group := Group(st, peer, peerId, isn);
      GroupIsRecorded(st, peer, peerId, isn);
      LookupFinds(st, peer, PeerKey(peerId, isn));
      UnbrokenFirst(st, peer, peerId, isn);
      if group == {} {
        assert Giving(st, L, None) == st;
        EstablishHandles(st, L, peer, peerId, isn, connected);
      } else if st.store[Least(group)].broken {
        GivingIs(st, L, Least(group));
        GivesWay(st, L, Least(group));
        assert Giving(st, L, Some(Least(group))).store[L].queued.Some?;
        EstablishHandles(Giving(st, L, Some(Least(group))), L, peer, peerId, isn, connected);
      }
    }
  }

  lemma UnbrokenFirst(st: State, peer: Address, peerId: int, isn: int)
    requires LifeCycle(st) && PeerRecord(st) && OneUnbroken(st)
    ensures var group := Group(st, peer, peerId, isn);
            (exists a :: a in group && !st.store[a].broken) <==> group != {} && !st.store[Least(group)].broken
  {
    hide LifeCycle, PeerRecord, OneUnbroken, SamePeer, PeerKey, SameKey;
    GroupIsRecorded(st, peer, peerId, isn);
    LookupFinds(st, peer, PeerKey(peerId, isn));
    forall a | a in Group(st, peer, peerId, isn) ensures Accepted(st, a) && KeyOf(st.store[a]) == PeerKey(peerId, isn) {
      KeysAgree(st.store[a].peerId, st.store[a].isn, peerId, isn);
    }
  }

  /** A handshake at an open listener is answered from an unbroken connection of its group, or else the
      first of the group gives way; with room in the backlog the new connection then enters, or falls
      back when CUDT::connect fails. */
  lemma HandshakeLaw(seed: Id, es: seq<Event>, st: State, L: Id, peer: Address, peerId: int, isn: int,
                     connected: bool, st': State)
    requires Leads(seed, es, st, EHandshake(L, peer, peerId, isn, connected), st')
    ensures Handles(st, L, peer, peerId, isn, connected, st')
  {
    hide Handles, NewConnection, Run, Invariant;
    LeadsBy(seed, es, st, EHandshake(L, peer, peerId, isn, connected), st');
    RunKeeps(seed, es);
    HandshakeEffect(st, L, peer, peerId, isn, connected);
  }

  /** The code is 1 if and only if a new connection has entered, and 0 or -1 otherwise. */
  predicate CodeFits(st: State, r: (State, int)) {
    && (r.1 == 1 <==> r.0.sockets != st.sockets) && (r.1 == 1 || r.1 == 0 || r.1 == -1)
    && (r.1 == 1 ==> r.0.sockets == st.sockets + {st.lastId - 1})
  }

  lemma CodeExactly(st: State, L: Id, peer: Address, peerId: int, isn: int, connected: bool)
    requires Invariant(st) && st.lastId > 1
    ensures CodeFits(st, NewConnection(st, L, peer, peerId, isn, connected))
  {
    hide Invariant, LocatePeer, PeerKey, Establish, Replace, CodeFits;
    NextIsFresh(st);
    PriorIsOpen(st, peer, PeerKey(peerId, isn));
    var prior := LocatePeer(st, peer, PeerKey(peerId, isn));
    NoCode(st);
    if L in st.store {
      EstablishCode(st, st, L, peer, peerId, isn, connected);
      if prior.Some? {
        GivesWay(st, L, prior.value);
        EstablishCode(st, Replace(st, L, prior.value), L, peer, peerId, isn, connected);
      }
    }
  }

  lemma NextIsFresh(st: State)
    requires Invariant(st)
    ensures st.lastId > 0 && st.lastId - 1 !in st.store && st.lastId - 1 !in st.sockets
  {
    InvariantLife(st);
    assert st.lastId - 1 !in st.store;
  }

  lemma NoCode(st: State)
    ensures CodeFits(st, (st, 0)) && CodeFits(st, (st, -1))
  {
  }

  lemma EstablishCode(st: State, st1: State, L: Id, peer: Address, peerId: int, isn: int, connected: bool)
    requires L in st1.store && st1.lastId > 1 && st1.lastId - 1 !in st1.store && st1.lastId - 1 !in st1.sockets
    requires st1.sockets == st.sockets && st1.lastId == st.lastId
    ensures CodeFits(st, Establish(st1, L, peer, peerId, isn, connected))
  {
    hide Arrive, PeerKey, Record, PortOf;
    ArriveOnly(st1, L, peer, peerId, isn);
    assert st1.lastId - 1 in st1.sockets + {st1.lastId - 1};
  }
}
