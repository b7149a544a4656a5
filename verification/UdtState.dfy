/**
 The socket manager of the UDT library as a state machine: one transition for each API call,
 each handshake, each pass of the garbage collector and the shutdown.

 A socket object is named by its id, so a socket that is a key of both maps for a moment is
 one object and not two. Time, the network and the choices of the core protocol (CUDT) come
 in as arguments of the transitions.
 */
module UdtState {
  import opened Ordered

  type Address = int

  datatype Option<T> = None | Some(value: T)

  datatype Status = INIT | OPENED | LISTENING | CONNECTING | CONNECTED | BROKEN | CLOSING | CLOSED | NONEXIST

  /** The options of a socket the manager looks at. */
  datatype Config = Config(ipVersion: int, mss: int, reuseAddr: bool, rendezvous: bool)

  /** CUDTSocket, with `broken` for the flag of its CUDT. */
  datatype Socket = Socket(
    config: Config,
    status: Status,
    broken: bool,
    selfPort: int,
    peerAddr: Option<Address>,
    listener: Id,               // m_ListenSocket; 0 for an independent socket
    peerId: int,
    isn: int,
    queued: Option<set<Id>>,    // m_pQueuedSockets; None for the null pointer
    accepted: Option<set<Id>>,  // m_pAcceptSockets
    backlog: int,
    muxId: int)                 // -1 for none

  datatype Mux = Mux(port: int, ipVersion: int, mss: int, reusable: bool, refCount: int)

  /**
   The manager. `store` holds the live socket objects, `sockets` and `closed` are the keys of
   m_Sockets and m_ClosedSockets. The last three fields record what has happened: the sockets
   deleted, the connections handed out by accept, and for each multiplexer the handshakes
   rolled back after they had taken a reference to it.
   */
  datatype State = State(
    store: map<Id, Socket>,
    sockets: set<Id>,
    closed: set<Id>,
    peerRec: map<int, set<Id>>,
    muxes: map<Id, Mux>,
    lastId: Id,
    freed: seq<Id>,
    handedOut: seq<Id>,
    rolledBack: multiset<Id>)

  function Initial(seed: Id): State {
    State(map[], {}, {}, map[], map[], seed, [], [], multiset{})
  }

  // ---- Helpers -----------------------------------------------------------------------

  function Signed32(x: int): int {
    (x + 0x8000_0000) % 0x1_0000_0000 - 0x8000_0000
  }

  /** The key of m_PeerRec: (id << 30) + isn in 32-bit arithmetic. */
  function PeerKey(peerId: int, isn: int): int {
    Signed32(Signed32(peerId * 0x4000_0000) + isn)
  }

  function KeyOf(s: Socket): int { PeerKey(s.peerId, s.isn) }

  /** locate(u): an open socket that is not CLOSED. */
  predicate Located(st: State, u: Id) {
    u in st.sockets && u in st.store && st.store[u].status != CLOSED
  }

  function Put(st: State, u: Id, s: Socket): State {
    st.(store := st.store[u := s])
  }

  // ---- Creating and binding ----------------------------------------------------------

  function FreshSocket(config: Config): Socket {
    Socket(config, INIT, false, 0, None, 0, 0, 0, None, None, 0, -1)
  }

  function NewSocket(st: State, config: Config): State
    requires st.lastId > 1
  {
    var id: Id := st.lastId - 1;
    st.(lastId := id, store := st.store[id := FreshSocket(config)], sockets := st.sockets + {id})
  }

  /** The multiplexers a socket that allows it can share for the port. */
  function Shareable(st: State, config: Config, port: int): set<Id> {
    set m | m in st.muxes && st.muxes[m].ipVersion == config.ipVersion && st.muxes[m].mss == config.mss
            && st.muxes[m].reusable && st.muxes[m].port == port
  }

  function Share(st: State, u: Id, m: Id): State
    requires u in st.store && m in st.muxes
  {
    st.(muxes := st.muxes[m := st.muxes[m].(refCount := st.muxes[m].refCount + 1)],
        store := st.store[u := st.store[u].(muxId := m)])
  }

  /**
   updateMux for bind and connect: `port` is the port of the address, if one is given; the
   channel opens on `channel`, or fails to open. None is the exception thrown then.
   */
  function UpdateMux(st: State, u: Id, port: Option<int>, channel: Option<int>): (r: Option<State>)
    requires u in st.store
    ensures r.Some? ==> u in r.value.store
  {
    var config := st.store[u].config;
    if config.reuseAddr && port.Some? && Shareable(st, config, port.value) != {} then
      Some(Share(st, u, Least(Shareable(st, config, port.value))))
    else
      match channel
      case None => None
      case Some(p) =>
        Some(st.(muxes := st.muxes[u := Mux(p, config.ipVersion, config.mss, config.reuseAddr, 1)],
                 store := st.store[u := st.store[u].(muxId := u)]))
  }

  function PortIn(muxes: map<Id, Mux>, m: int): int {
    if m in muxes then muxes[m].port else 0
  }

  function PortOf(st: State, m: int): int { PortIn(st.muxes, m) }

  function Bind(st: State, u: Id, port: int, channel: Option<int>): State {
    if !Located(st, u) || st.store[u].status != INIT then st
    else
      match UpdateMux(st, u, Some(port), channel)
      case None => st
      case Some(st') =>
        var s := st'.store[u];
        Put(st', u, s.(status := OPENED, selfPort := PortOf(st', s.muxId)))
  }

  /** listen; `ready` says whether CUDT::listen succeeds once the queues are in place. */
  function Listen(st: State, u: Id, backlog: int, ready: bool): State {
    if !Located(st, u) || st.store[u].status != OPENED || st.store[u].config.rendezvous || backlog <= 0 then st
    else
      Put(st, u, st.store[u].(backlog := backlog, queued := Some({}), accepted := Some({}),
                              status := if ready then LISTENING else OPENED))
  }

  // ---- Incoming connections ----------------------------------------------------------

  function Without(q: Option<set<Id>>, d: set<Id>): Option<set<Id>> {
    match q
    case None => None
    case Some(s) => Some(s - d)
  }

  /** The open sockets recorded under the key whose peer has the address. */
  function SamePeer(st: State, peer: Address, key: int): set<Id> {
    if key in st.peerRec then
      set j | j in st.peerRec[key] && j in st.sockets && j in st.store && st.store[j].peerAddr == Some(peer)
    else {}
  }

  /** locate(peer, id, isn): the first of them in the order of iteration. */
  function LocatePeer(st: State, peer: Address, key: int): Option<Id> {
    if SamePeer(st, peer, key) == {} then None else Some(Least(SamePeer(st, peer, key)))
  }

  /** A broken connection makes room for a new one from the same peer. */
  function Replace(st: State, listen: Id, prior: Id): State
    requires listen in st.store && prior in st.store
  {
    var st1 := Put(st, prior, st.store[prior].(status := CLOSED));
    var ls := st1.store[listen];
    Put(st1, listen, ls.(queued := Without(ls.queued, {prior}), accepted := Without(ls.accepted, {prior})))
  }

  lemma PriorIsOpen(st: State, peer: Address, key: int)
    ensures var prior := LocatePeer(st, peer, key); prior.Some? ==> prior.value in st.sockets && prior.value in st.store
  {
    hide Least;
  }

  /** Giving way changes the status of the prior connection, and the queues of the listener. */
  lemma GivesWay(st: State, listen: Id, prior: Id)
    requires listen in st.store && prior in st.store
    ensures var r := Replace(st, listen, prior);
            && r == st.(store := r.store) && r.store.Keys == st.store.Keys
            && forall u | u in st.store ::
                 && r.store[u].status == (if u == prior then CLOSED else st.store[u].status)
                 && r.store[u].selfPort == st.store[u].selfPort
  {
    assert Replace(st, listen, prior).store.Keys == st.store.Keys;
  }

  function OnPort(muxes: map<Id, Mux>, port: int): set<Id> {
    set m | m in muxes && muxes[m].port == port
  }

  function QueueLength(s: Socket): nat {
    match s.queued
    case None => 0
    case Some(q) => |q|
  }

  function Record(peerRec: map<int, set<Id>>, key: int, u: Id): map<int, set<Id>> {
    peerRec[key := (if key in peerRec then peerRec[key] else {}) + {u}]
  }

  /** The new connection: its object, with a share of the listener's multiplexer. */
  function Arrive(st: State, listen: Id, peer: Address, peerId: int, isn: int): (r: State)
    requires listen in st.store && st.lastId > 1
    ensures st.lastId - 1 in r.store && listen in r.store && r.lastId == st.lastId - 1
  {
    var id: Id, ls := st.lastId - 1, st.store[listen];
    var ns := Socket(ls.config, CONNECTED, false, 0, Some(peer), listen, peerId, isn, None, None, 0, -1);
    var st1 := st.(lastId := id, store := st.store[id := ns]);
    if OnPort(st.muxes, ls.selfPort) == {} then st1 else Share(st1, id, Least(OnPort(st.muxes, ls.selfPort)))
  }

  /** newConnection, from the point where a new connection is due. `connected` says whether
      CUDT::connect succeeds; when it does not, the object is dropped and its share is not. */
  function Establish(st: State, listen: Id, peer: Address, peerId: int, isn: int, connected: bool): (r: (State, int))
    requires listen in st.store && st.lastId > 1
  {
    if QueueLength(st.store[listen]) >= st.store[listen].backlog then (st, -1)
    else
      var id: Id := st.lastId - 1;
      var st1 := Arrive(st, listen, peer, peerId, isn);
      var m := st1.store[id].muxId;
      if !connected then
        var lost := if m in st1.muxes then multiset{m} else multiset{};
        (st1.(store := st.store, rolledBack := st1.rolledBack + lost), -1)
      else
        var ls := st1.store[listen];
        var queue := (if ls.queued.Some? then ls.queued.value else {}) + {id};
        var st2 := Put(st1, id, st1.store[id].(selfPort := PortOf(st1, m)));
        var st3 := Put(st2, listen, ls.(queued := Some(queue)));
        (st3.(sockets := st.sockets + {id}, peerRec := Record(st.peerRec, PeerKey(peerId, isn), id)), 1)
  }

  function NewConnection(st: State, listen: Id, peer: Address, peerId: int, isn: int, connected: bool)
    : (r: (State, int))
    requires st.lastId > 1
  {
    if !Located(st, listen) then (st, -1)
    else
      match LocatePeer(st, peer, PeerKey(peerId, isn))
      case None => Establish(st, listen, peer, peerId, isn, connected)
      case Some(prior) =>
        if !st.store[prior].broken then (st, 0)
        else Establish(Replace(st, listen, prior), listen, peer, peerId, isn, connected)
  }

  predicate CanAccept(st: State, listen: Id) {
    Located(st, listen) && st.store[listen].status == LISTENING && !st.store[listen].config.rendezvous
    && !st.store[listen].broken && st.store[listen].queued.Some? && st.store[listen].queued.value != {}
  }

  /** accept, once it no longer waits: the connection handed out, if there is one. */
  function Accept(st: State, listen: Id): (r: (State, Option<Id>)) {
    if !CanAccept(st, listen) then (st, None)
    else
      var ls := st.store[listen];
      var u := Least(ls.queued.value);
      var taken := (if ls.accepted.Some? then ls.accepted.value else {}) + {u};
      (Put(st, listen, ls.(queued := Some(ls.queued.value - {u}), accepted := Some(taken)))
         .(handedOut := st.handedOut + [u]), Some(u))
  }

  // ---- Outgoing connections ----------------------------------------------------------

  datatype Attempt = Refused | Pending | Completed

  /** connect; `attempt` is what CUDT::connect comes to. */
  function Connect(st: State, u: Id, peer: Address, channel: Option<int>, attempt: Attempt): State {
    if !Located(st, u) then st
    else if st.store[u].status == INIT then
      if st.store[u].config.rendezvous then st
      else
        match UpdateMux(st, u, None, channel)
        case None => st
        case Some(st') => Attempted(st', u, peer, attempt)
    else if st.store[u].status == OPENED then Attempted(st, u, peer, attempt)
    else st
  }

  function Attempted(st: State, u: Id, peer: Address, attempt: Attempt): State
    requires u in st.store
  {
    var s := st.store[u];
    match attempt
    case Refused => Put(st, u, s.(status := OPENED))
    case Pending => Put(st, u, s.(status := CONNECTING, peerAddr := Some(peer)))
    case Completed => Put(st, u, s.(status := CONNECTED, peerAddr := Some(peer), selfPort := PortOf(st, s.muxId)))
  }

  function ConnectComplete(st: State, u: Id): State {
    if !Located(st, u) then st
    else Put(st, u, st.store[u].(status := CONNECTED, selfPort := PortOf(st, st.store[u].muxId)))
  }

  // ---- Closing -----------------------------------------------------------------------

  function Close(st: State, u: Id): State {
    if !Located(st, u) then st
    else if st.store[u].status == LISTENING then Put(st, u, st.store[u].(broken := true))
    else
      Put(st, u, st.store[u].(status := CLOSED)).(sockets := st.sockets - {u}, closed := st.closed + {u})
  }

  /** The core protocol finds the connection broken. */
  function Break(st: State, u: Id): State {
    if u in st.store then Put(st, u, st.store[u].(broken := true)) else st
  }

  /** The sockets of `gone` that the socket L listened for. */
  function Children(st: State, gone: set<Id>, L: Id): set<Id> {
    set c | c in gone && c in st.store && st.store[c].listener == L
  }

  function ClosedSocket(st: State, gone: set<Id>, breaking: bool, u: Id): Socket
    requires u in st.store
  {
    var s := st.store[u];
    var kids := Children(st, gone, u);
    var s1 := s.(queued := Without(s.queued, kids), accepted := Without(s.accepted, kids));
    if u in gone then s1.(status := CLOSED, broken := s.broken || breaking) else s1
  }

  /** The open sockets of `gone` become closed and leave the queues of their listeners. */
  function CloseAll(st: State, gone: set<Id>, breaking: bool): State {
    st.(store := map u | u in st.store :: ClosedSocket(st, gone, breaking, u),
        sockets := st.sockets - gone, closed := st.closed + gone)
  }

  /** The broken sockets the collector closes in a pass that lets those of `keep` wait. */
  function Broken(st: State, keep: set<Id>): set<Id> {
    set u | u in st.sockets && u in st.store && st.store[u].broken && u !in keep
  }

  function Orphan(s: Socket): Socket { s.(broken := true, status := CLOSED) }

  /** The objects once those of the queue have been broken and closed. */
  function Orphaned(store: map<Id, Socket>, queue: set<Id>): map<Id, Socket> {
    map x | x in store :: if x in queue then Orphan(store[x]) else store[x]
  }

  function Unrecord(peerRec: map<int, set<Id>>, key: int, u: Id): map<int, set<Id>> {
    if key !in peerRec then peerRec
    else if peerRec[key] - {u} == {} then peerRec - {key}
    else peerRec[key := peerRec[key] - {u}]
  }

  function Release(muxes: map<Id, Mux>, m: int): map<Id, Mux> {
    if m !in muxes then muxes
    else if muxes[m].refCount == 1 then muxes - {m}
    else muxes[m := muxes[m].(refCount := muxes[m].refCount - 1)]
  }

  /** removeSocket: deletes a closed socket; what a listener had queued is closed with it. */
  function RemoveSocket(st: State, u: Id): State {
    if u !in st.closed || u !in st.store then st
    else
      var s := st.store[u];
      var queue := if s.queued.Some? then s.queued.value else {};
      st.(store := Orphaned(st.store, queue) - {u},
          sockets := st.sockets - queue,
          closed := st.closed + queue - {u},
          peerRec := Unrecord(st.peerRec, KeyOf(s), u),
          muxes := Release(st.muxes, s.muxId),
          freed := st.freed + [u])
  }

  function RemoveAll(st: State, us: seq<Id>): State
    decreases |us|
  {
    if us == [] then st else RemoveAll(RemoveSocket(st, us[0]), us[1..])
  }

  /** checkBrokenSockets: of the closed sockets those of `reap` have had their time. */
  function Collect(st: State, keep: set<Id>, reap: set<Id>): State {
    var st1 := CloseAll(st, Broken(st, keep), false);
    RemoveAll(st1, Ascending(reap * st1.closed))
  }

  /** The shutdown of the collector, up to the final drain. */
  function Shutdown(st: State): State {
    CloseAll(st, st.sockets, true)
  }

  // ---- Runs --------------------------------------------------------------------------

  datatype Event =
    | ENewSocket(config: Config)
    | EBind(u: Id, port: int, channel: Option<int>)
    | EListen(u: Id, limit: int, ready: bool)
    | EHandshake(u: Id, peer: Address, peerId: int, isn: int, connected: bool)
    | EAccept(u: Id)
    | EConnect(u: Id, peer: Address, channel: Option<int>, attempt: Attempt)
    | EConnectComplete(u: Id)
    | EClose(u: Id)
    | EBreak(u: Id)
    | ECollect(keep: set<Id>, reap: set<Id>)
    | EShutdown

  /**
   What the surroundings keep to. New ids stay positive; handshakes come from a registered
   listener; CUDT completes only connects it has begun; and callers close only ids they got
   from newSocket or from accept.
   */
  predicate Enabled(st: State, e: Event) {
    match e
    case ENewSocket(_) => st.lastId > 1
    case EHandshake(u, _, _, _, _) => st.lastId > 1 && (Located(st, u) ==> st.store[u].status == LISTENING)
    case EConnectComplete(u) => Located(st, u) ==> st.store[u].status in {OPENED, CONNECTING}
    case EClose(u) => Located(st, u) ==> st.store[u].listener == 0 || u in st.handedOut
    case _ => true
  }

  function Apply(st: State, e: Event): State
    requires Enabled(st, e)
  {
    match e
    case ENewSocket(config) => NewSocket(st, config)
    case EBind(u, port, channel) => Bind(st, u, port, channel)
    case EListen(u, limit, ready) => Listen(st, u, limit, ready)
    case EHandshake(u, peer, peerId, isn, connected) => NewConnection(st, u, peer, peerId, isn, connected).0
    case EAccept(u) => Accept(st, u).0
    case EConnect(u, peer, channel, attempt) => Connect(st, u, peer, channel, attempt)
    case EConnectComplete(u) => ConnectComplete(st, u)
    case EClose(u) => Close(st, u)
    case EBreak(u) => Break(st, u)
    case ECollect(keep, reap) => Collect(st, keep, reap)
    case EShutdown => Shutdown(st)
  }

  /** Where a run of events leads from st; None if some event was not permitted. */
  function Run(st: State, es: seq<Event>): Option<State>
    decreases |es|
  {
    if es == [] then Some(st)
    else
      match Run(st, es[..|es| - 1])
      case None => None
      case Some(mid) => if Enabled(mid, es[|es| - 1]) then Some(Apply(mid, es[|es| - 1])) else None
  }
}
