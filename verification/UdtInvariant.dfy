/** What holds in every state of the socket manager. */
module UdtInvariant {
  import opened Ordered
  import opened UdtState

  // ---- Life cycle --------------------------------------------------------------------

  ghost predicate Distinct(q: seq<Id>) {
    forall i, j | 0 <= i < j < |q| :: q[i] != q[j]
  }

  /** Open and closed sockets are apart, ids are never used again, what is deleted stays so. */
  ghost predicate LifeCycle(st: State) {
    && st.store.Keys == st.sockets + st.closed
    && st.sockets !! st.closed
    && st.lastId > 0
    && (forall u | u in st.store :: st.lastId <= u)
    && (forall u | u in st.freed :: st.lastId <= u && u !in st.store)
    && Distinct(st.freed)
    && (forall u | u in st.closed :: st.store[u].status == CLOSED)
    && (forall u | u in st.sockets :: st.store[u].status == CLOSED ==> st.store[u].broken)
  }

  // ---- Listeners and the connections they queue --------------------------------------

  ghost predicate Role(s: Socket) {
    && s.queued.Some? == s.accepted.Some?
    && (s.status == LISTENING ==> s.queued.Some?)
    && (s.listener != 0 ==> s.status in {CONNECTED, CLOSED} && s.peerAddr.Some? && s.queued.None?)
    && (s.queued.Some? && s.status !in {LISTENING, CLOSED} ==> s.queued.value == {} && s.accepted.value == {})
  }

  /** The queues of the socket L: connections of its own, open, within the backlog, and each
      either still queued or handed out. */
  ghost predicate QueueOf(st: State, L: Id)
    requires L in st.store
  {
    var s := st.store[L];
    s.queued.Some? && s.accepted.Some? ==>
      && |s.queued.value| <= s.backlog
      && (forall u | u in s.queued.value :: u in st.sockets && u in st.store && st.store[u].listener == L
                                            && u !in st.handedOut)
      && (forall u | u in s.accepted.value :: u in st.handedOut)
  }

  /** The place of a socket among the others: whoever listened for it has queues. */
  ghost predicate Kin(store: map<Id, Socket>, lastId: Id, u: Id)
    requires u in store
  {
    var L := store[u].listener;
    Role(store[u]) && (L == 0 || lastId <= L) && (L in store ==> store[L].queued.Some?)
  }

  ghost predicate Families(store: map<Id, Socket>, lastId: Id) {
    0 !in store && forall u | u in store :: Kin(store, lastId, u)
  }

  ghost predicate HandedOut(q: seq<Id>, lastId: Id) {
    Distinct(q) && forall u | u in q :: lastId <= u
  }

  ghost predicate QueuesFit(st: State) {
    forall L | L in st.store :: QueueOf(st, L)
  }

  ghost predicate Queues(st: State) {
    Families(st.store, st.lastId) && QueuesFit(st) && HandedOut(st.handedOut, st.lastId)
  }

  // ---- Peers -------------------------------------------------------------------------

  ghost predicate Accepted(st: State, u: Id) {
    u in st.sockets && u in st.store && st.store[u].listener != 0
  }

  ghost predicate SameGroup(a: Socket, b: Socket) {
    a.peerAddr == b.peerAddr && KeyOf(a) == KeyOf(b)
  }

  /** The peer record covers every accepted open socket, and records nothing else. */
  ghost predicate PeerRecord(st: State) {
    && (forall u | Accepted(st, u) :: KeyOf(st.store[u]) in st.peerRec && u in st.peerRec[KeyOf(st.store[u])])
    && (forall k, u | k in st.peerRec && u in st.peerRec[k] ::
          u in st.store && st.store[u].listener != 0 && KeyOf(st.store[u]) == k)
    && (forall k | k in st.peerRec :: st.peerRec[k] != {})
  }

  /** An unbroken accepted socket has the smallest id of its group. */
  ghost predicate OneUnbroken(st: State) {
    forall a, b | Accepted(st, a) && Accepted(st, b) && SameGroup(st.store[a], st.store[b])
                  && !st.store[a].broken :: a <= b
  }

  // ---- Multiplexers ------------------------------------------------------------------

  /** The sockets, open or closed, that carry the multiplexer's id. */
  function Carriers(store: map<Id, Socket>, m: Id): set<Id> {
    set u | u in store && store[u].muxId == m
  }

  /** Every reference is that of a socket, or of a handshake rolled back. */
  ghost predicate Counted(store: map<Id, Socket>, muxes: map<Id, Mux>, rolledBack: multiset<Id>) {
    && (forall m | m in muxes ::
          muxes[m].refCount == |Carriers(store, m)| + rolledBack[m] && muxes[m].refCount > 0)
    && (forall m | m in rolledBack :: m in muxes)
  }

  /** The multiplexer a socket names is there; a socket without a status has none, nor owns one. */
  ghost predicate NamesMux(s: Socket, u: Id, muxes: map<Id, Mux>) {
    && (s.muxId == -1 || (s.muxId >= 0 && s.muxId in muxes))
    && (s.status == INIT ==> s.muxId == -1 && u !in muxes)
  }

  ghost predicate References(st: State) {
    && Counted(st.store, st.muxes, st.rolledBack)
    && (forall u | u in st.store :: NamesMux(st.store[u], u, st.muxes))
    && (forall m | m in st.muxes :: st.lastId <= m)
  }

  ghost predicate Invariant(st: State) {
    LifeCycle(st) && Queues(st) && PeerRecord(st) && OneUnbroken(st) && References(st)
  }

  lemma InvariantParts(st: State)
    requires Invariant(st)
    ensures LifeCycle(st) && Queues(st) && PeerRecord(st) && OneUnbroken(st) && References(st)
    ensures Families(st.store, st.lastId) && QueuesFit(st) && HandedOut(st.handedOut, st.lastId)
  {
  }

  lemma InvariantWhole(st: State)
    requires LifeCycle(st) && Queues(st) && PeerRecord(st) && OneUnbroken(st) && References(st)
    ensures Invariant(st)
  {
    hide LifeCycle, Queues, PeerRecord, OneUnbroken, References;
  }

  lemma InitialInvariant(seed: Id)
    requires seed > 0
    ensures Invariant(Initial(seed))
  {
  }

  // ---- Changing one socket -----------------------------------------------------------

  /** A change of a socket that leaves alone what the other sockets depend on. */
  ghost predicate Touch(s: Socket, t: Socket) {
    && t.listener == s.listener && t.peerId == s.peerId && t.isn == s.isn
    && (s.listener != 0 ==> t.peerAddr == s.peerAddr)
    && (s.broken ==> t.broken)
    && (s.status == CLOSED ==> t.status == CLOSED)
    && (t.status == CLOSED ==> s.status == CLOSED || t.broken)
    && (s.queued.Some? ==> t.queued.Some?)
  }

  /** The change leaves the multiplexer alone as well. */
  ghost predicate KeepsMux(s: Socket, t: Socket) {
    t.muxId == s.muxId && (t.status == INIT ==> s.status == INIT)
  }

  lemma TouchLifeCycle(st: State, u: Id, t: Socket)
    requires LifeCycle(st) && u in st.store && Touch(st.store[u], t)
    requires u in st.closed ==> t.status == CLOSED
    ensures LifeCycle(Put(st, u, t))
  {
    assert Put(st, u, t).store.Keys == st.store.Keys;
  }

  lemma TouchFamilies(store: map<Id, Socket>, lastId: Id, u: Id, t: Socket)
    requires Families(store, lastId) && u in store && Touch(store[u], t) && Role(t)
    ensures Families(store[u := t], lastId)
  {
    hide Role;
    var store' := store[u := t];
    forall x | x in store' ensures Kin(store', lastId, x) { assert Kin(store, lastId, x); }
  }

  lemma TouchQueuesFit(st: State, u: Id, t: Socket)
    requires QueuesFit(st) && u in st.store && t.listener == st.store[u].listener
    requires QueueOf(Put(st, u, t), u)
    ensures QueuesFit(Put(st, u, t))
  {
    var st' := Put(st, u, t);
    forall L | L in st'.store ensures QueueOf(st', L) {
      if L != u { assert QueueOf(st, L); }
    }
  }

  lemma TouchQueues(st: State, u: Id, t: Socket)
    requires Queues(st) && u in st.store && Touch(st.store[u], t) && Role(t)
    requires QueueOf(Put(st, u, t), u)
    ensures Queues(Put(st, u, t))
  {
    TouchFamilies(st.store, st.lastId, u, t);
    TouchQueuesFit(st, u, t);
    hide Families, QueuesFit, HandedOut;
  }

  /** A socket whose queues do not change keeps them in order. */
  lemma SameQueue(st: State, u: Id, t: Socket)
    requires u in st.store && QueueOf(st, u) && t.listener == st.store[u].listener
    requires t.queued == st.store[u].queued && t.accepted == st.store[u].accepted && t.backlog == st.store[u].backlog
    ensures QueueOf(Put(st, u, t), u)
  {
  }

  lemma TouchPeers(st: State, u: Id, t: Socket)
    requires PeerRecord(st) && OneUnbroken(st) && u in st.store && Touch(st.store[u], t)
    ensures PeerRecord(Put(st, u, t)) && OneUnbroken(Put(st, u, t))
  {
    var st' := Put(st, u, t);
    assert KeyOf(t) == KeyOf(st.store[u]);
    hide PeerKey;
    forall a | Accepted(st', a) ensures Accepted(st, a) { }
  }

  lemma SameCarriers(store: map<Id, Socket>, u: Id, t: Socket, m: Id)
    requires u in store && store[u].muxId == t.muxId
    ensures Carriers(store[u := t], m) == Carriers(store, m)
  {
  }

  lemma TouchReferences(st: State, u: Id, t: Socket)
    requires References(st) && u in st.store && KeepsMux(st.store[u], t)
    ensures References(Put(st, u, t))
  {
    forall m ensures Carriers(st.store[u := t], m) == Carriers(st.store, m) { SameCarriers(st.store, u, t, m); }
    hide Carriers;
  }

  /** Touching a socket keeps the invariant, provided its own queues are in order. */
  lemma TouchKeeps(st: State, u: Id, t: Socket)
    requires Invariant(st) && u in st.store && Touch(st.store[u], t) && KeepsMux(st.store[u], t) && Role(t)
    requires u in st.closed ==> t.status == CLOSED
    requires QueueOf(Put(st, u, t), u)
    ensures Invariant(Put(st, u, t))
  {
    hide LifeCycle, Queues, PeerRecord, OneUnbroken, References, QueueOf;
    TouchLifeCycle(st, u, t);
    TouchQueues(st, u, t);
    TouchPeers(st, u, t);
    TouchReferences(st, u, t);
  }

  /** The same for a socket that takes its first multiplexer: a share of one, or one of its own. */
  lemma GainKeeps(st: State, u: Id, t: Socket, muxes: map<Id, Mux>, m: Id)
    requires Invariant(st) && u in st.store && Touch(st.store[u], t) && Role(t)
    requires u in st.closed ==> t.status == CLOSED
    requires QueueOf(Put(st, u, t), u)
    requires st.store[u].muxId == -1 && t.muxId == m && t.status != INIT
    requires Gained(st, muxes, m) && (m in st.muxes || m == u)
    ensures Invariant(Put(st, u, t).(muxes := muxes))
  {
    hide QueueOf, Role;
    TouchLifeCycle(st, u, t);
    TouchQueues(st, u, t);
    TouchPeers(st, u, t);
    assert References(Put(st, u, t).(muxes := muxes)) by { GainReferences(st, u, t, muxes, m); }
    var st' := Put(st, u, t).(muxes := muxes);
    hide LifeCycle, PeerRecord, OneUnbroken, Queues, References;
    SameButMuxes(Put(st, u, t), muxes, st.rolledBack);
  }

  /** One more reference to the multiplexer m, which may be new. */
  ghost predicate Gained(st: State, muxes: map<Id, Mux>, m: Id) {
    && m in muxes && muxes.Keys == st.muxes.Keys + {m}
    && (forall x | x in st.muxes && x != m :: muxes[x] == st.muxes[x])
    && muxes[m].refCount == (if m in st.muxes then st.muxes[m].refCount else 0) + 1
  }

  lemma CarriersChange(store: map<Id, Socket>, u: Id, t: Socket, m: Id)
    requires u in store ==> store[u].muxId == -1 || store[u].muxId == t.muxId
    ensures var c := Carriers(store[u := t], m);
            && c == (if t.muxId == m then Carriers(store, m) + {u} else Carriers(store, m))
            && |c| == |Carriers(store, m)| + (if t.muxId == m && u !in Carriers(store, m) then 1 else 0)
  {
    var c := Carriers(store[u := t], m);
    assert c == if t.muxId == m then Carriers(store, m) + {u} else Carriers(store, m);
  }

  lemma NoCarriers(st: State, m: Id)
    requires References(st) && m !in st.muxes
    ensures Carriers(st.store, m) == {}
  {
  }

  lemma GainCounted(st: State, u: Id, t: Socket, muxes: map<Id, Mux>, m: Id)
    requires References(st) && u in st.store && st.store[u].muxId == -1 && t.muxId == m
    requires Gained(st, muxes, m)
    ensures Counted(st.store[u := t], muxes, st.rolledBack)
  {
    assert u !in Carriers(st.store, m);
    if m !in st.muxes { NoCarriers(st, m); }
    forall x | x in muxes
      ensures muxes[x].refCount == |Carriers(st.store[u := t], x)| + st.rolledBack[x] && muxes[x].refCount > 0
    {
      CarriersChange(st.store, u, t, x);
    }
  }

  lemma GainReferences(st: State, u: Id, t: Socket, muxes: map<Id, Mux>, m: Id)
    requires LifeCycle(st) && References(st) && u in st.store
    requires st.store[u].muxId == -1 && t.muxId == m && t.status != INIT
    requires Gained(st, muxes, m) && (m in st.muxes || m == u)
    ensures References(Put(st, u, t).(muxes := muxes))
  {
    GainCounted(st, u, t, muxes, m);
    hide Counted;
  }

  lemma SameButMuxes(st: State, muxes: map<Id, Mux>, rolledBack: multiset<Id>)
    ensures var st' := st.(muxes := muxes, rolledBack := rolledBack);
            && (LifeCycle(st) ==> LifeCycle(st')) && (Queues(st) ==> Queues(st'))
            && (PeerRecord(st) && OneUnbroken(st) ==> PeerRecord(st') && OneUnbroken(st'))
  {
    var st' := st.(muxes := muxes, rolledBack := rolledBack);
    if Queues(st) {
      forall L | L in st'.store ensures QueueOf(st', L) { assert QueueOf(st, L); }
      hide Families, HandedOut, QueueOf;
    }
    if PeerRecord(st) && OneUnbroken(st) {
      forall a | Accepted(st', a) ensures Accepted(st, a) { }
    }
  }
}
