/** The queues of the listeners over whole runs: what removal finds in them, and what accept gets. */
module UdtQueues {
  import opened Ordered
  import opened UdtState
  import opened UdtInvariant
  import opened UdtSteps
  import opened UdtCollect
  import opened UdtTheorems

  // ---- Removing a listener -----------------------------------------------------------

  /** The state of a collection after the first k of the sockets to delete are gone. */
  function Midway(st: State, keep: set<Id>, us: seq<Id>, k: nat): State
    requires k <= |us|
  {
    RemoveAll(CloseAll(st, Broken(st, keep), false), us[..k])
  }

  /** In the midst of any collection on any reachable state: whatever socket comes next, all that is
      left in its queue is open, so that removing it finds every socket it has to close. */
  lemma QueuedAreFound(seed: Id, es: seq<Event>, st: State, keep: set<Id>, us: seq<Id>, k: nat)
    requires seed > 0 && Run(Initial(seed), es) == Some(st) && k < |us|
    ensures var mid := Midway(st, keep, us, k);
            us[k] in mid.store ==> QueueSet(mid.store[us[k]]) <= mid.sockets
  {
    RunKeeps(seed, es);
    CloseAllKeeps(st, Broken(st, keep), false);
    RemoveAllKeeps(CloseAll(st, Broken(st, keep), false), us[..k]);
    hide Invariant, CloseAll, RemoveAll, Run;
    var mid := Midway(st, keep, us, k);
    if us[k] in mid.store {
      AboutSocket(mid, us[k]);
      QueuedAreOpen(mid, us[k]);
    }
  }

  // ---- Replaced connections ----------------------------------------------------------

  /** The handshake finds the broken connection u of its peer, and marks it CLOSED. */
  predicate Replaces(st: State, e: Event, u: Id) {
    && e.EHandshake? && Located(st, e.u)
    && LocatePeer(st, e.peer, PeerKey(e.peerId, e.isn)) == Some(u) && u in st.store && st.store[u].broken
  }

  /** Some handshake of the run, at the listener L if one is given, has replaced u. */
  predicate Replaced(seed: Id, es: seq<Event>, u: Id, L: Option<Id>)
    decreases |es|
  {
    es != [] &&
    var init, last := es[..|es| - 1], es[|es| - 1];
    Replaced(seed, init, u, L) ||
    (Run(Initial(seed), init).Some? && Replaces(Run(Initial(seed), init).value, last, u)
     && (L.None? || L.value == last.u))
  }

  /** Of the open sockets, a step marks CLOSED only one that a handshake replaces. */
  ghost predicate Marks(st: State, st': State, e: Event, u: Id) {
    u in st'.sockets && u in st'.store ==>
      if u in st.sockets && u in st.store
      then st'.store[u].status == CLOSED <==> st.store[u].status == CLOSED || Replaces(st, e, u)
      else u < st.lastId && st'.store[u].status != CLOSED
  }

  lemma EstablishMarks(st: State, listen: Id, peer: Address, peerId: int, isn: int, connected: bool, u: Id)
    requires listen in st.store && st.lastId > 1
    requires st.store.Keys == st.sockets + st.closed && st.lastId - 1 !in st.store
    ensures var st' := Establish(st, listen, peer, peerId, isn, connected).0;
            u in st'.sockets && u in st'.store ==>
              if u in st.sockets && u in st.store then st'.store[u].status == st.store[u].status
              else u < st.lastId && st'.store[u].status != CLOSED
  {
    hide Record, PeerKey, PortOf, Arrive;
    ArriveOnly(st, listen, peer, peerId, isn);
  }

  lemma HandshakeMarks(st: State, e: Event, u: Id)
    requires Invariant(st) && Enabled(st, e) && e.EHandshake?
    ensures Marks(st, Apply(st, e), e, u)
  {
    InvariantLife(st);
    FreshId(st);
    hide Invariant, LifeCycle, Establish, Replace, LocatePeer, PeerKey;
    if Located(st, e.u) {
      PriorIsOpen(st, e.peer, PeerKey(e.peerId, e.isn));
      var prior := LocatePeer(st, e.peer, PeerKey(e.peerId, e.isn));
      if prior.None? {
        EstablishMarks(st, e.u, e.peer, e.peerId, e.isn, e.connected, u);
      } else if st.store[prior.value].broken {
        ReplacingMarks(st, prior.value, e, u);
      }
    }
  }

  lemma ReplacingMarks(st: State, prior: Id, e: Event, u: Id)
    requires LifeCycle(st) && e.EHandshake? && e.u in st.store && prior in st.store && st.lastId > 1
    ensures e.u in Replace(st, e.u, prior).store
    ensures var st' := Establish(Replace(st, e.u, prior), e.u, e.peer, e.peerId, e.isn, e.connected).0;
            u in st'.sockets && u in st'.store ==>
              if u in st.sockets && u in st.store
              then st'.store[u].status == CLOSED <==> st.store[u].status == CLOSED || u == prior
              else u < st.lastId && st'.store[u].status != CLOSED
  {
    FreshId(st);
    hide LifeCycle, Establish, Replace;
    GivesWay(st, e.u, prior);
    EstablishMarks(Replace(st, e.u, prior), e.u, e.peer, e.peerId, e.isn, e.connected, u);
  }

  lemma FreshId(st: State)
    requires LifeCycle(st)
    ensures st.store.Keys == st.sockets + st.closed && st.lastId > 0 && st.lastId - 1 !in st.store
  {
  }

  lemma {:induction false} RemoveAllMarks(st: State, us: seq<Id>, u: Id)
    ensures var r := RemoveAll(st, us);
            u in r.sockets && u in r.store ==>
              u in st.sockets && u in st.store && r.store[u].status == st.store[u].status
    decreases |us|
  {
    if us != [] {
      RemoveMarks(st, us[0], u);
      hide RemoveSocket;
      RemoveAllMarks(RemoveSocket(st, us[0]), us[1..], u);
    }
  }

  lemma RemoveMarks(st: State, x: Id, u: Id)
    ensures var r := RemoveSocket(st, x);
            u in r.sockets && u in r.store ==>
              u in st.sockets && u in st.store && r.store[u].status == st.store[u].status
  {
    hide Unrecord, Release;
  }

  lemma CloseAllMarks(st: State, gone: set<Id>, breaking: bool, u: Id)
    ensures var r := CloseAll(st, gone, breaking);
            u in r.sockets && u in r.store ==>
              u in st.sockets && u in st.store && r.store[u].status == st.store[u].status
  {
    hide Children;
  }

  lemma OtherMarks(st: State, e: Event, u: Id)
    requires LifeCycle(st) && Enabled(st, e) && !e.EHandshake?
    ensures Marks(st, Apply(st, e), e, u)
  {
    hide Least, CloseAll, RemoveAll, Bind, Connect, NewConnection;
    match e
    case EShutdown => CloseAllMarks(st, st.sockets, true, u);
    case ECollect(keep, reap) =>
      CloseAllMarks(st, Broken(st, keep), false, u);
      var st1 := CloseAll(st, Broken(st, keep), false);
      RemoveAllMarks(st1, Ascending(reap * st1.closed), u);
    case EBind(x, port, channel) => BindMarks(st, x, port, channel, u);
    case EConnect(x, peer, channel, attempt) => ConnectMarks(st, x, peer, channel, attempt, u);
    case _ =>
  }

  /** updateMux changes no status and no queue. */
  lemma MuxOnly(st: State, x: Id, port: Option<int>, channel: Option<int>)
    requires x in st.store
    ensures var r := UpdateMux(st, x, port, channel);
            r.Some? ==> r.value.sockets == st.sockets && r.value.store.Keys == st.store.Keys
                        && forall u | u in st.store :: r.value.store[u] == st.store[u].(muxId := r.value.store[u].muxId)
  {
    hide Shareable, Least;
  }

  lemma BindMarks(st: State, x: Id, port: int, channel: Option<int>, u: Id)
    requires LifeCycle(st)
    ensures var r := Bind(st, x, port, channel);
            && r.sockets == st.sockets && r.store.Keys == st.store.Keys
            && (u in st.store ==> (r.store[u].status == CLOSED <==> st.store[u].status == CLOSED))
  {
    hide UpdateMux, LifeCycle;
    if Located(st, x) { MuxOnly(st, x, Some(port), channel); }
  }

  lemma ConnectMarks(st: State, x: Id, peer: Address, channel: Option<int>, attempt: Attempt, u: Id)
    requires LifeCycle(st)
    ensures var r := Connect(st, x, peer, channel, attempt);
            && r.sockets == st.sockets && r.store.Keys == st.store.Keys
            && (u in st.store ==> (r.store[u].status == CLOSED <==> st.store[u].status == CLOSED))
  {
    hide UpdateMux, LifeCycle;
    if Located(st, x) { MuxOnly(st, x, None, channel); }
  }

  lemma StepMarks(st: State, e: Event, u: Id)
    requires Invariant(st) && Enabled(st, e)
    ensures Marks(st, Apply(st, e), e, u)
  {
    InvariantLife(st);
    hide Invariant, Marks, Apply;
    if e.EHandshake? { HandshakeMarks(st, e, u); } else { OtherMarks(st, e, u); }
  }

  /** An open socket is CLOSED if and only if some handshake of the run has replaced it. */
  lemma {:induction false} ClosedExactly(seed: Id, es: seq<Event>, st: State, u: Id)
    requires seed > 0 && Run(Initial(seed), es) == Some(st)
    ensures u in st.sockets ==> u in st.store && (st.store[u].status == CLOSED <==> Replaced(seed, es, u, None))
    ensures Replaced(seed, es, u, None) ==> u >= st.lastId
    decreases |es|
  {
    RunKeeps(seed, es);
    InvariantLife(st);
    hide Apply, Enabled, Invariant, Replaces;
    if es != [] {
      var init, last := es[..|es| - 1], es[|es| - 1];
      var mid := Run(Initial(seed), init).value;
      RunKeeps(seed, init);
      InvariantLife(mid);
      ClosedExactly(seed, init, mid, u);
      StepMarks(mid, last, u);
      StepLater(mid, last);
      OnlyOpenReplaced(mid, last, u);
    }
  }

  lemma OnlyOpenReplaced(st: State, e: Event, u: Id)
    ensures Replaces(st, e, u) ==> u in st.store && u in st.sockets
  {
    hide Least;
  }

  // ---- Queues only grow by new ids ---------------------------------------------------

  predicate Queued(st: State, L: Id, u: Id) {
    L in st.store && u in QueueSet(st.store[L])
  }

  lemma ArriveQueues(st: State, listen: Id, peer: Address, peerId: int, isn: int, L: Id)
    requires listen in st.store && st.lastId > 1
    ensures var r := Arrive(st, listen, peer, peerId, isn);
            && r.store.Keys == st.store.Keys + {st.lastId - 1} && r.store[st.lastId - 1].queued == None
            && (L in st.store && L != st.lastId - 1 ==> r.store[L].queued == st.store[L].queued)
  {
    hide OnPort, Least;
  }

  lemma EstablishQueues(st: State, listen: Id, peer: Address, peerId: int, isn: int, connected: bool, L: Id, u: Id)
    requires listen in st.store && st.lastId > 1 && u >= st.lastId && st.lastId - 1 !in st.store
    ensures Queued(Establish(st, listen, peer, peerId, isn, connected).0, L, u) ==> Queued(st, L, u)
  {
    hide Record, PeerKey, Arrive;
    ArriveQueues(st, listen, peer, peerId, isn, L);
    ArriveQueues(st, listen, peer, peerId, isn, listen);
  }

  lemma ReplaceQueues(st: State, listen: Id, prior: Id, L: Id, u: Id)
    requires listen in st.store && prior in st.store
    ensures var r := Replace(st, listen, prior);
            Queued(r, L, u) ==> Queued(st, L, u) && !(L == listen && u == prior)
  {
  }

  lemma HandshakeQueues(st: State, e: Event, L: Id, u: Id)
    requires Invariant(st) && Enabled(st, e) && e.EHandshake? && u >= st.lastId
    ensures Queued(Apply(st, e), L, u) ==> Queued(st, L, u) && !(Replaces(st, e, u) && e.u == L)
  {
    InvariantLife(st);
    FreshId(st);
    hide Invariant, LifeCycle, Establish, Replace, LocatePeer, PeerKey, Queued;
    if Located(st, e.u) {
      PriorIsOpen(st, e.peer, PeerKey(e.peerId, e.isn));
      match LocatePeer(st, e.peer, PeerKey(e.peerId, e.isn))
      case None => EstablishQueues(st, e.u, e.peer, e.peerId, e.isn, e.connected, L, u);
      case Some(prior) =>
        if st.store[prior].broken {
          ReplaceQueues(st, e.u, prior, L, u);
          GivesWay(st, e.u, prior);
          EstablishQueues(Replace(st, e.u, prior), e.u, e.peer, e.peerId, e.isn, e.connected, L, u);
        }
    }
  }

  lemma {:induction false} RemoveAllQueues(st: State, us: seq<Id>, L: Id, u: Id)
    ensures Queued(RemoveAll(st, us), L, u) ==> Queued(st, L, u)
    decreases |us|
  {
    if us != [] {
      RemoveQueues(st, us[0], L, u);
      hide RemoveSocket, Queued;
      RemoveAllQueues(RemoveSocket(st, us[0]), us[1..], L, u);
    }
  }

  lemma RemoveQueues(st: State, x: Id, L: Id, u: Id)
    ensures Queued(RemoveSocket(st, x), L, u) ==> Queued(st, L, u)
  {
    hide Unrecord, Release;
  }

  lemma CloseAllQueues(st: State, gone: set<Id>, breaking: bool, L: Id, u: Id)
    ensures Queued(CloseAll(st, gone, breaking), L, u) ==> Queued(st, L, u)
  {
    hide Children;
  }

  lemma OtherQueues(st: State, e: Event, L: Id, u: Id)
    requires Enabled(st, e) && !e.EHandshake?
    ensures Queued(Apply(st, e), L, u) ==> Queued(st, L, u)
  {
    hide Least, CloseAll, RemoveAll, Bind, Connect, NewConnection;
    match e
    case EShutdown => CloseAllQueues(st, st.sockets, true, L, u);
    case ECollect(keep, reap) =>
      CloseAllQueues(st, Broken(st, keep), false, L, u);
      var st1 := CloseAll(st, Broken(st, keep), false);
      RemoveAllQueues(st1, Ascending(reap * st1.closed), L, u);
    case EBind(x, port, channel) => BindQueues(st, x, port, channel, L, u);
    case EConnect(x, peer, channel, attempt) => ConnectQueues(st, x, peer, channel, attempt, L, u);
    case _ =>
  }

  lemma BindQueues(st: State, x: Id, port: int, channel: Option<int>, L: Id, u: Id)
    ensures Queued(Bind(st, x, port, channel), L, u) ==> Queued(st, L, u)
  {
    hide UpdateMux;
    if Located(st, x) { MuxOnly(st, x, Some(port), channel); }
  }

  lemma ConnectQueues(st: State, x: Id, peer: Address, channel: Option<int>, attempt: Attempt, L: Id, u: Id)
    ensures Queued(Connect(st, x, peer, channel, attempt), L, u) ==> Queued(st, L, u)
  {
    hide UpdateMux;
    if Located(st, x) { MuxOnly(st, x, None, channel); }
  }

  /** What a handshake at a listener has replaced is never again in that listener's queue. */
  lemma {:induction false} ReplacedHereIsGone(seed: Id, es: seq<Event>, st: State, u: Id, L: Id)
    requires seed > 0 && Run(Initial(seed), es) == Some(st) && Replaced(seed, es, u, Some(L))
    ensures !Queued(st, L, u) && u >= st.lastId
    decreases |es|
  {
    RunKeeps(seed, es);
    hide Apply, Enabled, Invariant, Replaces, Queued;
    var init, last := es[..|es| - 1], es[|es| - 1];
    var mid := Run(Initial(seed), init).value;
    RunKeeps(seed, init);
    InvariantLife(mid);
    StepLater(mid, last);
    if Replaced(seed, init, u, Some(L)) {
      ReplacedHereIsGone(seed, init, mid, u, L);
    }
    OnlyOpenReplaced(mid, last, u);
    if last.EHandshake? { HandshakeQueues(mid, last, L, u); } else {
      NotReplaced(mid, last, u);
      OtherQueues(mid, last, L, u);
    }
  }

  lemma NotReplaced(st: State, e: Event, u: Id)
    requires !e.EHandshake?
    ensures !Replaces(st, e, u)
  {
  }

  // ---- What accept hands out ---------------------------------------------------------

  /** accept looks the socket up that it takes from the queue. It finds it if and only if no
      handshake of the run has replaced it; and such a handshake was never one at this listener. */
  lemma AcceptedIsLocated(seed: Id, es: seq<Event>, st: State, L: Id)
    requires seed > 0 && Run(Initial(seed), es) == Some(st) && Accept(st, L).1.Some?
    ensures var u := Accept(st, L).1.value;
            && (Located(Accept(st, L).0, u) <==> !Replaced(seed, es, u, None))
            && !Replaced(seed, es, u, Some(L))
  {
    var u := Accept(st, L).1.value;
    AcceptIsFresh(seed, es, st, L);
    ClosedExactly(seed, es, st, u);
    hide Run, Replaced;
    if Replaced(seed, es, u, Some(L)) { ReplacedHereIsGone(seed, es, st, u, L); }
  }
}
