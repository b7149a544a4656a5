/** What a handshake that fails too late costs, and for how long. */
module UdtLosses {
  import opened Ordered
  import opened UdtState
  import opened UdtInvariant
  import opened UdtTheorems

  /** The handshake finds no connection that stands and room in the backlog, takes an id and a
      reference, and then fails in CUDT::connect. */
  predicate RollsBack(st: State, e: Event) {
    e.EHandshake? && !e.connected && Located(st, e.u) &&
    match LocatePeer(st, e.peer, PeerKey(e.peerId, e.isn))
    case None => HasRoom(st.store[e.u])
    case Some(prior) => st.store[prior].broken && HasRoom(Replace(st, e.u, prior).store[e.u])
  }

  predicate HasRoom(listener: Socket) { QueueLength(listener) < listener.backlog }

  /** The multiplexer whose reference such a handshake has taken: the first on the listener's port. */
  function Stray(st: State, e: Event): Option<Id> {
    if !RollsBack(st, e) || OnPort(st.muxes, st.store[e.u].selfPort) == {} then None
    else Some(Least(OnPort(st.muxes, st.store[e.u].selfPort)))
  }

  function Strays(m: Option<Id>): multiset<Id> {
    match m
    case None => multiset{}
    case Some(x) => multiset{x}
  }

  /** Some handshake of the run was rolled back. */
  predicate LosesOne(seed: Id, es: seq<Event>)
    decreases |es|
  {
    es != [] &&
    var init, last := es[..|es| - 1], es[|es| - 1];
    LosesOne(seed, init) || (Run(Initial(seed), init).Some? && RollsBack(Run(Initial(seed), init).value, last))
  }

  /** Some handshake of the run was rolled back after it had taken a reference to m. */
  predicate Strayed(seed: Id, es: seq<Event>, m: Id)
    decreases |es|
  {
    es != [] &&
    var init, last := es[..|es| - 1], es[|es| - 1];
    Strayed(seed, init, m) || (Run(Initial(seed), init).Some? && Stray(Run(Initial(seed), init).value, last) == Some(m))
  }

  // ---- One step ----------------------------------------------------------------------

  /** What one handshake leaves behind. */
  ghost predicate Costs(st: State, st': State, rolls: bool, m: Option<Id>) {
    && (rolls ==> st'.lastId == st.lastId - 1 && st'.store.Keys == st.store.Keys && st'.freed == st.freed)
    && (!rolls ==> st'.lastId == st.lastId || (st'.lastId == st.lastId - 1 && st'.lastId in st'.store))
    && st'.rolledBack == st.rolledBack + Strays(m)
  }

  lemma EstablishCosts(st: State, listen: Id, peer: Address, peerId: int, isn: int, connected: bool)
    requires listen in st.store && st.lastId > 1
    ensures var rolls := !connected && HasRoom(st.store[listen]);
            var on := OnPort(st.muxes, st.store[listen].selfPort);
            Costs(st, Establish(st, listen, peer, peerId, isn, connected).0, rolls,
                  if rolls && on != {} then Some(Least(on)) else None)
  {
    hide Record, PeerKey, OnPort;
  }

  lemma HandshakeCosts(st: State, e: Event)
    requires Enabled(st, e) && e.EHandshake?
    ensures Costs(st, Apply(st, e), RollsBack(st, e), Stray(st, e))
  {
    hide Establish, LocatePeer, PeerKey, OnPort, Replace, HasRoom;
    if Located(st, e.u) {
      PriorIsOpen(st, e.peer, PeerKey(e.peerId, e.isn));
      match LocatePeer(st, e.peer, PeerKey(e.peerId, e.isn))
      case None => EstablishCosts(st, e.u, e.peer, e.peerId, e.isn, e.connected);
      case Some(prior) =>
        if st.store[prior].broken {
          GivesWay(st, e.u, prior);
          EstablishCosts(Replace(st, e.u, prior), e.u, e.peer, e.peerId, e.isn, e.connected);
        }
    }
  }

  lemma OtherCosts(st: State, e: Event)
    requires Enabled(st, e) && !e.EHandshake?
    ensures Costs(st, Apply(st, e), false, None)
  {
    hide Least, Shareable, CloseAll, RemoveSocket;
    match e
    case EShutdown => CloseAllCosts(st, st.sockets, true);
    case ECollect(keep, reap) =>
      CloseAllCosts(st, Broken(st, keep), false);
      var st1 := CloseAll(st, Broken(st, keep), false);
      RemoveAllCosts(st1, Ascending(reap * st1.closed));
    case _ =>
  }

  lemma CloseAllCosts(st: State, gone: set<Id>, breaking: bool)
    ensures var r := CloseAll(st, gone, breaking); r.lastId == st.lastId && r.rolledBack == st.rolledBack
  {
  }

  lemma {:induction false} RemoveAllCosts(st: State, us: seq<Id>)
    ensures RemoveAll(st, us).lastId == st.lastId && RemoveAll(st, us).rolledBack == st.rolledBack
    decreases |us|
  {
    if us != [] { RemoveAllCosts(RemoveSocket(st, us[0]), us[1..]); }
  }

  lemma StepCosts(st: State, e: Event)
    requires Enabled(st, e)
    ensures Costs(st, Apply(st, e), RollsBack(st, e), Stray(st, e))
  {
    hide Costs, Apply;
    if e.EHandshake? { HandshakeCosts(st, e); } else { OtherCosts(st, e); }
  }

  // ---- References --------------------------------------------------------------------

  /** What is recorded of rolled-back handshakes is what the run has rolled back. */
  lemma {:induction false} StrayedIsRecorded(seed: Id, es: seq<Event>, m: Id)
    requires Run(Initial(seed), es).Some?
    ensures Run(Initial(seed), es).value.rolledBack[m] > 0 <==> Strayed(seed, es, m)
    decreases |es|
  {
    hide Apply, Enabled, Stray;
    if es != [] {
      var init, last := es[..|es| - 1], es[|es| - 1];
      var mid := Run(Initial(seed), init).value;
      StrayedIsRecorded(seed, init, m);
      StepCosts(mid, last);
    }
  }

  /** In every reachable state a multiplexer counts exactly the sockets that carry it if and only if
      no handshake of the run was rolled back with a reference to it. */
  lemma ReferencesExact(seed: Id, es: seq<Event>, st: State, m: Id)
    requires seed > 0 && Run(Initial(seed), es) == Some(st) && m in st.muxes
    ensures st.muxes[m].refCount == |Carriers(st.store, m)| <==> !Strayed(seed, es, m)
  {
    RunKeeps(seed, es);
    StrayedIsRecorded(seed, es, m);
    hide Carriers, Run, Strayed;
  }

  // ---- Objects -----------------------------------------------------------------------

  /** The id was given out, and its object is neither there nor deleted. */
  predicate Lost(st: State, u: Id) { st.lastId <= u && u !in st.store && u !in st.freed }

  /** Every id given out since the seed belongs to a live object or to a deleted one. */
  ghost predicate Accounted(st: State, seed: Id) {
    forall u: Id | u < seed :: !Lost(st, u)
  }

  lemma StaysLost(st: State, e: Event, u: Id)
    requires Invariant(st) && Enabled(st, e) && Lost(st, u)
    ensures Lost(Apply(st, e), u)
  {
    hide Apply, Enabled, Invariant;
    StepLater(st, e);
    InvariantLife(st);
    if u in Apply(st, e).freed { OnlyClosedAreFreed(st, e, u); }
  }

  lemma IsLost(st: State, e: Event)
    requires Invariant(st) && Enabled(st, e) && RollsBack(st, e)
    ensures Lost(Apply(st, e), st.lastId - 1) && Apply(st, e).lastId == st.lastId - 1
  {
    hide Apply, Enabled, Invariant, RollsBack;
    StepCosts(st, e);
    InvariantLife(st);
  }

  lemma StaysAccounted(st: State, e: Event, seed: Id)
    requires Invariant(st) && Enabled(st, e) && !RollsBack(st, e) && Accounted(st, seed)
    ensures Accounted(Apply(st, e), seed)
  {
    hide Apply, Enabled, Invariant, RollsBack;
    StepCosts(st, e);
    StepLater(st, e);
    var st' := Apply(st, e);
    forall u: Id | u < seed ensures !Lost(st', u) {
      assert !Lost(st, u);
      if u in st.store { assert Since(st, st', u); } else if u in st.freed { FreedStays(st, st', u); }
    }
  }

  lemma FreedStays(st: State, st': State, u: Id)
    requires Later(st, st') && u in st.freed
    ensures u in st'.freed
  {
    var i :| 0 <= i < |st.freed| && st.freed[i] == u;
    assert st'.freed[i] == u;
  }

  /** Every object the run has made is live or deleted if and only if no handshake of the run was
      rolled back. */
  lemma {:induction false} NothingLost(seed: Id, es: seq<Event>, st: State)
    requires seed > 0 && Run(Initial(seed), es) == Some(st)
    ensures st.lastId <= seed && (Accounted(st, seed) <==> !LosesOne(seed, es))
    decreases |es|
  {
    hide Apply, Enabled, Invariant, RollsBack;
    if es != [] {
      var init, last := es[..|es| - 1], es[|es| - 1];
      var mid := Run(Initial(seed), init).value;
      RunKeeps(seed, init);
      NothingLost(seed, init, mid);
      StepLater(mid, last);
      if LosesOne(seed, init) {
        var u: Id :| u < seed && Lost(mid, u);
        StaysLost(mid, last, u);
      } else if RollsBack(mid, last) {
        IsLost(mid, last);
        InvariantLife(mid);
      } else {
        StaysAccounted(mid, last, seed);
      }
    }
  }

  // ---- For good ----------------------------------------------------------------------

  lemma {:induction false} LostForGood(seed: Id, es: seq<Event>, more: seq<Event>, u: Id)
    requires seed > 0 && Run(Initial(seed), es + more).Some? && Run(Initial(seed), es).Some?
    requires Lost(Run(Initial(seed), es).value, u)
    ensures Lost(Run(Initial(seed), es + more).value, u)
    decreases |more|
  {
    hide Apply, Enabled, Invariant, Lost;
    if more == [] {
      assert es + more == es;
    } else {
      var last := |more| - 1;
      assert (es + more)[..|es + more| - 1] == es + more[..last];
      LostForGood(seed, es, more[..last], u);
      RunKeeps(seed, es + more[..last]);
      StaysLost(Run(Initial(seed), es + more[..last]).value, more[last], u);
    }
  }

  lemma {:induction false} StrayedForGood(seed: Id, es: seq<Event>, more: seq<Event>, m: Id)
    requires Strayed(seed, es, m)
    ensures Strayed(seed, es + more, m)
    decreases |more|
  {
    hide Stray, Run;
    if more == [] {
      assert es + more == es;
    } else {
      var last := |more| - 1;
      assert (es + more)[..|es + more| - 1] == es + more[..last];
      StrayedForGood(seed, es, more[..last], m);
    }
  }

  /** Whatever follows a handshake that was rolled back: its object is never there and never
      deleted, and the multiplexer it had a reference to is never given up, though it counts more
      than the sockets that carry it. */
  lemma RolledBackForGood(seed: Id, es: seq<Event>, more: seq<Event>, st: State, e: Event, st': State)
    requires seed > 0 && Run(Initial(seed), es) == Some(st) && Enabled(st, e) && RollsBack(st, e)
    requires Run(Initial(seed), es + [e] + more) == Some(st')
    ensures st.lastId > 0 && st.lastId - 1 !in st'.store && st.lastId - 1 !in st'.freed
    ensures var m := Stray(st, e);
            m.Some? ==> m.value in st'.muxes && st'.muxes[m.value].refCount > |Carriers(st'.store, m.value)|
  {
    hide Apply, Enabled, Invariant, RollsBack, Stray;
    RunKeeps(seed, es);
    assert (es + [e])[..|es + [e]| - 1] == es;
    IsLost(st, e);
    LostForGood(seed, es + [e], more, st.lastId - 1);
    var m := Stray(st, e);
    if m.Some? {
      assert Strayed(seed, es + [e], m.value);
      StrayedForGood(seed, es + [e], more, m.value);
      StrayedCounts(seed, es + [e] + more, st', m.value);
    }
  }

  lemma StrayedCounts(seed: Id, es: seq<Event>, st: State, m: Id)
    requires seed > 0 && Run(Initial(seed), es) == Some(st) && Strayed(seed, es, m)
    ensures m in st.muxes && st.muxes[m].refCount > |Carriers(st.store, m)|
  {
    StrayedIsRecorded(seed, es, m);
    RunKeeps(seed, es);
    hide Carriers, Run, Strayed;
    assert m in st.rolledBack;
  }
}
