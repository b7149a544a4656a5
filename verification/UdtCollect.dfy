/** The garbage collector and the shutdown keep the invariant, and finish their work. */
module UdtCollect {
  import opened Ordered
  import opened UdtState
  import opened UdtInvariant
  import opened UdtSteps

  // ---- Closing many sockets ----------------------------------------------------------

  lemma CloseAllKeys(st: State, gone: set<Id>, breaking: bool)
    ensures CloseAll(st, gone, breaking).store.Keys == st.store.Keys
  {
  }

  lemma CloseAllLifeCycle(st: State, gone: set<Id>, breaking: bool)
    requires LifeCycle(st) && gone <= st.sockets
    requires forall u | u in gone :: breaking || st.store[u].broken
    ensures LifeCycle(CloseAll(st, gone, breaking))
  {
    hide Children;
    CloseAllKeys(st, gone, breaking);
  }

  lemma ClosedRole(st: State, gone: set<Id>, breaking: bool, u: Id)
    requires u in st.store && Role(st.store[u])
    ensures var s, t := st.store[u], ClosedSocket(st, gone, breaking, u);
            Role(t) && t.listener == s.listener && t.queued.Some? == s.queued.Some?
  {
    hide Children;
  }

  lemma CloseAllFamilies(st: State, gone: set<Id>, breaking: bool)
    requires Families(st.store, st.lastId)
    ensures Families(CloseAll(st, gone, breaking).store, st.lastId)
  {
    hide Children, Role, ClosedSocket;
    var st' := CloseAll(st, gone, breaking);
    CloseAllKeys(st, gone, breaking);
    forall u | u in st'.store ensures Kin(st'.store, st.lastId, u) {
      assert Kin(st.store, st.lastId, u);
      ClosedRole(st, gone, breaking, u);
      var L := st.store[u].listener;
      if L in st.store {
        assert Kin(st.store, st.lastId, L);
        ClosedRole(st, gone, breaking, L);
      }
    }
  }

  lemma CloseAllQueuesFit(st: State, gone: set<Id>, breaking: bool)
    requires QueuesFit(st)
    ensures QueuesFit(CloseAll(st, gone, breaking))
  {
    var st' := CloseAll(st, gone, breaking);
    CloseAllKeys(st, gone, breaking);
    forall L | L in st'.store ensures QueueOf(st', L) { CloseAllQueueOf(st, gone, breaking, L); }
  }

  lemma CloseAllQueueOf(st: State, gone: set<Id>, breaking: bool, L: Id)
    requires L in st.store && QueueOf(st, L)
    ensures QueueOf(CloseAll(st, gone, breaking), L)
  {
    if st.store[L].queued.Some? {
      var q, kids := st.store[L].queued.value, Children(st, gone, L);
      assert |q - kids| <= |q|;
    }
  }

  lemma CloseAllPeers(st: State, gone: set<Id>, breaking: bool)
    requires PeerRecord(st) && OneUnbroken(st)
    ensures PeerRecord(CloseAll(st, gone, breaking)) && OneUnbroken(CloseAll(st, gone, breaking))
  {
    hide PeerKey, Children;
    var st' := CloseAll(st, gone, breaking);
    CloseAllKeys(st, gone, breaking);
    forall a | a in st'.store ensures KeyOf(st'.store[a]) == KeyOf(st.store[a]) { }
    forall a | Accepted(st', a) ensures Accepted(st, a) { }
  }

  lemma CloseAllMux(st: State, gone: set<Id>, breaking: bool)
    ensures var r := CloseAll(st, gone, breaking);
            && r.store.Keys == st.store.Keys && r.muxes == st.muxes
            && r.rolledBack == st.rolledBack && r.lastId == st.lastId
            && forall u | u in st.store :: r.store[u].muxId == st.store[u].muxId
                                          && (r.store[u].status == INIT ==> st.store[u].status == INIT)
  {
    hide Children, Without;
    CloseAllKeys(st, gone, breaking);
  }

  lemma CloseAllReferences(st: State, gone: set<Id>, breaking: bool)
    requires References(st)
    ensures References(CloseAll(st, gone, breaking))
  {
    hide CloseAll;
    var st' := CloseAll(st, gone, breaking);
    CloseAllMux(st, gone, breaking);
    forall m ensures Carriers(st'.store, m) == Carriers(st.store, m) { }
    hide Carriers;
    forall u | u in st'.store ensures NamesMux(st'.store[u], u, st'.muxes) {
      assert NamesMux(st.store[u], u, st.muxes);
    }
  }

  lemma CloseAllKeeps(st: State, gone: set<Id>, breaking: bool)
    requires Invariant(st) && gone <= st.sockets
    requires forall u | u in gone :: breaking || st.store[u].broken
    ensures Invariant(CloseAll(st, gone, breaking))
  {
    CloseAllLifeCycle(st, gone, breaking);
    CloseAllFamilies(st, gone, breaking);
    CloseAllQueuesFit(st, gone, breaking);
    CloseAllPeers(st, gone, breaking);
    CloseAllReferences(st, gone, breaking);
    hide LifeCycle, Families, QueuesFit, PeerRecord, OneUnbroken, References, HandedOut;
  }

  // ---- Deleting a socket -------------------------------------------------------------

  /** What a listener still has queued when it is deleted: open connections of its own. */
  function QueueSet(s: Socket): set<Id> {
    if s.queued.Some? then s.queued.value else {}
  }

  lemma QueuedAreOpen(st: State, u: Id)
    requires u in st.store && QueueOf(st, u) && Role(st.store[u])
    ensures forall q | q in QueueSet(st.store[u]) :: q in st.sockets && q in st.store && st.store[q].listener == u
  {
  }

  lemma RemoveLifeCycle(st: State, u: Id)
    requires LifeCycle(st) && u in st.closed && QueueSet(st.store[u]) <= st.sockets
    ensures LifeCycle(RemoveSocket(st, u))
  {
    hide Unrecord, Release;
    var st' := RemoveSocket(st, u);
    assert st'.store.Keys == st.store.Keys - {u};
  }

  lemma RemoveFamilies(st: State, u: Id)
    requires Families(st.store, st.lastId) && u in st.store && u in st.closed
    requires forall q | q in QueueSet(st.store[u]) :: q in st.store && st.store[q].listener == u
    ensures Families(RemoveSocket(st, u).store, st.lastId)
  {
    hide Unrecord, Release;
    var st' := RemoveSocket(st, u);
    assert st'.store.Keys == st.store.Keys - {u};
    forall x | x in st'.store ensures Kin(st'.store, st.lastId, x) { assert Kin(st.store, st.lastId, x); }
  }

  lemma RemoveQueueOf(st: State, u: Id, L: Id)
    requires u in st.store && u in st.closed && L in st.store && L != u && QueueOf(st, L) && u !in st.sockets
    requires forall q | q in QueueSet(st.store[u]) :: q in st.store && st.store[q].listener == u
    requires L in QueueSet(st.store[u]) ==> st.store[L].queued.None?
    ensures L in RemoveSocket(st, u).store && QueueOf(RemoveSocket(st, u), L)
  {
    hide Unrecord, Release;
  }

  lemma RemoveQueuesFit(st: State, u: Id)
    requires LifeCycle(st) && Queues(st) && u in st.closed
    ensures QueuesFit(RemoveSocket(st, u))
  {
    assert Kin(st.store, st.lastId, u);
    QueuedAreOpen(st, u);
    var st' := RemoveSocket(st, u);
    hide RemoveSocket;
    forall L | L in st'.store ensures QueueOf(st', L) {
      RemovedKeys(st, u);
      assert Kin(st.store, st.lastId, L);
      RemoveQueueOf(st, u, L);
    }
  }

  lemma RemovedKeys(st: State, u: Id)
    requires u in st.closed && u in st.store
    ensures RemoveSocket(st, u).store.Keys == st.store.Keys - {u}
  {
  }

  lemma UnrecordExact(peerRec: map<int, set<Id>>, key: int, u: Id, k: int, x: Id)
    ensures var r := Unrecord(peerRec, key, u);
            (k in r && x in r[k]) <==> (k in peerRec && x in peerRec[k] && !(k == key && x == u))
  {
    if k == key && key in peerRec {
      assert x in peerRec[key] - {u} <==> x in peerRec[key] && x != u;
    }
  }

  lemma UnrecordNonempty(peerRec: map<int, set<Id>>, key: int, u: Id)
    requires forall k | k in peerRec :: peerRec[k] != {}
    ensures var r := Unrecord(peerRec, key, u); forall k | k in r :: r[k] != {}
  {
    var r := Unrecord(peerRec, key, u);
    forall k | k in r ensures r[k] != {} {
      if k == key { assert r[k] == peerRec[k] - {u}; } else { assert r[k] == peerRec[k]; }
    }
  }

  lemma RemovePeers(st: State, u: Id)
    requires LifeCycle(st) && PeerRecord(st) && OneUnbroken(st) && u in st.closed
    ensures PeerRecord(RemoveSocket(st, u)) && OneUnbroken(RemoveSocket(st, u))
  {
    hide PeerKey, Release, Unrecord;
    var st' := RemoveSocket(st, u);
    RemovedKeys(st, u);
    forall a | a in st'.store
      ensures KeyOf(st'.store[a]) == KeyOf(st.store[a]) && st'.store[a].listener == st.store[a].listener
              && st'.store[a].peerAddr == st.store[a].peerAddr && (st.store[a].broken ==> st'.store[a].broken)
              && (Accepted(st', a) ==> Accepted(st, a))
    {
    }
    UnrecordNonempty(st.peerRec, KeyOf(st.store[u]), u);
    forall k, x ensures (k in st'.peerRec && x in st'.peerRec[k])
                   <==> (k in st.peerRec && x in st.peerRec[k] && !(k == KeyOf(st.store[u]) && x == u))
    {
      UnrecordExact(st.peerRec, KeyOf(st.store[u]), u, k, x);
    }
    hide RemoveSocket;
  }

  lemma CarriersLess(st: State, u: Id, m: Id)
    requires u in st.closed && u in st.store
    ensures var c := Carriers(RemoveSocket(st, u).store, m);
            && c == Carriers(st.store, m) - {u}
            && |c| == |Carriers(st.store, m)| - (if st.store[u].muxId == m then 1 else 0)
  {
    hide Unrecord, Release;
    RemovedKeys(st, u);
    assert Carriers(RemoveSocket(st, u).store, m) == Carriers(st.store, m) - {u};
  }

  lemma CarrierCounts(store: map<Id, Socket>, u: Id, m: Id)
    requires u in store && store[u].muxId == m
    ensures |Carriers(store, m)| >= 1
  {
    assert u in Carriers(store, m);
    assert Carriers(store, m) == (Carriers(store, m) - {u}) + {u};
  }

  /** A multiplexer given up with its last reference owes none to a handshake rolled back. */
  lemma NoneRolledBack(st: State, u: Id)
    requires References(st) && u in st.store
    ensures forall m | m in st.rolledBack :: m in Release(st.muxes, st.store[u].muxId)
  {
    var k := st.store[u].muxId;
    if k >= 0 && k in st.muxes {
      CarrierCounts(st.store, u, k);
    }
    hide Carriers, NamesMux;
  }

  lemma RemoveCount(st: State, u: Id, m: Id)
    requires References(st) && u in st.closed && u in st.store && m in Release(st.muxes, st.store[u].muxId)
    ensures var mux := Release(st.muxes, st.store[u].muxId)[m];
            mux.refCount == |Carriers(RemoveSocket(st, u).store, m)| + st.rolledBack[m] && mux.refCount > 0
  {
    hide RemoveSocket, NamesMux;
    CarriersLess(st, u, m);
    hide Carriers;
  }

  lemma RemoveCounted(st: State, u: Id)
    requires References(st) && u in st.closed && u in st.store
    ensures Counted(RemoveSocket(st, u).store, Release(st.muxes, st.store[u].muxId), st.rolledBack)
  {
    var store' := RemoveSocket(st, u).store;
    var muxes' := Release(st.muxes, st.store[u].muxId);
    NoneRolledBack(st, u);
    hide RemoveSocket, Carriers, NamesMux;
    forall m | m in muxes'
      ensures muxes'[m].refCount == |Carriers(store', m)| + st.rolledBack[m] && muxes'[m].refCount > 0
    {
      RemoveCount(st, u, m);
    }
    hide Release;
  }

  lemma RemoveReferences(st: State, u: Id)
    requires References(st) && u in st.closed && u in st.store
    requires forall q | q in QueueSet(st.store[u]) :: q in st.store
    ensures References(RemoveSocket(st, u))
  {
    var st' := RemoveSocket(st, u);
    RemoveCounted(st, u);
    RemovedKeys(st, u);
    hide Counted, Unrecord;
    forall x | x in st'.store ensures NamesMux(st'.store[x], x, st'.muxes) {
      assert NamesMux(st.store[x], x, st.muxes) && st'.store[x].muxId == st.store[x].muxId;
      if st.store[x].muxId >= 0 && st.store[x].muxId == st.store[u].muxId { TwoCarriers(st, u, x); }
    }
  }

  /** A multiplexer that another socket carries outlives the deletion of this one. */
  lemma TwoCarriers(st: State, u: Id, x: Id)
    requires References(st) && u in st.store && x in st.store && u != x
    requires st.store[u].muxId == st.store[x].muxId >= 0
    ensures st.store[u].muxId in st.muxes && st.muxes[st.store[u].muxId].refCount >= 2
  {
    var m: Id := st.store[u].muxId;
    assert NamesMux(st.store[u], u, st.muxes);
    assert {u, x} <= Carriers(st.store, m);
    assert Carriers(st.store, m) == (Carriers(st.store, m) - {u, x}) + {u, x};
    assert |{u, x}| == 2;
  }

  lemma RemoveSocketKeeps(st: State, u: Id)
    requires Invariant(st)
    ensures Invariant(RemoveSocket(st, u))
  {
    if u in st.closed {
      AboutSocket(st, u);
      QueuedAreOpen(st, u);
      RemoveLifeCycle(st, u);
      RemoveFamilies(st, u);
      RemoveQueuesFit(st, u);
      RemovePeers(st, u);
      RemoveReferences(st, u);
      hide LifeCycle, Families, QueuesFit, PeerRecord, OneUnbroken, References, HandedOut;
    }
  }

  lemma {:induction false} RemoveAllKeeps(st: State, us: seq<Id>)
    requires Invariant(st)
    ensures Invariant(RemoveAll(st, us))
    decreases |us|
  {
    hide Invariant;
    if us != [] {
      RemoveSocketKeeps(st, us[0]);
      RemoveAllKeeps(RemoveSocket(st, us[0]), us[1..]);
    }
  }

  lemma CollectKeeps(st: State, keep: set<Id>, reap: set<Id>)
    requires Invariant(st)
    ensures Invariant(Collect(st, keep, reap))
  {
    var gone := Broken(st, keep);
    CloseAllKeeps(st, gone, false);
    hide Invariant;
    RemoveAllKeeps(CloseAll(st, gone, false), Ascending(reap * CloseAll(st, gone, false).closed));
  }

  // ---- The shutdown ------------------------------------------------------------------

  /** The shutdown leaves no open socket and no queued connection behind. */
  lemma ShutdownEmpties(st: State)
    requires Invariant(st)
    ensures var st' := Shutdown(st);
            && Invariant(st') && st'.sockets == {} && st'.closed == st.sockets + st.closed
            && forall L | L in st'.store :: QueueSet(st'.store[L]) == {}
  {
    CloseAllKeeps(st, st.sockets, true);
    var st' := Shutdown(st);
    assert st'.sockets == {};
    forall L | L in st'.store ensures QueueSet(st'.store[L]) == {} {
      AboutSocket(st', L);
      hide Invariant, CloseAll;
      QueuedAreOpen(st', L);
      assert forall q :: q !in QueueSet(st'.store[L]);
    }
  }

  /** Once no socket is open, deleting closed ones leaves exactly the others. */
  lemma {:induction false} DrainStep(st: State, us: seq<Id>)
    requires Invariant(st) && st.sockets == {}
    ensures var st' := RemoveAll(st, us);
            && Invariant(st') && st'.sockets == {} && st'.closed == st.closed - (set u | u in us)
    decreases |us|
  {
    hide Invariant;
    if us == [] {
    } else {
      var st1 := RemoveSocket(st, us[0]);
      RemoveSocketKeeps(st, us[0]);
      DrainOne(st, us[0]);
      DrainStep(st1, us[1..]);
      assert us == [us[0]] + us[1..];
    }
  }

  lemma DrainOne(st: State, u: Id)
    requires Invariant(st) && st.sockets == {}
    ensures RemoveSocket(st, u).sockets == {} && RemoveSocket(st, u).closed == st.closed - {u}
  {
    hide Invariant, Unrecord, Release, QueueOf, Role, KeyOf;
    if u in st.closed {
      ClosedIsThere(st, u);
      AboutSocket(st, u);
      QueuedAreOpen(st, u);
      assert QueueSet(st.store[u]) == {};
    } else {
      assert st.closed - {u} == st.closed;
    }
  }

  lemma ClosedIsThere(st: State, u: Id)
    requires Invariant(st) && u in st.closed
    ensures u in st.store
  {
  }

  /** A collection that has waited long enough for every closed socket ends the drain: all
      objects are deleted, and only multiplexers owed to rolled-back handshakes remain. */
  lemma DrainEnds(st: State, keep: set<Id>, reap: set<Id>)
    requires Invariant(st) && st.sockets == {} && st.closed <= reap
    ensures var st' := Collect(st, keep, reap);
            && Invariant(st') && st'.store == map[] && st'.closed == {} && st'.peerRec == map[]
            && (forall m | m in st'.muxes :: st'.muxes[m].refCount == st'.rolledBack[m])
  {
    hide Invariant, RemoveAll;
    var st1 := CloseAll(st, Broken(st, keep), false);
    CloseAllKeeps(st, Broken(st, keep), false);
    NoneBroken(st, keep);
    hide CloseAll;
    DrainStep(st1, Ascending(reap * st1.closed));
    var st' := RemoveAll(st1, Ascending(reap * st1.closed));
    assert st'.closed == {};
    Emptied(st');
  }

  lemma NoneBroken(st: State, keep: set<Id>)
    requires st.sockets == {}
    ensures var r := CloseAll(st, Broken(st, keep), false); r.sockets == {} && r.closed == st.closed
  {
    assert Broken(st, keep) == {};
  }

  lemma Emptied(st: State)
    requires Invariant(st) && st.sockets == {} && st.closed == {}
    ensures st.store == map[] && st.peerRec == map[]
    ensures forall m | m in st.muxes :: st.muxes[m].refCount == st.rolledBack[m]
  {
    assert st.store.Keys == {};
    assert forall k :: k !in st.peerRec;
    assert st.peerRec.Keys == {};
    forall m ensures Carriers(st.store, m) == {} { }
  }
}
