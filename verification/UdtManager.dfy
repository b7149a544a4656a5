/** The socket manager itself: its fields, and its operations with their loops over the maps. */
module UdtManager {
  import opened Ordered
  import opened UdtInvariant
  import opened UdtSteps
  import opened UdtHandshake
  import opened UdtCollect
  import opened S = UdtState

  // ---- What the loops rely on --------------------------------------------------------

  lemma LeastUnique(x: Id, s: set<Id>)
    requires IsLeast(x, s)
    ensures s != {} && x == Least(s)
  {
  }

  lemma CloseNone(st: State, breaking: bool)
    ensures CloseAll(st, {}, breaking).store == st.store
  {
    forall u | u in st.store ensures ClosedSocket(st, {}, breaking, u) == st.store[u] {
      assert Children(st, {}, u) == {};
      NothingTaken(st.store[u].queued);
      NothingTaken(st.store[u].accepted);
    }
    CloseAllKeys(st, {}, breaking);
  }

  lemma NothingTaken(q: Option<set<Id>>)
    ensures Without(q, {}) == q
  {
    if q.Some? { assert q.value - {} == q.value; }
  }

  /** Closing one more socket changes that socket and the queues of its listener. */
  lemma CloseOneMore(st: State, gone: set<Id>, breaking: bool, i: Id)
    requires i in st.store && i !in gone
    ensures var store := CloseAll(st, gone, breaking).store;
            var t := store[i].(status := CLOSED, broken := st.store[i].broken || breaking);
            var L := st.store[i].listener;
            var store1 := store[i := t];
            CloseAll(st, gone + {i}, breaking).store
            == if L !in store1 then store1
               else store1[L := store1[L].(queued := Without(store1[L].queued, {i}),
                                           accepted := Without(store1[L].accepted, {i}))]
  {
    CloseAllKeys(st, gone, breaking);
    CloseAllKeys(st, gone + {i}, breaking);
    forall u | u in st.store
      ensures ClosedSocket(st, gone + {i}, breaking, u) == CloseOneMoreAt(st, gone, breaking, i, u)
    {
      CloseOneMoreSocket(st, gone, breaking, i, u);
    }
    hide ClosedSocket, Without;
  }

  lemma CloseOneMoreSocket(st: State, gone: set<Id>, breaking: bool, i: Id, u: Id)
    requires i in st.store && i !in gone && u in st.store
    ensures ClosedSocket(st, gone + {i}, breaking, u) == CloseOneMoreAt(st, gone, breaking, i, u)
  {
    assert Children(st, gone + {i}, u)
        == if st.store[i].listener == u then Children(st, gone, u) + {i} else Children(st, gone, u);
    TakenTwice(st.store[u].queued, Children(st, gone, u), {i});
    TakenTwice(st.store[u].accepted, Children(st, gone, u), {i});
    hide Children, Without;
  }

  ghost function CloseOneMoreAt(st: State, gone: set<Id>, breaking: bool, i: Id, u: Id): Socket
    requires i in st.store && u in st.store
  {
    var s := ClosedSocket(st, gone, breaking, u);
    var t := if u == i then s.(status := CLOSED, broken := st.store[i].broken || breaking) else s;
    if u == st.store[i].listener then t.(queued := Without(t.queued, {i}), accepted := Without(t.accepted, {i})) else t
  }

  lemma TakenTwice(q: Option<set<Id>>, a: set<Id>, b: set<Id>)
    ensures Without(Without(q, a), b) == Without(q, a + b)
  {
    if q.Some? { assert (q.value - a) - b == q.value - (a + b); }
  }

  // ---- The manager -------------------------------------------------------------------

  datatype SocketType = Stream | Datagram | OtherType

  class CUDTUnited {
    var store: map<Id, Socket>         // the socket objects, by id
    var sockets: set<Id>               // the keys of m_Sockets
    var closed: set<Id>                // the keys of m_ClosedSockets
    var peerRec: map<int, set<Id>>     // m_PeerRec
    var muxes: map<Id, Mux>            // m_mMultiplexer
    var lastId: Id                     // m_SocketID
    ghost var freed: seq<Id>
    ghost var handedOut: seq<Id>
    ghost var rolledBack: multiset<Id>

    ghost function View(): State
      reads this
    {
      State(store, sockets, closed, peerRec, muxes, lastId, freed, handedOut, rolledBack)
    }

    ghost predicate Valid()
      reads this
    {
      Invariant(View())
    }

    constructor (seed: Id)
      requires seed > 0
      ensures Valid() && View() == Initial(seed)
    {
      store, sockets, closed, peerRec, muxes, lastId := map[], {}, {}, map[], map[], seed;
      freed, handedOut, rolledBack := [], [], multiset{};
      new;
      InitialInvariant(seed);
    }

    method Locate(u: Id) returns (found: bool)
      requires Valid()
      ensures found <==> Located(View(), u)
    {
      found := u in sockets && store[u].status != CLOSED;
    }

    method LocateByPeer(peer: Address, key: int) returns (r: Option<Id>)
      requires Valid()
      ensures r == LocatePeer(View(), peer, key)
    {
      if key !in peerRec { return None; }
      ghost var same := SamePeer(View(), peer, key);
      var todo := peerRec[key];
      while todo != {}
        invariant same <= todo <= peerRec[key]
        decreases todo
      {
        var j := Least(todo);
        if j in sockets && store[j].peerAddr == Some(peer) {
          assert j in same && IsLeast(j, same);
          LeastUnique(j, same);
          return Some(j);
        }
        assert j !in same;
        todo := todo - {j};
      }
      assert same == {};
      r := None;
    }

    /** None for a type that is neither a stream nor datagrams. */
    method NewSocket(config: Config, kind: SocketType) returns (u: Option<Id>)
      requires Valid() && lastId > 1
      modifies this
      ensures Valid() && (u.None? <==> kind.OtherType?)
      ensures View() == if u.None? then old(View()) else S.NewSocket(old(View()), config)
      ensures u.Some? ==> u.value == lastId && Located(View(), u.value)
    {
      hide Invariant;
      if kind.OtherType? { return None; }
      ghost var was := View();
      NewSocketKeeps(was, config);
      lastId := lastId - 1;
      store := store[lastId := FreshSocket(config)];
      sockets := sockets + {lastId};
      u := Some(lastId);
    }

    /** updateMux for bind and connect; false is the exception of a channel that does not open. */
    method UpdateMux(u: Id, port: Option<int>, channel: Option<int>) returns (ok: bool)
      requires u in store
      modifies this`muxes, this`store
      ensures ok <==> S.UpdateMux(old(View()), u, port, channel).Some?
      ensures View() == if ok then S.UpdateMux(old(View()), u, port, channel).value else old(View())
      ensures u in store
    {
      var config := store[u].config;
      if config.reuseAddr && port.Some? {
        ghost var fit := Shareable(View(), config, port.value);
        var todo := muxes.Keys;
        while todo != {}
          invariant fit <= todo <= muxes.Keys
          invariant View() == old(View())
          decreases todo
        {
          var i := Least(todo);
          var m := muxes[i];
          if m.ipVersion == config.ipVersion && m.mss == config.mss && m.reusable && m.port == port.value {
            assert i in fit && IsLeast(i, fit);
            LeastUnique(i, fit);
            muxes := muxes[i := m.(refCount := m.refCount + 1)];
            store := store[u := store[u].(muxId := i)];
            return true;
          }
          assert i !in fit;
          todo := todo - {i};
        }
        assert fit == {};
      }
      if channel.None? { return false; }
      muxes := muxes[u := Mux(channel.value, config.ipVersion, config.mss, config.reuseAddr, 1)];
      store := store[u := store[u].(muxId := u)];
      ok := true;
    }

    /** updateMux for an incoming connection: share the multiplexer on the listener's port. */
    method ShareListenerMux(id: Id, listen: Id)
      requires id in store && listen in store
      modifies this`muxes, this`store
      ensures var fit, was := OnPort(old(muxes), old(store[listen].selfPort)), old(View());
              View() == if fit == {} then was else Share(was, id, Least(fit))
    {
      ghost var fit := OnPort(muxes, store[listen].selfPort);
      var todo := muxes.Keys;
      while todo != {}
        invariant fit <= todo <= muxes.Keys
        invariant View() == old(View())
        decreases todo
      {
        var i := Least(todo);
        if muxes[i].port == store[listen].selfPort {
          assert i in fit && IsLeast(i, fit);
          LeastUnique(i, fit);
          muxes := muxes[i := muxes[i].(refCount := muxes[i].refCount + 1)];
          store := store[id := store[id].(muxId := i)];
          return;
        }
        assert i !in fit;
        todo := todo - {i};
      }
      assert fit == {};
    }

    /** bind, to the port of an address or of a system socket; None for an address that has not the
        size of its family, or a system socket without an address. */
    method Bind(u: Id, port: Option<int>, channel: Option<int>) returns (ok: bool)
      requires Valid()
      modifies this
      ensures Valid() && View() == if port.None? then old(View()) else S.Bind(old(View()), u, port.value, channel)
      ensures ok <==> port.Some? && Located(old(View()), u) && old(View()).store[u].status == INIT
                      && S.UpdateMux(old(View()), u, port, channel).Some?
    {
      hide Invariant, S.UpdateMux;
      ghost var was := View();
      if port.Some? { BindKeeps(was, u, port.value, channel); }
      var found := Locate(u);
      if !found { return false; }
      if store[u].status != INIT { return false; }
      if port.None? { return false; }
      ok := UpdateMux(u, port, channel);
      if ok {
        store := store[u := store[u].(status := OPENED, selfPort := PortIn(muxes, store[u].muxId))];
      }
    }

    method Listen(u: Id, backlog: int, ready: bool) returns (ok: bool)
      requires Valid()
      modifies this
      ensures Valid() && View() == S.Listen(old(View()), u, backlog, ready)
      ensures ok <==> Located(View(), u) && store[u].status == LISTENING
    {
      hide Invariant;
      ghost var was := View();
      ListenKeeps(was, u, backlog, ready);
      var found := Locate(u);
      if !found { return false; }
      if store[u].status == LISTENING { return true; }
      if store[u].status != OPENED { return false; }
      if store[u].config.rendezvous { return false; }
      if backlog <= 0 { return false; }
      store := store[u := store[u].(backlog := backlog, queued := Some({}), accepted := Some({}))];
      assert store[u := store[u].(status := LISTENING)]
          == was.store[u := store[u].(status := LISTENING)];
      if !ready { return false; }
      store := store[u := store[u].(status := LISTENING)];
      ok := true;
    }

    /** Takes u out of both queues of the listener L, if it is still there. */
    method Dequeue(L: Id, u: Id)
      requires L in sockets || L in closed ==> L in store
      modifies this`store
      ensures store == if L in sockets || L in closed
                       then old(store)[L := old(store)[L].(queued := Without(old(store)[L].queued, {u}),
                                                           accepted := Without(old(store)[L].accepted, {u}))]
                       else old(store)
    {
      if L !in sockets {
        if L !in closed { return; }
      }
      var ls := store[L];
      store := store[L := ls.(queued := Without(ls.queued, {u}), accepted := Without(ls.accepted, {u}))];
    }

    /** newConnection: 1 for a new connection, 0 for one that already stands, -1 for a refusal. */
    method NewConnection(listen: Id, peer: Address, peerId: int, isn: int, connected: bool) returns (code: int)
      requires Valid() && lastId > 1 && (Located(View(), listen) ==> store[listen].status == LISTENING)
      modifies this
      ensures Valid()
      ensures (View(), code) == S.NewConnection(old(View()), listen, peer, peerId, isn, connected)
    {
      hide Invariant, S.LocatePeer, S.PeerKey, OnPort;
      ghost var was := View();
      NewConnectionKeeps(was, listen, peer, peerId, isn, connected);
      InvariantKeys(was);
      var found := Locate(listen);
      if !found { return -1; }
      AboutSocket(was, listen);
      var ns := LocateByPeer(peer, PeerKey(peerId, isn));
      if ns.Some? {
        PriorIsOpen(was, peer, PeerKey(peerId, isn));
        if store[ns.value].broken {
          store := store[ns.value := store[ns.value].(status := CLOSED)];
          Dequeue(listen, ns.value);
          assert View() == Replace(was, listen, ns.value);
        } else {
          return 0;
        }
      }
      hide Replace;
      code := Enter(listen, peer, peerId, isn, connected);
    }

    /** Makes the object of a new connection, with a share of the listener's multiplexer. */
    method MakeConnection(listen: Id, peer: Address, peerId: int, isn: int) returns (id: Id)
      requires listen in store && listen >= lastId > 1
      modifies this`lastId, this`store, this`muxes
      ensures id == old(lastId) - 1 && View() == Arrive(old(View()), listen, peer, peerId, isn)
    {
      hide OnPort;
      lastId := lastId - 1;
      id := lastId;
      var config := store[listen].config;
      store := store[id := Socket(config, CONNECTED, false, 0, Some(peer), listen, peerId, isn, None, None, 0, -1)];
      ShareListenerMux(id, listen);
    }

    /** The part of newConnection that makes the new connection, and enters it. */
    method Enter(listen: Id, peer: Address, peerId: int, isn: int, connected: bool) returns (code: int)
      requires listen in store && listen >= lastId > 1
      modifies this
      ensures (View(), code) == Establish(old(View()), listen, peer, peerId, isn, connected)
    {
      hide Arrive, S.PeerKey, Record;
      if QueueLength(store[listen]) >= store[listen].backlog { return -1; }
      var kept := store;
      var id := MakeConnection(listen, peer, peerId, isn);
      ArriveKeeps(old(View()), listen, peer, peerId, isn);
      if !connected {
        ghost var m := store[id].muxId;
        rolledBack := rolledBack + (if m in muxes then multiset{m} else multiset{});
        store := kept;
        return -1;
      }
      store := store[id := store[id].(selfPort := PortIn(muxes, store[id].muxId))];
      sockets := sockets + {id};
      peerRec := Record(peerRec, PeerKey(peerId, isn), id);
      var ls := store[listen];
      store := store[listen := ls.(queued := Some((if ls.queued.Some? then ls.queued.value else {}) + {id}))];
      code := 1;
    }

    /** accept, once it no longer waits. */
    method Accept(listen: Id) returns (r: Option<Id>)
      requires Valid()
      modifies this
      ensures Valid() && (View(), r) == S.Accept(old(View()), listen)
    {
      hide Invariant;
      ghost var was := View();
      AcceptKeeps(was, listen);
      var found := Locate(listen);
      if !found { return None; }
      var ls := store[listen];
      if ls.status != LISTENING || ls.config.rendezvous { return None; }
      if ls.broken || ls.queued.None? || ls.queued.value == {} { return None; }
      var u := Least(ls.queued.value);
      var taken := (if ls.accepted.Some? then ls.accepted.value else {}) + {u};
      store := store[listen := ls.(queued := Some(ls.queued.value - {u}), accepted := Some(taken))];
      handedOut := handedOut + [u];
      r := Some(u);
    }

    /** connect; None for an address that has not the size of its family. */
    method Connect(u: Id, to: Option<Address>, channel: Option<int>, attempt: Attempt) returns (ok: bool)
      requires Valid()
      modifies this
      ensures Valid()
      ensures View() == if to.None? then old(View()) else S.Connect(old(View()), u, to.value, channel, attempt)
      ensures ok ==> Located(View(), u) && attempt != Refused && store[u].status in {CONNECTING, CONNECTED}
    {
      hide Invariant, S.UpdateMux;
      ghost var was := View();
      if to.Some? { ConnectKeeps(was, u, to.value, channel, attempt); }
      var found := Locate(u);
      if !found { return false; }
      if to.None? { return false; }
      var peer := to.value;
      if store[u].status == INIT {
        if store[u].config.rendezvous { return false; }
        var bound := UpdateMux(u, None, channel);
        if !bound { return false; }
      } else if store[u].status != OPENED {
        return false;
      }
      ghost var st := View();
      if attempt == Refused {
        store := store[u := store[u].(status := OPENED)];
        return false;
      }
      store := store[u := store[u].(status := CONNECTING, peerAddr := Some(peer))];
      if attempt == Completed {
        store := store[u := store[u].(status := CONNECTED, selfPort := PortIn(muxes, store[u].muxId))];
      }
      assert store == st.store[u := store[u]];
      ok := true;
    }

    method ConnectComplete(u: Id)
      requires Valid() && (Located(View(), u) ==> store[u].status in {OPENED, CONNECTING})
      modifies this
      ensures Valid() && View() == S.ConnectComplete(old(View()), u)
    {
      hide Invariant;
      ConnectCompleteKeeps(View(), u);
      var found := Locate(u);
      if found {
        store := store[u := store[u].(status := CONNECTED, selfPort := PortIn(muxes, store[u].muxId))];
      }
    }

    method Close(u: Id) returns (ok: bool)
      requires Valid() && Enabled(View(), EClose(u))
      modifies this
      ensures Valid() && View() == S.Close(old(View()), u)
      ensures ok <==> Located(old(View()), u)
    {
      hide Invariant;
      CloseKeeps(View(), u);
      ok := Locate(u);
      if !ok { return; }
      if store[u].status == LISTENING {
        store := store[u := store[u].(broken := true)];
        return;
      }
      store := store[u := store[u].(status := CLOSED)];
      sockets := sockets - {u};
      closed := closed + {u};
    }

    // ---- The collector ---------------------------------------------------------------

    /** Marks every socket of `gone` closed, one after the other; m_Sockets is left for later. */
    method CloseEach(gone: set<Id>, breaking: bool)
      requires gone <= sockets && store.Keys == sockets + closed
      modifies this`store, this`closed
      ensures store == CloseAll(old(View()), gone, breaking).store && closed == old(closed) + gone
    {
      ghost var was := View();
      ghost var done: set<Id> := {};
      var todo := gone;
      CloseNone(was, breaking);
      while todo != {}
        invariant done !! todo && done + todo == gone
        invariant store == CloseAll(was, done, breaking).store && store.Keys == was.store.Keys
        invariant closed == was.closed + done
        decreases todo
      {
        hide CloseAll;
        var i := Least(todo);
        CloseOneMore(was, done, breaking, i);
        StillOpen(was, done, breaking, i);
        var L := store[i].listener;
        store := store[i := store[i].(status := CLOSED, broken := store[i].broken || breaking)];
        closed := closed + {i};
        Dequeue(L, i);
        done := done + {i};
        todo := todo - {i};
      }
      assert done == gone;
    }

    /** Breaks and closes the connections a listener has queued. */
    method CloseQueued(queue: set<Id>)
      requires queue <= sockets && queue <= store.Keys
      modifies this`store, this`sockets, this`closed
      ensures store == Orphaned(old(store), queue)
      ensures sockets == old(sockets) - queue && closed == old(closed) + queue
    {
      ghost var was := store;
      var todo := queue;
      while todo != {}
        invariant todo <= queue && queue <= was.Keys
        invariant store == Orphaned(was, queue - todo)
        invariant sockets == old(sockets) - (queue - todo) && closed == old(closed) + (queue - todo)
        decreases todo
      {
        var q := Least(todo);
        store := store[q := Orphan(store[q])];
        closed := closed + {q};
        sockets := sockets - {q};
        todo := todo - {q};
      }
      assert queue - todo == queue;
    }

    /** removeSocket */
    method RemoveSocket(u: Id)
      requires Valid()
      modifies this
      ensures Valid() && View() == S.RemoveSocket(old(View()), u)
    {
      hide Invariant, Unrecord, Release, KeyOf, Orphaned;
      ghost var was := View();
      RemoveSocketKeeps(was, u);
      if u !in closed { return; }
      InvariantKeys(was);
      AboutSocket(was, u);
      QueuedAreOpen(was, u);
      var s := store[u];
      if s.queued.Some? {
        CloseQueued(s.queued.value);
      } else {
        NoneOrphaned(store);
        assert sockets - {} == sockets && closed + {} == closed;
      }
      peerRec := Unrecord(peerRec, KeyOf(s), u);
      store := store - {u};
      closed := closed - {u};
      muxes := Release(muxes, s.muxId);
      freed := freed + [u];
    }

    /** checkBrokenSockets: `keep` are the broken sockets that still have to wait, `reap` the
        closed ones whose time is up. */
    method CheckBrokenSockets(keep: set<Id>, reap: set<Id>)
      requires Valid()
      modifies this
      ensures Valid() && View() == Collect(old(View()), keep, reap)
    {
      hide Invariant, CloseAll;
      ghost var was := View();
      InvariantKeys(was);
      var tbc := set u | u in sockets && store[u].broken && u !in keep;
      assert tbc == Broken(was, keep);
      CloseAllKeeps(was, tbc, false);
      CloseEach(tbc, false);
      var tbr := Ascending(reap * closed);
      sockets := sockets - tbc;
      CloseAllSets(was, tbc, false);
      assert View() == CloseAll(was, tbc, false);
      ghost var st := View();
      var i := 0;
      while i < |tbr|
        invariant 0 <= i <= |tbr|
        invariant Valid() && RemoveAll(View(), tbr[i..]) == RemoveAll(st, tbr)
      {
        assert tbr[i..][1..] == tbr[i + 1..];
        RemoveSocket(tbr[i]);
        i := i + 1;
      }
    }

    /** The end of garbageCollect, up to the drain: every socket is broken and closed. */
    method Shutdown()
      requires Valid()
      modifies this
      ensures Valid() && View() == S.Shutdown(old(View()))
      ensures sockets == {} && forall L | L in store :: QueueSet(store[L]) == {}
    {
      hide Invariant, CloseAll;
      ghost var was := View();
      InvariantKeys(was);
      ShutdownEmpties(was);
      CloseAllSets(was, sockets, true);
      CloseEach(sockets, true);
      sockets := {};
    }
  }

  lemma InvariantKeys(st: State)
    requires Invariant(st)
    ensures st.store.Keys == st.sockets + st.closed && st.sockets !! st.closed
  {
  }

  lemma NoneOrphaned(store: map<Id, Socket>)
    ensures Orphaned(store, {}) == store
  {
  }

  lemma ArriveKeeps(st: State, listen: Id, peer: Address, peerId: int, isn: int)
    requires listen in st.store && st.lastId > 1
    ensures var r := Arrive(st, listen, peer, peerId, isn);
            r == st.(lastId := r.lastId, store := r.store, muxes := r.muxes)
  {
  }

  lemma CloseAllSets(st: State, gone: set<Id>, breaking: bool)
    ensures var st' := CloseAll(st, gone, breaking);
            st' == st.(store := st'.store, sockets := st.sockets - gone, closed := st.closed + gone)
  {
  }

  /** A socket that is not yet closed is as it was, but for its queues. */
  lemma StillOpen(st: State, gone: set<Id>, breaking: bool, i: Id)
    requires i in st.store && i !in gone
    ensures i in CloseAll(st, gone, breaking).store
    ensures var s := CloseAll(st, gone, breaking).store[i];
            s.listener == st.store[i].listener && s.broken == st.store[i].broken
  {
  }
}
