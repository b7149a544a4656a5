/** Runs on which the manager breaks its own rules. */
module UdtWitness {
  import opened Ordered
  import opened UdtState
  import opened UdtInvariant
  import opened UdtTheorems

  const CONFIG := Config(4, 1500, true, false)

  /** A listener with what is in its queue, and a connection of the one listener. */
  function Listener(mux: Id, port: int, queue: set<Id>): Socket {
    Socket(CONFIG, LISTENING, false, port, None, 0, 0, 0, Some(queue), Some({}), 5, mux)
  }

  function Opened(mux: Id, port: int): Socket {
    Socket(CONFIG, OPENED, false, port, None, 0, 0, 0, None, None, 0, mux)
  }

  function Connection(listener: Id, mux: Id, port: int, status: Status, broken: bool): Socket {
    Socket(CONFIG, status, broken, port, Some(5), listener, 0, 0, None, None, 0, mux)
  }

  function MuxOf(port: int, refs: int): Mux { Mux(port, 4, 1500, true, refs) }

  function Two(a: Socket, b: Socket, m: int, n: int): State {
    State(map[9 := a, 8 := b], {9, 8}, {}, map[], map[9 := MuxOf(1, m), 8 := MuxOf(2, n)], 8, [], [], multiset{})
  }

  function BothNew(): State {
    var unused := FreshSocket(CONFIG);
    State(map[9 := unused, 8 := unused], {9, 8}, {}, map[], map[], 8, [], [], multiset{})
  }

  function OneBound(): State {
    var store := map[9 := Opened(9, 1), 8 := FreshSocket(CONFIG)];
    State(store, {9, 8}, {}, map[], map[9 := MuxOf(1, 1)], 8, [], [], multiset{})
  }

  lemma TwoSockets()
    ensures Run(Initial(10), [ENewSocket(CONFIG), ENewSocket(CONFIG)]) == Some(BothNew())
  {
    var s1 := State(map[9 := FreshSocket(CONFIG)], {9}, {}, map[], map[], 9, [], [], multiset{});
    var s2 := BothNew();
    assert Apply(Initial(10), ENewSocket(CONFIG)) == s1;
    assert Apply(s1, ENewSocket(CONFIG)) == s2;
    hide Apply;
    RunStep(Initial(10), [], ENewSocket(CONFIG), Initial(10));
    RunStep(Initial(10), [ENewSocket(CONFIG)], ENewSocket(CONFIG), s1);
  }

  lemma RunStep(st: State, es: seq<Event>, e: Event, mid: State)
    requires Run(st, es) == Some(mid) && Enabled(mid, e)
    ensures Run(st, es + [e]) == Some(Apply(mid, e))
  {
    assert (es + [e])[..|es + [e]| - 1] == es;
  }

  lemma FirstBound()
    ensures Apply(BothNew(), EBind(9, 1, Some(1))) == OneBound()
  {
    var s2 := BothNew();
    assert Shareable(s2, CONFIG, 1) == {};
  }

  lemma SecondBound()
    ensures Apply(OneBound(), EBind(8, 2, Some(2))) == Two(Opened(9, 1), Opened(8, 2), 1, 1)
  {
    var s3 := OneBound();
    assert Shareable(s3, CONFIG, 2) == {};
  }

  lemma BothListen()
    ensures Apply(Two(Opened(9, 1), Opened(8, 2), 1, 1), EListen(9, 5, true))
         == Two(Listener(9, 1, {}), Opened(8, 2), 1, 1)
    ensures Apply(Two(Listener(9, 1, {}), Opened(8, 2), 1, 1), EListen(8, 5, true))
         == Two(Listener(9, 1, {}), Listener(8, 2, {}), 1, 1)
  {
  }

  /** The connection 7 in the queue of the first listener. */
  function Three(c: Socket): State {
    State(map[9 := Listener(9, 1, {7}), 8 := Listener(8, 2, {}), 7 := c], {9, 8, 7}, {}, map[0 := {7}],
          map[9 := MuxOf(1, 2), 8 := MuxOf(2, 1)], 7, [], [], multiset{})
  }

  lemma Arrived()
    ensures var s6 := Two(Listener(9, 1, {}), Listener(8, 2, {}), 1, 1);
            Arrive(s6, 9, 5, 0, 0)
            == State(map[9 := Listener(9, 1, {}), 8 := Listener(8, 2, {}), 7 := Connection(9, 9, 0, CONNECTED, false)],
                     {9, 8}, {}, map[], map[9 := MuxOf(1, 2), 8 := MuxOf(2, 1)], 7, [], [], multiset{})
  {
    var s6 := Two(Listener(9, 1, {}), Listener(8, 2, {}), 1, 1);
    var on := OnPort(s6.muxes, 1);
    assert on == {9};
    LeastOfOne(on, 9);
    hide Least, OnPort;
  }

  lemma LeastOfOne(s: set<Id>, x: Id)
    requires s == {x}
    ensures s != {} && Least(s) == x
  {
  }

  lemma KeyZero()
    ensures PeerKey(0, 0) == 0
  {
  }

  /** The key keeps two bits of the id, and adds up with the sequence number. */
  lemma KeyLost(id: int, isn: int)
    ensures PeerKey(id + 4, isn) == PeerKey(id, isn) == PeerKey(id - 1, isn + 0x4000_0000)
  {
    hide PeerKey;
    KeysAgree(id + 4, isn, id, isn);
    OneTurn(id * 0x4000_0000 + isn);
    assert (id + 4) * 0x4000_0000 + isn == id * 0x4000_0000 + isn + 0x1_0000_0000;
    assert id * 0x4000_0000 + isn == (id - 1) * 0x4000_0000 + (isn + 0x4000_0000);
    KeysAgree(id, isn, id - 1, isn + 0x4000_0000);
  }

  lemma OneTurn(x: int)
    ensures (x + 0x1_0000_0000) % 0x1_0000_0000 == x % 0x1_0000_0000
  {
  }

  lemma Entered()
    ensures Establish(Two(Listener(9, 1, {}), Listener(8, 2, {}), 1, 1), 9, 5, 0, 0, true).0
         == Three(Connection(9, 9, 1, CONNECTED, false))
  {
    hide Arrive, PeerKey, Record, Least;
    KeyZero();
    Recorded();
    Arrived();
    var s6 := Two(Listener(9, 1, {}), Listener(8, 2, {}), 1, 1);
    assert QueueLength(s6.store[9]) == 0;
    assert {9, 8} + {7} == {9, 8, 7 as Id};
  }

  lemma Recorded()
    ensures Record(map[], 0, 7) == map[0 := {7}]
  {
    var none: set<Id> := {};
    assert none + {7} == {7};
  }

  lemma Connected()
    ensures Apply(Two(Listener(9, 1, {}), Listener(8, 2, {}), 1, 1), EHandshake(9, 5, 0, 0, true))
         == Three(Connection(9, 9, 1, CONNECTED, false))
  {
    hide Establish, PeerKey, Least;
    KeyZero();
    Entered();
    var s6 := Two(Listener(9, 1, {}), Listener(8, 2, {}), 1, 1);
    assert LocatePeer(s6, 5, 0) == None;
  }

  lemma Broke()
    ensures Apply(Three(Connection(9, 9, 1, CONNECTED, false)), EBreak(7))
         == Three(Connection(9, 9, 1, CONNECTED, true))
  {
  }

  /** A new connection leaves alone all but its listener. */
  lemma EstablishElsewhere(st: State, listen: Id, peer: Address, peerId: int, isn: int, x: Id)
    requires listen in st.store && st.lastId > 1 && x in st.store && x != listen && x != st.lastId - 1
    ensures var r := Establish(st, listen, peer, peerId, isn, true).0;
            x in r.store && r.store[x] == st.store[x] && (x in st.sockets ==> x in r.sockets)
  {
    hide OnPort, Record, PeerKey, Least;
  }

  lemma GivenWay()
    ensures Replace(Three(Connection(9, 9, 1, CONNECTED, true)), 8, 7) == Three(Connection(9, 9, 1, CLOSED, true))
  {
    var none: set<Id> := {};
    assert none - {7} == none;
  }

  lemma FoundPrior(broken: bool)
    ensures LocatePeer(Three(Connection(9, 9, 1, CONNECTED, broken)), 5, 0) == Some(7)
  {
    hide Least, SamePeer;
    OfThatPeer(broken);
    LeastOfOne(SamePeer(Three(Connection(9, 9, 1, CONNECTED, broken)), 5, 0), 7);
  }

  lemma OfThatPeer(broken: bool)
    ensures SamePeer(Three(Connection(9, 9, 1, CONNECTED, broken)), 5, 0) == {7}
  {
  }

  /** The handshake at the other listener marks it CLOSED, and leaves it in the first one's queue. */
  lemma ReplacedElsewhere()
    ensures var st := Apply(Three(Connection(9, 9, 1, CONNECTED, true)), EHandshake(8, 5, 0, 0, true));
            && 9 in st.sockets && 9 in st.store && st.store[9] == Listener(9, 1, {7})
            && 7 in st.store && st.store[7].status == CLOSED
  {
    hide LocatePeer, PeerKey, Replace, Establish;
    KeyZero();
    FoundPrior(true);
    GivenWay();
    var s9 := Three(Connection(9, 9, 1, CLOSED, true));
    EstablishElsewhere(s9, 8, 5, 0, 0, 9);
    EstablishElsewhere(s9, 8, 5, 0, 0, 7);
  }

  const BOTH_LISTEN: seq<Event> := [ENewSocket(CONFIG), ENewSocket(CONFIG)] + [EBind(9, 1, Some(1))]
    + [EBind(8, 2, Some(2))] + [EListen(9, 5, true)] + [EListen(8, 5, true)]

  lemma TwoListeners()
    ensures Run(Initial(10), BOTH_LISTEN) == Some(Two(Listener(9, 1, {}), Listener(8, 2, {}), 1, 1))
  {
    TwoSockets();
    FirstBound();
    SecondBound();
    BothListen();
    hide Apply, Run;
    var s2 := BothNew();
    var es2 := [ENewSocket(CONFIG), ENewSocket(CONFIG)];
    RunStep(Initial(10), es2, EBind(9, 1, Some(1)), s2);
    var es3, s3 := es2 + [EBind(9, 1, Some(1))], Apply(s2, EBind(9, 1, Some(1)));
    RunStep(Initial(10), es3, EBind(8, 2, Some(2)), s3);
    var es4, s4 := es3 + [EBind(8, 2, Some(2))], Two(Opened(9, 1), Opened(8, 2), 1, 1);
    RunStep(Initial(10), es4, EListen(9, 5, true), s4);
    var es5, s5 := es4 + [EListen(9, 5, true)], Two(Listener(9, 1, {}), Opened(8, 2), 1, 1);
    RunStep(Initial(10), es5, EListen(8, 5, true), s5);
  }

  /** A peer with the id 0 is connected; a first handshake from its address with the id 4 is answered
      from that connection, though no connection there has the id 4. */
  lemma AnsweredForAnother(connected: bool)
    ensures var st := Three(Connection(9, 9, 1, CONNECTED, false));
            && Run(Initial(10), BOTH_LISTEN + [EHandshake(9, 5, 0, 0, true)]) == Some(st)
            && (forall u | u in st.store :: st.store[u].peerId == 0)
            && NewConnection(st, 9, 5, 4, 0, connected) == (st, 0)
  {
    TwoListeners();
    Connected();
    KeyZero();
    KeyLost(0, 0);
    FoundPrior(false);
    hide Apply, Run, LocatePeer, PeerKey, Establish, Replace;
    RunStep(Initial(10), BOTH_LISTEN, EHandshake(9, 5, 0, 0, true), Two(Listener(9, 1, {}), Listener(8, 2, {}), 1, 1));
  }

  const REPLACED: seq<Event> := BOTH_LISTEN + [EHandshake(9, 5, 0, 0, true)] + [EBreak(7)]
    + [EHandshake(8, 5, 0, 0, true)]

  /** Two listeners, a connection that breaks in the queue of the first, and a handshake of the same
      peer at the second: accept at the first hands out a connection that is not located. */
  lemma AcceptUnlocated()
    ensures Run(Initial(10), REPLACED).Some?
    ensures var st := Run(Initial(10), REPLACED).value;
            Accept(st, 9).1 == Some(7) && !Located(Accept(st, 9).0, 7)
  {
    TwoListeners();
    Connected();
    Broke();
    ReplacedElsewhere();
    hide Apply, Run, Least;
    var s6 := Two(Listener(9, 1, {}), Listener(8, 2, {}), 1, 1);
    RunStep(Initial(10), BOTH_LISTEN, EHandshake(9, 5, 0, 0, true), s6);
    var es7, s7 := BOTH_LISTEN + [EHandshake(9, 5, 0, 0, true)], Three(Connection(9, 9, 1, CONNECTED, false));
    RunStep(Initial(10), es7, EBreak(7), s7);
    var es8, s8 := es7 + [EBreak(7)], Three(Connection(9, 9, 1, CONNECTED, true));
    RunStep(Initial(10), es8, EHandshake(8, 5, 0, 0, true), s8);
    var st := Run(Initial(10), REPLACED).value;
    LeastOfOne(st.store[9].queued.value, 7);
  }

  lemma RolledBack()
    ensures var st := Apply(Two(Listener(9, 1, {}), Listener(8, 2, {}), 1, 1), EHandshake(9, 5, 0, 0, false));
            && st.lastId == 7 && st.store.Keys == {9, 8} && st.freed == []
            && st.store[9].muxId == 9 && st.store[8].muxId == 8
            && st.muxes == map[9 := MuxOf(1, 2), 8 := MuxOf(2, 1)]
  {
    hide Arrive, PeerKey, Least;
    KeyZero();
    Arrived();
    var s6 := Two(Listener(9, 1, {}), Listener(8, 2, {}), 1, 1);
    assert LocatePeer(s6, 5, 0) == None;
  }

  /** A listener and one handshake that fails in CUDT::connect: the multiplexer counts two sockets
      and is carried by one, and the id 7 has no object. */
  lemma CountedTwice()
    ensures var r := Run(Initial(10), BOTH_LISTEN + [EHandshake(9, 5, 0, 0, false)]);
            && r.Some? && 9 in r.value.muxes && r.value.muxes[9].refCount == 2 && |Carriers(r.value.store, 9)| == 1
            && r.value.lastId == 7 && 7 !in r.value.store && 7 !in r.value.freed
  {
    TwoListeners();
    RolledBack();
    hide Apply, Run;
    var s6 := Two(Listener(9, 1, {}), Listener(8, 2, {}), 1, 1);
    RunStep(Initial(10), BOTH_LISTEN, EHandshake(9, 5, 0, 0, false), s6);
    var st := Run(Initial(10), BOTH_LISTEN + [EHandshake(9, 5, 0, 0, false)]).value;
    assert Carriers(st.store, 9) == {9};
  }
}
