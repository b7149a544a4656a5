/** The slots of a socket pool, and the map from ids to sockets that they stand for. */
module SocketPoolState {
  import opened Numbers
  import opened Ordered

  /** A default-constructed socket, or one with an id; the handle is all the rest of it. */
  datatype Socket = Closed | Open(id: Id, handle: nat)
  datatype Kind = Accepted | Connected
  datatype Account = Account(sock: Socket, kind: Kind)

  /** The fields of the pool. The history: the highest number of sockets that were in it at once. */
  datatype Pool = Pool(free: set<nat>, accounts: seq<Account>, mapping: map<Id, nat>, removable: seq<Id>, peak: nat)

  predicate FreeInRange(p: Pool) {
    forall i | i in p.free :: i < |p.accounts|
  }

  /** Every id is mapped to a slot of its own, that is not free and holds its socket. */
  predicate Mapped(p: Pool) {
    forall id | id in p.mapping ::
      && p.mapping[id] < |p.accounts| && p.mapping[id] !in p.free
      && p.accounts[p.mapping[id]].sock.Open? && p.accounts[p.mapping[id]].sock.id == id
  }

  /** Every slot that is not free is the one its socket's id is mapped to. */
  predicate Used(p: Pool) {
    forall i | 0 <= i < |p.accounts| && i !in p.free ::
      var s := p.accounts[i].sock;
      s.Open? && s.id in p.mapping && p.mapping[s.id] == i
  }

  predicate Sized(p: Pool) {
    |p.accounts| == |p.free| + |p.mapping.Keys| == p.peak
  }

  predicate PoolOk(p: Pool) { FreeInRange(p) && Mapped(p) && Used(p) && Sized(p) }

  /** What the pool stands for. */
  function Live(p: Pool): (m: map<Id, Account>)
    requires Mapped(p)
    ensures m.Keys == p.mapping.Keys
  {
    map id | id in p.mapping :: p.accounts[p.mapping[id]]
  }

  // ---- Operations --------------------------------------------------------------------

  function Added(p: Pool, sock: Socket, kind: Kind): Pool
    requires FreeInRange(p) && sock.Open?
  {
    var i := if p.free == {} then |p.accounts| else Least(p.free);
    var mapping := p.mapping[sock.id := i];
    Pool(p.free - {i},
         if i == |p.accounts| then p.accounts + [Account(sock, kind)] else p.accounts[i := Account(sock, kind)],
         mapping, p.removable, Max(p.peak, |mapping.Keys|))
  }

  function RemovedOne(p: Pool, id: Id): Pool
    requires Mapped(p)
  {
    if id !in p.mapping then p
    else
      var i := p.mapping[id];
      p.(accounts := p.accounts[i := p.accounts[i].(sock := Closed)], free := p.free + {i}, mapping := p.mapping - {id})
  }

  function RemovedAll(p: Pool, ids: seq<Id>): (r: Pool)
    requires PoolOk(p)
    ensures PoolOk(r)
    decreases |ids|
  {
    if ids == [] then p else
    RemoveKeeps(p, ids[0]);
    RemovedAll(RemovedOne(p, ids[0]), ids[1..])
  }

  function RemoveLater(p: Pool, id: Id): Pool { p.(removable := p.removable + [id]) }

  function Applied(p: Pool): Pool
    requires PoolOk(p)
  {
    RemovedAll(p, p.removable).(removable := [])
  }

  // ---- What they keep ----------------------------------------------------------------

  lemma RemoveKeeps(p: Pool, id: Id)
    requires PoolOk(p)
    ensures PoolOk(RemovedOne(p, id)) && Live(RemovedOne(p, id)) == Live(p) - {id}
    ensures RemovedOne(p, id).removable == p.removable && RemovedOne(p, id).peak == p.peak
  {
    if id in p.mapping {
      var r := RemovedOne(p, id);
      RemoveMapped(p, id);
      assert r.mapping.Keys == p.mapping.Keys - {id};
      assert Live(r) == Live(p) - {id};
    } else {
      assert Live(p) - {id} == Live(p);
    }
  }

  lemma RemoveMapped(p: Pool, id: Id)
    requires Mapped(p) && Used(p) && FreeInRange(p) && id in p.mapping
    ensures Mapped(RemovedOne(p, id)) && Used(RemovedOne(p, id)) && FreeInRange(RemovedOne(p, id))
  {
    var r := RemovedOne(p, id);
    forall x | x in r.mapping ensures r.mapping[x] < |r.accounts| && r.mapping[x] !in r.free
      && r.accounts[r.mapping[x]] == p.accounts[p.mapping[x]]
    {
      assert p.accounts[p.mapping[x]].sock.id == x;
    }
  }

  /** With a fresh id, adding a socket is adding it to the map. */
  lemma AddInserts(p: Pool, sock: Socket, kind: Kind)
    requires PoolOk(p) && sock.Open? && sock.id !in p.mapping
    ensures PoolOk(Added(p, sock, kind))
    ensures Live(Added(p, sock, kind)) == Live(p)[sock.id := Account(sock, kind)]
  {
    hide Added, FreeInRange, Mapped, Used, Live, Sized;
    AddMapped(p, sock, kind);
    AddUsed(p, sock, kind);
    AddSized(p, sock, kind);
    AddLive(p, sock, kind);
  }

  lemma AddSized(p: Pool, sock: Socket, kind: Kind)
    requires FreeInRange(p) && Sized(p) && sock.Open? && sock.id !in p.mapping
    ensures Sized(Added(p, sock, kind))
  {
    assert Added(p, sock, kind).mapping.Keys == p.mapping.Keys + {sock.id};
    if p.free != {} { assert |p.free - {Least(p.free)}| == |p.free| - 1; }
  }

  /** A socket with a fresh id gets the lowest free slot, or a new one at the end if none is free; every
      other slot and id is as it was. */
  lemma SlotLaw(p: Pool, sock: Socket, kind: Kind)
    requires PoolOk(p) && sock.Open? && sock.id !in p.mapping
    ensures var r := Added(p, sock, kind);
            && sock.id in r.mapping && r.mapping == p.mapping[sock.id := r.mapping[sock.id]]
            && var i := r.mapping[sock.id];
               && (if p.free == {} then i == |p.accounts| else IsLeast(i, p.free)) && r.free == p.free - {i}
               && |r.accounts| == |p.accounts| + (if p.free == {} then 1 else 0)
               && i < |r.accounts| && r.accounts[i] == Account(sock, kind)
               && forall k | 0 <= k < |p.accounts| && k != i :: r.accounts[k] == p.accounts[k]
  {
  }

  /** The sockets that are in the pool already stay where they are. */
  lemma AddedBeside(p: Pool, sock: Socket, kind: Kind, x: Id)
    requires FreeInRange(p) && Mapped(p) && sock.Open? && x in p.mapping && x != sock.id
    ensures var r := Added(p, sock, kind);
            && x in r.mapping && r.mapping[x] == p.mapping[x] < |p.accounts| <= |r.accounts|
            && r.mapping[x] !in r.free && r.accounts[r.mapping[x]] == p.accounts[p.mapping[x]]
  {
    assert p.mapping[x] !in p.free;
  }

  lemma AddMapped(p: Pool, sock: Socket, kind: Kind)
    requires FreeInRange(p) && Mapped(p) && sock.Open?
    ensures Mapped(Added(p, sock, kind))
  {
    hide Added;
    var r := Added(p, sock, kind);
    AddedItself(p, sock, kind);
    forall x | x in r.mapping && x != sock.id
      ensures r.mapping[x] == p.mapping[x] < |r.accounts|
      ensures r.mapping[x] !in r.free && r.accounts[p.mapping[x]] == p.accounts[p.mapping[x]]
    {
      AddedBeside(p, sock, kind, x);
    }
  }

  lemma AddUsed(p: Pool, sock: Socket, kind: Kind)
    requires FreeInRange(p) && Mapped(p) && Used(p) && sock.Open? && sock.id !in p.mapping
    ensures FreeInRange(Added(p, sock, kind)) && Used(Added(p, sock, kind))
  {
    var r := Added(p, sock, kind);
    forall i | 0 <= i < |r.accounts| && i !in r.free && i != r.mapping[sock.id]
      ensures i < |p.accounts| && i !in p.free && r.accounts[i] == p.accounts[i]
    {
    }
  }

  lemma AddLive(p: Pool, sock: Socket, kind: Kind)
    requires FreeInRange(p) && Mapped(p) && sock.Open? && sock.id !in p.mapping && Mapped(Added(p, sock, kind))
    ensures Live(Added(p, sock, kind)) == Live(p)[sock.id := Account(sock, kind)]
  {
    hide Added, Live, Mapped, FreeInRange;
    var r := Added(p, sock, kind);
    var m := Live(p)[sock.id := Account(sock, kind)];
    AddedItself(p, sock, kind);
    LiveAt(r, sock.id);
    forall x | x in p.mapping && x != sock.id ensures Live(r)[x] == m[x] {
      AddedBeside(p, sock, kind, x);
      LiveAt(p, x);
      LiveAt(r, x);
    }
    assert Live(r).Keys == m.Keys;
  }

  lemma AddedItself(p: Pool, sock: Socket, kind: Kind)
    requires FreeInRange(p) && sock.Open?
    ensures var r := Added(p, sock, kind);
            && r.mapping.Keys == p.mapping.Keys + {sock.id} && r.mapping[sock.id] < |r.accounts|
            && r.mapping[sock.id] !in r.free && r.accounts[r.mapping[sock.id]] == Account(sock, kind)
  {
  }

  lemma LiveAt(p: Pool, id: Id)
    requires Mapped(p) && id in p.mapping
    ensures id in Live(p) && p.mapping[id] < |p.accounts| && Live(p)[id] == p.accounts[p.mapping[id]]
  {
  }

  /** Adding keeps the pool in order if and only if the id is fresh: otherwise the slot of the
      older socket of that id is neither free nor anyone's. */
  lemma AddKeepsExactly(p: Pool, sock: Socket, kind: Kind)
    requires PoolOk(p) && sock.Open?
    ensures PoolOk(Added(p, sock, kind)) <==> sock.id !in p.mapping
  {
    if sock.id in p.mapping {
      var i, r := p.mapping[sock.id], Added(p, sock, kind);
      assert i !in r.free && r.mapping[sock.id] != i && r.accounts[i] == p.accounts[i];
    } else {
      AddInserts(p, sock, kind);
    }
  }

  /** Removals, of whatever ids and however often, take exactly their ids out of the map. */
  lemma {:induction false} RemovedAllIs(p: Pool, ids: seq<Id>)
    requires PoolOk(p)
    ensures Live(RemovedAll(p, ids)) == Live(p) - Listed(ids)
    ensures RemovedAll(p, ids).removable == p.removable && RemovedAll(p, ids).peak == p.peak
    decreases |ids|
  {
    hide RemovedOne, Live, FreeInRange, Mapped, Used, Sized;
    if ids == [] {
      ErasedInTwo(Live(p), 0, {});
      assert Listed(ids) == {};
    } else {
      RemoveKeeps(p, ids[0]);
      RemovedAllIs(RemovedOne(p, ids[0]), ids[1..]);
      assert Listed(ids) == {ids[0]} + Listed(ids[1..]);
      ErasedInTwo(Live(p), ids[0], Listed(ids[1..]));
    }
  }

  lemma LaterKeeps(p: Pool, id: Id)
    requires PoolOk(p)
    ensures PoolOk(RemoveLater(p, id)) && Live(RemoveLater(p, id)) == Live(p)
  {
  }

  lemma AppliedIs(p: Pool)
    requires PoolOk(p)
    ensures PoolOk(Applied(p)) && Live(Applied(p)) == Live(p) - Listed(p.removable)
  {
    RemovedAllIs(p, p.removable);
    var r := RemovedAll(p, p.removable);
    SameSlots(r, r.(removable := []));
  }

  lemma SameSlots(p: Pool, r: Pool)
    requires PoolOk(p) && r == p.(removable := r.removable)
    ensures PoolOk(r) && Live(r) == Live(p)
  {
  }

  // ---- Runs --------------------------------------------------------------------------

  datatype Event = Add(sock: Socket, kind: Kind) | Later(id: Id) | Apply

  /** The callers add open sockets, with ids that are not in the pool. */
  predicate Enabled(p: Pool, e: Event) {
    e.Add? ==> e.sock.Open? && e.sock.id !in p.mapping
  }

  function Step(p: Pool, e: Event): (r: Pool)
    requires PoolOk(p) && Enabled(p, e)
    ensures PoolOk(r)
  {
    match e
    case Add(sock, kind) => AddInserts(p, sock, kind); Added(p, sock, kind)
    case Later(id) => LaterKeeps(p, id); RemoveLater(p, id)
    case Apply => AppliedIs(p); Applied(p)
  }

  datatype Trace = Stuck | Reached(pools: seq<Pool>)

  /** The pools of a run, the last one at the end. */
  function Run(p: Pool, es: seq<Event>): (t: Trace)
    requires PoolOk(p)
    ensures t.Reached? ==> |t.pools| == |es| + 1 && t.pools[0] == p
    ensures t.Reached? ==> forall i | 0 <= i < |t.pools| :: PoolOk(t.pools[i])
    decreases |es|
  {
    if es == [] then Reached([p])
    else if !Enabled(p, es[0]) then Stuck
    else
      var rest := Run(Step(p, es[0]), es[1..]);
      if rest.Stuck? then Stuck else Reached([p] + rest.pools)
  }

  lemma StepGrows(p: Pool, e: Event)
    requires PoolOk(p) && Enabled(p, e)
    ensures |p.accounts| <= |Step(p, e).accounts|
    ensures |Step(p, e).accounts| == Max(|p.accounts|, |Step(p, e).mapping.Keys|)
  {
    hide FreeInRange, Mapped, Used, Live;
    hide Added, Applied, RemovedAll;
    match e
    case Add(sock, kind) => AddGrows(p, sock, kind);
    case Later(id) =>
    case Apply => ApplyGrows(p);
  }

  lemma AddGrows(p: Pool, sock: Socket, kind: Kind)
    requires FreeInRange(p) && Sized(p) && sock.Open? && sock.id !in p.mapping
    ensures var r := Added(p, sock, kind);
            |p.accounts| <= |r.accounts| == Max(|p.accounts|, |r.mapping.Keys|)
  {
    AddSized(p, sock, kind);
  }

  lemma ApplyGrows(p: Pool)
    requires PoolOk(p)
    ensures |Applied(p).accounts| == |p.accounts| >= |Applied(p).mapping.Keys|
  {
    RemovedAllIs(p, p.removable);
    hide FreeInRange, Mapped, Used, Live;
  }

  /** The highest number of sockets in any of the pools. */
  function MostLive(pools: seq<Pool>): (n: nat)
    requires pools != []
    ensures forall i | 0 <= i < |pools| :: |pools[i].mapping.Keys| <= n
    ensures exists i | 0 <= i < |pools| :: |pools[i].mapping.Keys| == n
    decreases |pools|
  {
    if |pools| == 1 then |pools[0].mapping.Keys| else Max(|pools[0].mapping.Keys|, MostLive(pools[1..]))
  }

  /** However many sockets come and go: the slots of a pool are exactly as many as the sockets that
      were ever in it at once, or as it had to begin with. */
  lemma {:induction false} SlotsArePeak(p: Pool, es: seq<Event>)
    requires PoolOk(p) && Run(p, es).Reached?
    ensures var t := Run(p, es).pools; |t[|es|].accounts| == Max(|p.accounts|, MostLive(t))
    decreases |es|
  {
    hide FreeInRange, Mapped, Used;
    if es != [] {
      var q := Step(p, es[0]);
      StepGrows(p, es[0]);
      hide Step;
      SlotsArePeak(q, es[1..]);
      var t, u := Run(p, es).pools, Run(q, es[1..]).pools;
      assert t == [p] + u && t[1..] == u;
      assert MostLive(t) == Max(|p.mapping.Keys|, MostLive(u));
      assert |q.mapping.Keys| <= MostLive(u) by { assert u[0] == q; }
    }
  }
}
