/** How sockets end: what a collection and the shutdown close and delete, told by their fields. */
module UdtEndings {
  import opened Ordered
  import opened UdtState
  import opened UdtInvariant
  import opened UdtSteps
  import opened UdtCollect
  import opened UdtTheorems
  import opened UdtLaws

  // ---- A collection ------------------------------------------------------------------

  /** The open sockets that are broken and not kept back. */
  function Doomed(st: State, keep: set<Id>): set<Id> {
    set u | u in st.sockets && u in st.store && st.store[u].broken && u !in keep
  }

  /** Closed, or to be closed by this collection, and old enough to be deleted by it. */
  predicate Reaped(st: State, keep: set<Id>, reap: set<Id>, u: Id) {
    u in reap && (u in st.closed || u in Doomed(st, keep))
  }

  /** Left in the queue of a listener that is deleted. */
  ghost predicate Stranded(st: State, keep: set<Id>, reap: set<Id>, u: Id) {
    u !in Doomed(st, keep) && exists L :: Reaped(st, keep, reap, L) && HasQueued(st, L, u)
  }

  predicate HasQueued(st: State, L: Id, u: Id) {
    L in st.store && st.store[L].queued.Some? && u in st.store[L].queued.value
  }

  /** What a listener keeps of a queue. */
  function Kept(st: State, gone: set<Id>, L: Id, q: Option<set<Id>>): Option<set<Id>> {
    if q.None? then None
    else Some(set u | u in q.value && !(u in gone && u in st.store && st.store[u].listener == L))
  }

  /** Exactly the closed and the doomed sockets that are old enough are deleted; the other doomed ones are
      closed, and so is what a deleted listener had in its queue; every other socket stays open, but for
      its queues as it was. */
  ghost predicate Collects(st: State, keep: set<Id>, reap: set<Id>, st': State) {
    && (forall u :: u in st'.freed <==> u in st.freed || Reaped(st, keep, reap, u))
    && (forall u :: u in st'.sockets <==>
          u in st.sockets && u !in Doomed(st, keep) && !Stranded(st, keep, reap, u))
    && (forall u :: u in st'.closed <==>
          !Reaped(st, keep, reap, u) && (u in st.closed || u in Doomed(st, keep) || Stranded(st, keep, reap, u)))
    && (forall u | u in st'.sockets :: u in st.store && u in st'.store &&
          var s := st.store[u];
          st'.store[u] == s.(queued := Kept(st, Doomed(st, keep), u, s.queued),
                             accepted := Kept(st, Doomed(st, keep), u, s.accepted)))
    && st'.lastId == st.lastId && st'.handedOut == st.handedOut && st'.rolledBack == st.rolledBack
  }

  /** x is in the queue of one of us. */
  ghost predicate InQueueOf(st: State, us: seq<Id>, x: Id) {
    exists L :: L in us && HasQueued(st, L, x)
  }

  lemma RemoveOne(st: State, u: Id)
    requires st.store.Keys == st.sockets + st.closed && st.sockets !! st.closed && u in st.closed
    requires forall x | HasQueued(st, u, x) :: x in st.sockets
    ensures var r := RemoveSocket(st, u);
            && r.store.Keys == r.sockets + r.closed && r.sockets !! r.closed
            && r.freed == st.freed + [u]
            && (forall x :: x in r.sockets <==> x in st.sockets && !HasQueued(st, u, x))
            && (forall x :: x in r.closed <==> x != u && (x in st.closed || HasQueued(st, u, x)))
            && (forall x | x in r.sockets :: r.store[x] == st.store[x])
            && (forall L, x | L in r.store :: HasQueued(r, L, x) <==> HasQueued(st, L, x))
            && r.lastId == st.lastId && r.handedOut == st.handedOut && r.rolledBack == st.rolledBack
  {
    hide Unrecord, Release;
  }

  lemma QueueIsOpen(st: State, u: Id)
    requires Invariant(st) && u in st.closed
    ensures st.store.Keys == st.sockets + st.closed && st.sockets !! st.closed
    ensures forall x | HasQueued(st, u, x) :: x in st.sockets && x in st.store && st.store[x].listener == u
  {
    AboutSocket(st, u);
    QueuedAreOpen(st, u);
  }

  /** What the states before and after the deletion of us have to do with each other. */
  ghost predicate Deletes(st: State, us: seq<Id>, r: State) {
    && (forall x :: x in r.freed <==> x in st.freed || x in us)
    && (forall x :: x in r.sockets <==> x in st.sockets && !InQueueOf(st, us, x))
    && (forall x :: x in r.closed <==> x !in us && (x in st.closed || InQueueOf(st, us, x)))
    && (forall x | x in r.sockets :: x in st.store && x in r.store && r.store[x] == st.store[x])
    && r.lastId == st.lastId && r.handedOut == st.handedOut && r.rolledBack == st.rolledBack
  }

  lemma {:induction false} RemoveAllEffect(st: State, us: seq<Id>)
    requires Invariant(st) && Distinct(us) && forall u | u in us :: u in st.closed
    ensures Deletes(st, us, RemoveAll(st, us))
    decreases |us|
  {
    hide Invariant, RemoveSocket, HasQueued, InQueueOf, Deletes, Distinct;
    if us == [] {
      DeletesNone(st);
    } else {
      var u, rest, st1 := us[0], us[1..], RemoveSocket(st, us[0]);
      QueueIsOpen(st, u);
      RemoveOne(st, u);
      RemoveSocketKeeps(st, u);
      RestIsClosed(st, us);
      RemoveAllEffect(st1, rest);
      QueuesInTwo(st, st1, us);
      QueuesAreOpen(st1, rest);
      DeletesInTwo(st, st1, us, RemoveAll(st1, rest));
    }
  }

  lemma DeletesNone(st: State)
    requires Invariant(st)
    ensures Deletes(st, [], st)
  {
    InvariantLife(st);
    hide Invariant;
  }

  lemma QueuesAreOpen(st: State, us: seq<Id>)
    requires Invariant(st) && forall u | u in us :: u in st.closed
    ensures forall x | InQueueOf(st, us, x) :: x in st.sockets
  {
    hide Invariant, HasQueued;
    forall u | u in us ensures forall x | HasQueued(st, u, x) :: x in st.sockets { QueueIsOpen(st, u); }
  }

  lemma RestIsClosed(st: State, us: seq<Id>)
    requires us != [] && Distinct(us) && forall u | u in us :: u in st.closed
    ensures Distinct(us[1..]) && forall u | u in us[1..] :: u in st.closed && u != us[0]
  {
    forall u | u in us[1..] ensures u != us[0] && u in us {
      var i :| 0 <= i < |us| - 1 && us[1..][i] == u;
      assert us[i + 1] == u;
    }
  }

  lemma QueuesInTwo(st: State, st1: State, us: seq<Id>)
    requires us != [] && us[0] in st.closed
    requires forall u | u in us[1..] :: u in st1.store
    requires forall L, x | L in st1.store :: HasQueued(st1, L, x) <==> HasQueued(st, L, x)
    ensures forall x :: InQueueOf(st, us, x) <==> HasQueued(st, us[0], x) || InQueueOf(st1, us[1..], x)
  {
    hide HasQueued;
    assert us == [us[0]] + us[1..];
    forall x ensures InQueueOf(st, us, x) <==> HasQueued(st, us[0], x) || InQueueOf(st1, us[1..], x) {
      if HasQueued(st, us[0], x) { assert us[0] in us; }
      if InQueueOf(st1, us[1..], x) {
        var L :| L in us[1..] && HasQueued(st1, L, x);
        assert L in us && HasQueued(st, L, x);
      }
    }
  }

  lemma DeletesInTwo(st: State, st1: State, us: seq<Id>, r: State)
    requires us != [] && us[0] in st.closed && st.sockets !! st.closed
    requires (forall u | u in us :: u in st.closed) && (forall x | HasQueued(st, us[0], x) :: x in st.sockets)
    requires st1.freed == st.freed + [us[0]]
    requires forall x :: x in st1.sockets <==> x in st.sockets && !HasQueued(st, us[0], x)
    requires forall x :: x in st1.closed <==> x != us[0] && (x in st.closed || HasQueued(st, us[0], x))
    requires forall x | x in st1.sockets :: x in st.store && x in st1.store && st1.store[x] == st.store[x]
    requires st1.lastId == st.lastId && st1.handedOut == st.handedOut && st1.rolledBack == st.rolledBack
    requires Deletes(st1, us[1..], r) && us[0] !in us[1..]
    requires forall x :: InQueueOf(st, us, x) <==> HasQueued(st, us[0], x) || InQueueOf(st1, us[1..], x)
    requires forall x | InQueueOf(st1, us[1..], x) :: x in st1.sockets
    ensures Deletes(st, us, r)
  {
    hide HasQueued, InQueueOf;
    assert us == [us[0]] + us[1..];
    assert forall x :: x in us <==> x == us[0] || x in us[1..];
  }

  /** The state in which the doomed sockets have been closed, and none deleted. */
  ghost predicate Closes(st: State, gone: set<Id>, r: State) {
    && r.sockets == st.sockets - gone && r.closed == st.closed + gone && r.freed == st.freed
    && r.lastId == st.lastId && r.handedOut == st.handedOut && r.rolledBack == st.rolledBack
    && r.store.Keys == st.store.Keys
    && forall u | u in st.store ::
         var s, t := st.store[u], r.store[u];
         && t.queued == Kept(st, gone, u, s.queued) && t.accepted == Kept(st, gone, u, s.accepted)
         && (u !in gone ==> t == s.(queued := t.queued, accepted := t.accepted))
  }

  lemma WithoutIsKept(st: State, gone: set<Id>, u: Id, q: Option<set<Id>>)
    ensures Without(q, Children(st, gone, u)) == Kept(st, gone, u, q)
  {
    if q.Some? { assert q.value - Children(st, gone, u) == Kept(st, gone, u, q).value; }
  }

  lemma CloseAllEffect(st: State, gone: set<Id>, breaking: bool)
    ensures Closes(st, gone, CloseAll(st, gone, breaking))
  {
    hide Children, Kept, Without;
    CloseAllKeys(st, gone, breaking);
    forall u | u in st.store
      ensures Without(st.store[u].queued, Children(st, gone, u)) == Kept(st, gone, u, st.store[u].queued)
      ensures Without(st.store[u].accepted, Children(st, gone, u)) == Kept(st, gone, u, st.store[u].accepted)
    {
      WithoutIsKept(st, gone, u, st.store[u].queued);
      WithoutIsKept(st, gone, u, st.store[u].accepted);
    }
  }

  /** In the queue of a socket after the doomed ones have been closed. */
  lemma QueuedAfter(st: State, gone: set<Id>, r: State, L: Id, x: Id)
    requires Invariant(st) && Closes(st, gone, r)
    ensures HasQueued(r, L, x) <==> HasQueued(st, L, x) && x !in gone
  {
    if L in st.store {
      AboutSocket(st, L);
      AcceptedThere(st, L);
      hide Invariant;
    }
  }

  lemma CollectEffect(st: State, keep: set<Id>, reap: set<Id>)
    requires Invariant(st)
    ensures Collects(st, keep, reap, Collect(st, keep, reap))
  {
    hide Invariant, CloseAll, RemoveAll, HasQueued, Kept;
    var gone := Doomed(st, keep);
    assert gone == Broken(st, keep);
    var st1 := CloseAll(st, gone, false);
    var us := Ascending(reap * st1.closed);
    CloseAllKeeps(st, gone, false);
    CloseAllEffect(st, gone, false);
    AscendingDistinct(reap * st1.closed);
    RemoveAllEffect(st1, us);
    forall x ensures InQueueOf(st1, us, x) <==> Stranded(st, keep, reap, x) {
      StrandedIs(st, keep, reap, st1, us, x);
    }
    hide Closes, InQueueOf, Stranded;
    CollectsWhole(st, keep, reap, st1, us, RemoveAll(st1, us));
  }

  lemma AscendingDistinct(s: set<Id>)
    ensures Distinct(Ascending(s))
  {
    AscendingSorted(s);
  }

  lemma StrandedIs(st: State, keep: set<Id>, reap: set<Id>, st1: State, us: seq<Id>, x: Id)
    requires Invariant(st) && Closes(st, Doomed(st, keep), st1)
    requires forall u :: u in us <==> u in reap && u in st1.closed
    ensures InQueueOf(st1, us, x) <==> Stranded(st, keep, reap, x)
  {
    hide Invariant, HasQueued, Kept;
    forall L ensures HasQueued(st1, L, x) <==> HasQueued(st, L, x) && x !in Doomed(st, keep) {
      QueuedAfter(st, Doomed(st, keep), st1, L, x);
    }
    forall u ensures u in us <==> Reaped(st, keep, reap, u) { }
    hide Closes, Doomed;
  }

  lemma CollectsWhole(st: State, keep: set<Id>, reap: set<Id>, st1: State, us: seq<Id>, r: State)
    requires Closes(st, Doomed(st, keep), st1) && Deletes(st1, us, r)
    requires forall u :: u in us <==> u in reap && u in st1.closed
    requires forall x :: InQueueOf(st1, us, x) <==> Stranded(st, keep, reap, x)
    ensures Collects(st, keep, reap, r)
  {
    hide InQueueOf, Stranded, Kept;
  }

  /** A collection does exactly that, on every run. */
  lemma CollectLaw(seed: Id, es: seq<Event>, st: State, keep: set<Id>, reap: set<Id>, st': State)
    requires Leads(seed, es, st, ECollect(keep, reap), st')
    ensures Collects(st, keep, reap, st')
  {
    hide Collects, Collect, Run, Invariant;
    LeadsBy(seed, es, st, ECollect(keep, reap), st');
    RunKeeps(seed, es);
    CollectEffect(st, keep, reap);
  }

  ghost predicate Shuts(st: State, st': State) {
    && st' == st.(store := st'.store, sockets := {}, closed := st.sockets + st.closed)
    && st'.store.Keys == st.store.Keys
    && (forall u | u in st.sockets :: u in st'.store && st'.store[u].status == CLOSED && st'.store[u].broken)
    && forall u | u in st'.store && st'.store[u].queued.Some? :: st'.store[u].queued.value == {}
  }

  lemma ShutdownEffect(st: State)
    requires Invariant(st)
    ensures Shuts(st, Shutdown(st))
  {
    ShutdownEmpties(st);
    InvariantLife(st);
    CloseAllKeys(st, st.sockets, true);
    hide Invariant, Children, Without;
    forall u | u in Shutdown(st).store && Shutdown(st).store[u].queued.Some?
      ensures Shutdown(st).store[u].queued.value == {}
    {
      assert QueueSet(Shutdown(st).store[u]) == {};
    }
  }

  /** The shutdown breaks and closes every open socket, and takes everything off the queues. */
  lemma ShutdownLaw(seed: Id, es: seq<Event>, st: State, st': State)
    requires Leads(seed, es, st, EShutdown, st')
    ensures Shuts(st, st')
  {
    hide Run, Invariant, Shuts, Shutdown;
    LeadsBy(seed, es, st, EShutdown, st');
    RunKeeps(seed, es);
    ShutdownEffect(st);
  }

  // ---- From close to the end ---------------------------------------------------------

  /** A socket that is closed, by whoever got it, is deleted by the second collection from then on, if
      the first one keeps nothing back and the second finds it old enough. */
  lemma ClosedIsDeleted(seed: Id, es: seq<Event>, st: State, u: Id, r1: set<Id>, keep: set<Id>, r2: set<Id>, st': State)
    requires seed > 0 && Run(Initial(seed), es) == Some(st) && IsOpen(st, u) && u in r2
    requires Run(Initial(seed), es + [EClose(u)] + [ECollect({}, r1)] + [ECollect(keep, r2)]) == Some(st')
    ensures u in st'.freed
  {
    hide Run, Collects, Invariant;
    var es1, es2 := es + [EClose(u)], es + [EClose(u)] + [ECollect({}, r1)];
    var st2 := RunBefore(seed, es2, ECollect(keep, r2), st');
    var st1 := RunBefore(seed, es1, ECollect({}, r1), st2);
    CloseLaw(seed, es, st, u, st1);
    CollectLaw(seed, es1, st1, {}, r1, st2);
    CollectLaw(seed, es2, st2, keep, r2, st');
    CollectedOnce(st1, r1, st2, u);
    CollectedTwice(st2, keep, r2, st', u);
  }

  lemma RunBefore(seed: Id, es: seq<Event>, e: Event, st': State) returns (st: State)
    requires seed > 0 && Run(Initial(seed), es + [e]) == Some(st')
    ensures Leads(seed, es, st, e, st')
  {
    assert (es + [e])[..|es + [e]| - 1] == es;
    st := Run(Initial(seed), es).value;
  }

  lemma CollectedOnce(st: State, reap: set<Id>, st': State, u: Id)
    requires Collects(st, {}, reap, st') && (u in st.closed || (u in st.sockets && u in st.store && st.store[u].broken))
    ensures u in st'.freed || u in st'.closed
  {
    hide Stranded;
  }

  lemma CollectedTwice(st: State, keep: set<Id>, reap: set<Id>, st': State, u: Id)
    requires Collects(st, keep, reap, st') && u in reap && (u in st.freed || u in st.closed)
    ensures u in st'.freed
  {
    hide Stranded;
  }
}
