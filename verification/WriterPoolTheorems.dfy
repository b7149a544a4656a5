/** What a writer pool keeps over every run. */
module WriterPoolTheorems {
  import opened Octets
  import opened Ordered
  import opened WriterQueues
  import opened WriterPoolState

  // ---- The invariant -----------------------------------------------------------------

  /** What has been sent and what is still pending make up what was enqueued, and an account that
      cannot be written is watched by the poller. */
  predicate AccountOk(p: Pool, id: Id)
    requires id in p.accounts && id in p.given && id in p.sent
  {
    var acc := p.accounts[id];
    && acc.id == id && ValidQueue(acc.q)
    && p.sent[id] + Pending(acc.q) == p.given[id]
    && (acc.writable || id in p.waiting)
  }

  predicate AccountsOk(p: Pool) {
    && p.given.Keys == p.accounts.Keys && p.sent.Keys == p.accounts.Keys
    && forall id | id in p.accounts :: AccountOk(p, id)
  }

  function AllPending(p: Pool): nat
    requires AllValid(p.accounts)
  {
    Total(p.accounts.Keys, p.accounts)
  }

  /** The counter is what was enqueued less what was sent, modulo the word; nothing is lost. */
  predicate Counted(p: Pool)
    requires AllValid(p.accounts)
  {
    && p.allGiven == p.allSent + AllPending(p) + p.dropped
    && RemainIs(p.remain, p.allGiven - p.allSent)
  }

  predicate RemainIs(remain: nat, n: int) { remain == n % WORD }

  predicate PoolOk(p: Pool) { AllValid(p.accounts) && AccountsOk(p) && Counted(p) }

  // ---- Every step keeps it -----------------------------------------------------------

  lemma EmptyOk(p: Pool)
    requires IsEmpty(p)
    ensures PoolOk(p)
  {
    assert AllPending(p) == 0;
  }

  lemma WrapAdd(a: int, n: int)
    ensures (a % WORD + n) % WORD == (a + n) % WORD
  {
    var k := a / WORD;
    assert a == a % WORD + k * WORD;
    WrapTurns(a % WORD + n, k);
  }

  lemma RemainAdd(remain: nat, n: int, d: int)
    requires RemainIs(remain, n)
    ensures RemainIs((remain + d) % WORD, n + d)
  {
    WrapAdd(n, d);
  }

  /** An account that a step leaves alone. */
  lemma Untouched(p: Pool, r: Pool, x: Id)
    requires x in p.accounts && x in p.given && x in p.sent && AccountOk(p, x)
    requires x in r.accounts && x in r.given && x in r.sent
    requires r.accounts[x] == p.accounts[x] && r.given[x] == p.given[x] && r.sent[x] == p.sent[x]
    requires x in p.waiting ==> x in r.waiting
    ensures AccountOk(r, x)
  {
  }

  lemma WrapTurns(x: int, k: int)
    ensures (x + k * WORD) % WORD == x % WORD
  {
    var r, t := x % WORD, x / WORD;
    assert x + k * WORD == r + (t + k) * WORD;
    WrapUnique(x + k * WORD, r, t + k);
  }

  lemma WrapUnique(y: int, r: nat, t: int)
    requires y == r + t * WORD && r < WORD
    ensures y % WORD == r
  {
    var d := y / WORD - t;
    assert y == y % WORD + (y / WORD) * WORD;
    assert r - y % WORD == d * WORD;
  }

  lemma EnsuredKeeps(p: Pool, id: Id, frameSize: nat)
    requires PoolOk(p)
    ensures PoolOk(Ensured(p, id, frameSize))
  {
    hide Total, RemainIs, AllValid, AccountOk, AllPending;
    if id !in p.accounts {
      var r := Ensured(p, id, frameSize);
      NewAccount(p, id, frameSize);
      forall x | x in r.accounts ensures AccountOk(r, x) {
        if x != id { Untouched(p, r, x); }
      }
    }
  }

  lemma NewAccount(p: Pool, id: Id, frameSize: nat)
    requires AllValid(p.accounts) && id !in p.accounts
    ensures var r := Ensured(p, id, frameSize);
            AllValid(r.accounts) && AllPending(r) == AllPending(p) && AccountOk(r, id)
  {
    hide Total;
    TotalUpdate(p.accounts, id, Account(id, false, frameSize, []));
  }

  /** A change to one account leaves the others in order. */
  lemma OneAccount(p: Pool, r: Pool, id: Id, acc: Account, given: Bytes, sent: Bytes)
    requires PoolOk(p) && id in p.accounts
    requires r.accounts == p.accounts[id := acc] && r.given == p.given[id := given] && r.sent == p.sent[id := sent]
    requires acc.id == id && ValidQueue(acc.q) && sent + Pending(acc.q) == given
    requires (acc.writable || id in r.waiting) && p.waiting <= r.waiting + {id}
    ensures AllValid(r.accounts) && AccountsOk(r)
    ensures AllPending(r) == AllPending(p) - |Pending(p.accounts[id].q)| + |Pending(acc.q)|
  {
    hide Total, Pending, ValidQueue, RemainIs;
    TotalUpdate(p.accounts, id, acc);
    assert AccountOk(r, id);
    forall x | x in r.accounts ensures AccountOk(r, x) {
      if x != id { Untouched(p, r, x); }
    }
  }

  lemma EnqueuedKeeps(p: Pool, id: Id, data: Bytes)
    requires PoolOk(p)
    ensures PoolOk(EnqueuedTo(p, id, data))
  {
    hide Ensured, Appended, PoolOk;
    if data != [] {
      EnsuredKeeps(p, id, DEFAULT_FRAME_SIZE);
      AppendedKeeps(Ensured(p, id, DEFAULT_FRAME_SIZE), id, data);
    }
  }

  lemma AppendedKeeps(p: Pool, id: Id, data: Bytes)
    requires PoolOk(p) && id in p.accounts
    ensures PoolOk(Appended(p, id, data))
  {
    hide Total, Pending, Enqueued, RemainIs;
    var q, r := p.accounts[id].q, Appended(p, id, data);
    assert AccountOk(p, id);
    EnqueueAppends(q, data);
    RemainAdd(p.remain, p.allGiven - p.allSent, |data|);
    AppendedParts(p, id, data);
    OneAccount(p, r, id, r.accounts[id], r.given[id], p.sent[id]);
  }

  lemma AppendedParts(p: Pool, id: Id, data: Bytes)
    requires id in p.accounts && id in p.given && id in p.sent && AccountOk(p, id)
    ensures var r, q := Appended(p, id, data), p.accounts[id].q;
            && r.accounts == p.accounts[id := p.accounts[id].(q := Enqueued(q, data))]
            && r.given == p.given[id := p.sent[id] + (Pending(q) + data)] && r.sent == p.sent[id := p.sent[id]]
            && r.waiting == p.waiting
  {
    hide Pending, Enqueued, ValidQueue;
    var q := p.accounts[id].q;
    assert p.sent[id] + (Pending(q) + data) == (p.sent[id] + Pending(q)) + data;
  }

  lemma FlagKeeps(p: Pool, r: Pool, id: Id, writable: bool)
    requires PoolOk(p) && id in p.accounts
    requires r == p.(accounts := p.accounts[id := p.accounts[id].(writable := writable)], waiting := r.waiting)
    requires p.waiting <= r.waiting + {id} && (writable || id in r.waiting)
    ensures PoolOk(r)
  {
    hide Total, Pending, RemainIs;
    assert AccountOk(p, id);
    assert r.given == p.given[id := p.given[id]] && r.sent == p.sent[id := p.sent[id]];
    OneAccount(p, r, id, p.accounts[id].(writable := writable), p.given[id], p.sent[id]);
  }

  lemma CanWriteKeeps(p: Pool, id: Id)
    requires PoolOk(p)
    ensures PoolOk(CanWrite(p, id))
  {
    hide Total, Pending, RemainIs;
    var r := CanWrite(p, id);
    if id in p.accounts {
      FlagKeeps(p, r, id, true);
    } else {
      assert r.accounts == p.accounts;
      forall x | x in r.accounts ensures AccountOk(r, x) { Untouched(p, r, x); }
    }
  }

  lemma AdvancedKeeps(p: Pool, id: Id, n: nat)
    requires PoolOk(p) && id in p.accounts && p.accounts[id].q != []
    requires n <= |p.accounts[id].q[0].b| - p.accounts[id].q[0].cursor
    ensures n <= |Pending(p.accounts[id].q)| && PoolOk(Advanced(p, id, n))
  {
    hide Total, Pending, Shifted, RemainIs;
    var q := p.accounts[id].q;
    assert AccountOk(p, id);
    ShiftDrops(q, n);
    RemainAdd(p.remain, p.allGiven - p.allSent, 0 - n);
    MovedAlong(p.sent[id], Pending(q), n);
    var r := Advanced(p, id, n);
    assert r.given == p.given[id := p.given[id]];
    OneAccount(p, r, id, p.accounts[id].(q := Shifted(q, n)), p.given[id], p.sent[id] + Pending(q)[..n]);
    hide AccountOk;
    assert Counted(r);
  }

  lemma MovedAlong(a: Bytes, b: Bytes, n: nat)
    requires n <= |b|
    ensures (a + b[..n]) + b[n..] == a + b
  {
  }

  lemma LaterKeeps(p: Pool, id: Id)
    requires PoolOk(p)
    ensures PoolOk(RemoveLater(p, id))
  {
    hide Total, Pending, RemainIs;
    var r := RemoveLater(p, id);
    forall x | x in r.accounts ensures AccountOk(r, x) { Untouched(p, r, x); }
  }

  lemma AppliedKeeps(p: Pool)
    requires PoolOk(p)
    ensures PoolOk(Applied(p))
  {
    hide Pending, RemainIs;
    var gone := Listed(p.removable);
    var r := Applied(p);
    assert r.accounts.Keys == p.accounts.Keys - gone;
    AppliedTotals(p.accounts, r.accounts, gone);
    hide Total;
    forall x | x in r.accounts ensures AccountOk(r, x) { Untouched(p, r, x); }
  }

  lemma AppliedTotals(a: map<Id, Account>, b: map<Id, Account>, gone: set<Id>)
    requires AllValid(a) && b == a - gone
    ensures AllValid(b) && Total(a.Keys, a) == Total(b.Keys, b) + Total(a.Keys * gone, a)
  {
    assert b.Keys == a.Keys - gone;
    assert a.Keys == (a.Keys - gone) + (a.Keys * gone);
    TotalUnion(a.Keys - gone, a.Keys * gone, a);
    TotalSame(b.Keys, a, b);
  }

  lemma VisitedKeeps(p: Pool, v: Visit)
    requires PoolOk(p) && v.id in p.accounts
    ensures PoolOk(Visited(p, v))
  {
    hide AccountsOk, Counted, Blocked, Advanced;
    var acc := p.accounts[v.id];
    LaterKeeps(p, v.id);
    BlockedKeeps(p, v.id);
    if acc.q != [] && Taken(p, v) > 0 { AdvancedKeeps(p, v.id, Taken(p, v)); }
  }

  lemma BlockedKeeps(p: Pool, id: Id)
    requires PoolOk(p) && id in p.accounts
    ensures PoolOk(Blocked(p, id))
  {
    hide PoolOk;
    FlagKeeps(p, Blocked(p, id), id, false);
  }

  lemma {:induction false} PassKeeps(p: Pool, vs: seq<Visit>)
    requires PoolOk(p) && Visitable(p.accounts.Keys, vs)
    ensures PoolOk(Pass(p, vs))
    decreases |vs|
  {
    hide AccountsOk, Counted, Visited;
    if vs != [] {
      VisitedKeeps(p, vs[0]);
      VisitKeepsKeys(p, vs[0]);
      PassKeeps(Visited(p, vs[0]), vs[1..]);
    }
  }

  lemma {:induction false} PassesKeep(p: Pool, passes: seq<seq<Visit>>)
    requires PoolOk(p) && AllCover(p.accounts.Keys, passes)
    ensures PoolOk(Passes(p, passes))
    decreases |passes|
  {
    hide AccountsOk, Counted, Pass;
    if passes != [] {
      PassKeeps(p, passes[0]);
      PassesKeep(Pass(p, passes[0]), passes[1..]);
    }
  }

  lemma StepKeeps(p: Pool, e: Event)
    requires PoolOk(p) && Enabled(p, e)
    ensures PoolOk(Apply(p, e))
  {
    hide AccountsOk, Counted;
    match e
    case Add(id, frameSize) => EnsuredKeeps(p, id, frameSize);
    case Enqueue(id, data) => EnqueuedKeeps(p, id, data);
    case Send(passes) => PassesKeep(p, passes);
    case BecomesWritable(id) => CanWriteKeeps(p, id);
    case Remove(id) => LaterKeeps(p, id);
    case ApplyRemove => AppliedKeeps(p);
  }

  datatype Outcome = Stuck | Reached(pool: Pool)

  /** A run of calls, each enabled when its turn comes. */
  function Run(p: Pool, es: seq<Event>): (r: Outcome)
    requires PoolOk(p)
    ensures r.Reached? ==> PoolOk(r.pool)
    decreases |es|
  {
    if es == [] then Reached(p)
    else if !Enabled(p, es[0]) then Stuck
    else
      StepKeeps(p, es[0]);
      Run(Apply(p, es[0]), es[1..])
  }

  // ---- What it means -----------------------------------------------------------------

  /** A visit moves the bytes the socket took from the front of the account's stream to the end
      of what it has sent, whatever frames they were cut into, and touches no other account. */
  lemma VisitMoves(p: Pool, v: Visit)
    requires PoolOk(p) && v.id in p.accounts
    ensures var r, n, stream := Visited(p, v), Taken(p, v), Pending(p.accounts[v.id].q);
            && r.accounts.Keys == p.accounts.Keys && AllValid(r.accounts) && r.sent.Keys == p.sent.Keys
            && n <= |stream| && Pending(r.accounts[v.id].q) == stream[n..]
            && r.sent[v.id] == p.sent[v.id] + stream[..n]
            && forall x | x in p.accounts && x != v.id :: r.accounts[x] == p.accounts[x] && r.sent[x] == p.sent[x]
  {
    hide Counted, AccountOk, Pending;
    VisitKeepsKeys(p, v);
    VisitElsewhere(p, v);
    VisitHere(p, v);
  }

  lemma VisitElsewhere(p: Pool, v: Visit)
    requires AllValid(p.accounts) && p.sent.Keys == p.accounts.Keys && v.id in p.accounts
    ensures var r := Visited(p, v);
            && r.accounts.Keys == p.accounts.Keys && r.sent.Keys == p.sent.Keys
            && forall x | x in p.accounts && x != v.id :: r.accounts[x] == p.accounts[x] && r.sent[x] == p.sent[x]
  {
    hide Pending, Frame, Taken, Shifted;
    VisitKeepsKeys(p, v);
  }

  lemma VisitHere(p: Pool, v: Visit)
    requires AllValid(p.accounts) && p.sent.Keys == p.accounts.Keys && v.id in p.accounts
    ensures var n, q := Taken(p, v), p.accounts[v.id].q;
            && n <= |Pending(q)| && v.id in Visited(p, v).accounts && v.id in Visited(p, v).sent
            && ValidQueue(Visited(p, v).accounts[v.id].q)
            && Pending(Visited(p, v).accounts[v.id].q) == Pending(q)[n..]
            && Visited(p, v).sent[v.id] == p.sent[v.id] + Pending(q)[..n]
  {
    hide Pending;
    var q, n := p.accounts[v.id].q, Taken(p, v);
    NoMove(p.sent[v.id], Pending(q));
    if q != [] && n > 0 { ShiftDrops(q, n); }
  }

  lemma NoMove(a: Bytes, b: Bytes)
    ensures b[0..] == b && a + b[..0] == a
  {
  }

  lemma SizeWithinTotal(ids: set<Id>, accounts: map<Id, Account>, id: Id)
    requires AllValid(accounts) && id in ids
    ensures Size(accounts, id) <= Total(ids, accounts)
  {
    TotalSplit(ids, accounts, id);
  }

  /** In every run from a good pool, such as the empty one: the bytes of an account are sent in order,
      none twice and none left out, and an account that has something to send is either writable or
      watched by the poller. */
  lemma StreamsInOrder(p0: Pool, es: seq<Event>)
    requires PoolOk(p0) && Run(p0, es).Reached?
    ensures var p := Run(p0, es).pool;
            forall id | id in p.accounts ::
              && id in p.sent && id in p.given && ValidQueue(p.accounts[id].q)
              && p.given[id] == p.sent[id] + Pending(p.accounts[id].q)
              && (p.accounts[id].writable || id in p.waiting)
  {
    hide Run, Total, RemainIs, Pending;
    var p := Run(p0, es).pool;
    forall id | id in p.accounts
      ensures p.given[id] == p.sent[id] + Pending(p.accounts[id].q) && (p.accounts[id].writable || id in p.waiting)
    {
      assert AccountOk(p, id);
    }
  }

  // ---- The counter -------------------------------------------------------------------

  /** The event erases an account that has something to send. */
  predicate Drops(p: Pool, e: Event) {
    e.ApplyRemove? && exists id :: id in p.removable && id in p.accounts && p.accounts[id].q != []
  }

  /** Some event of the run does so. */
  predicate Dropping(p: Pool, es: seq<Event>)
    requires PoolOk(p)
    decreases |es|
  {
    es != [] && Enabled(p, es[0]) &&
    (Drops(p, es[0]) || (StepKeeps(p, es[0]); Dropping(Apply(p, es[0]), es[1..])))
  }

  lemma {:induction false} TotalZero(ids: set<Id>, accounts: map<Id, Account>)
    requires AllValid(accounts)
    ensures Total(ids, accounts) == 0 <==> forall id | id in ids :: Size(accounts, id) == 0
    decreases |ids|
  {
    hide Size;
    if ids != {} { TotalZero(ids - {Least(ids)}, accounts); }
  }

  lemma NothingPending(q: seq<Elem>)
    requires ValidQueue(q)
    ensures |Pending(q)| == 0 <==> q == []
  {
  }

  lemma RemovalDrops(p: Pool)
    requires AllValid(p.accounts)
    ensures Applied(p).dropped == p.dropped <==> !Drops(p, ApplyRemove)
  {
    var taken := p.accounts.Keys * Listed(p.removable);
    TotalZero(taken, p.accounts);
    forall id | id in taken ensures Size(p.accounts, id) == 0 <==> p.accounts[id].q == [] {
      NothingPending(p.accounts[id].q);
    }
    hide Total, Size;
    if Drops(p, ApplyRemove) {
      var id :| id in p.removable && id in p.accounts && p.accounts[id].q != [];
      assert id in taken;
    }
  }

  lemma {:induction false} PassDropsNone(p: Pool, vs: seq<Visit>)
    requires AllValid(p.accounts) && Visitable(p.accounts.Keys, vs)
    ensures Pass(p, vs).dropped == p.dropped
    decreases |vs|
  {
    if vs != [] {
      VisitKeepsKeys(p, vs[0]);
      VisitDropsNone(p, vs[0]);
      hide Visited;
      PassDropsNone(Visited(p, vs[0]), vs[1..]);
    }
  }

  lemma VisitDropsNone(p: Pool, v: Visit)
    requires AllValid(p.accounts) && v.id in p.accounts
    ensures Visited(p, v).dropped == p.dropped
  {
    hide Frame, Taken, Shifted, Pending;
  }

  lemma {:induction false} PassesDropNone(p: Pool, passes: seq<seq<Visit>>)
    requires AllValid(p.accounts) && AllCover(p.accounts.Keys, passes)
    ensures Passes(p, passes).dropped == p.dropped
    decreases |passes|
  {
    hide Pass;
    if passes != [] {
      PassDropsNone(p, passes[0]);
      PassesDropNone(Pass(p, passes[0]), passes[1..]);
    }
  }

  lemma StepDrops(p: Pool, e: Event)
    requires AllValid(p.accounts) && Enabled(p, e)
    ensures p.dropped <= Apply(p, e).dropped && (Apply(p, e).dropped == p.dropped <==> !Drops(p, e))
  {
    hide Total, Passes;
    match e
    case Send(passes) => PassesDropNone(p, passes);
    case ApplyRemove => RemovalDrops(p);
    case _ =>
  }

  lemma {:induction false} RunDrops(p: Pool, es: seq<Event>)
    requires PoolOk(p) && Run(p, es).Reached?
    ensures p.dropped <= Run(p, es).pool.dropped
    ensures Run(p, es).pool.dropped == p.dropped <==> !Dropping(p, es)
    decreases |es|
  {
    if es != [] {
      StepKeeps(p, es[0]);
      StepDrops(p, es[0]);
      hide AccountsOk, Counted, Apply, Drops;
      RunDrops(Apply(p, es[0]), es[1..]);
    }
  }

  lemma CounterSmall(p: Pool)
    requires PoolOk(p) && p.allGiven < WORD
    ensures p.remain == AllPending(p) + p.dropped == p.allGiven - p.allSent
  {
    hide Total, AccountsOk, AllValid;
  }

  /** In every run in which less than 2^64 bytes are enqueued, the counter is at least what is
      pending, and it is what is pending if and only if no removal of the run erased an account
      that had something to send. */
  lemma CounterExact(p0: Pool, es: seq<Event>)
    requires PoolOk(p0) && p0.dropped == 0 && Run(p0, es).Reached? && Run(p0, es).pool.allGiven < WORD
    ensures var p := Run(p0, es).pool;
            && p.remain >= AllPending(p)
            && (p.remain == AllPending(p) <==> !Dropping(p0, es))
  {
    hide Run, Total, Dropping, AccountsOk, Counted;
    RunDrops(p0, es);
    CounterSmall(Run(p0, es).pool);
  }

  /** A message to an account that is then removed stays in the counter for good, though nothing
      is pending. */
  lemma CounterKeepsDropped(p0: Pool, id: Id, data: Bytes)
    requires IsEmpty(p0) && 0 < |data| < WORD
    ensures PoolOk(p0) && Run(p0, [Enqueue(id, data), Remove(id), ApplyRemove]).Reached?
    ensures var p := Run(p0, [Enqueue(id, data), Remove(id), ApplyRemove]).pool;
            p.remain == |data| && AllPending(p) == 0
  {
    hide PoolOk, EnqueuedTo, RemoveLater, Applied, Total, Run;
    EmptyOk(p0);
    FirstMessage(p0, id, data);
    var p1, e1 := EnqueuedTo(p0, id, data), Enqueue(id, data);
    StepKeeps(p0, e1);
    DroppedNext(p1, id);
    assert [e1] + [Remove(id), ApplyRemove] == [e1, Remove(id), ApplyRemove];
    RunFirst(p0, e1, [Remove(id), ApplyRemove]);
  }

  lemma DroppedNext(p: Pool, id: Id)
    requires PoolOk(p) && p.accounts.Keys == {id} && p.removable == []
    ensures Run(p, [Remove(id), ApplyRemove]).Reached?
    ensures var r := Run(p, [Remove(id), ApplyRemove]).pool; r.remain == p.remain && AllPending(r) == 0
  {
    hide PoolOk, Applied, Total, Run;
    var q := RemoveLater(p, id);
    StepKeeps(p, Remove(id));
    StepKeeps(q, ApplyRemove);
    NothingLeft(q, id);
    RunFirst(q, ApplyRemove, []);
    RunFirst(p, Remove(id), [ApplyRemove]);
    assert [Remove(id)] + [ApplyRemove] == [Remove(id), ApplyRemove] && [ApplyRemove] + [] == [ApplyRemove];
  }

  lemma FirstMessage(p: Pool, id: Id, data: Bytes)
    requires IsEmpty(p) && 0 < |data| < WORD
    ensures var r := EnqueuedTo(p, id, data); r.accounts.Keys == {id} && r.remain == |data| && r.removable == []
  {
  }

  lemma NothingLeft(p: Pool, id: Id)
    requires PoolOk(p) && p.accounts.Keys == {id} && p.removable == [id] && PoolOk(Applied(p))
    ensures Applied(p).remain == p.remain && AllPending(Applied(p)) == 0
  {
    assert Applied(p).accounts.Keys == {};
    hide AccountsOk, Counted;
  }

  lemma RunFirst(p: Pool, e: Event, es: seq<Event>)
    requires PoolOk(p) && Enabled(p, e) && PoolOk(Apply(p, e))
    ensures Run(p, [e] + es) == Run(Apply(p, e), es)
    ensures Run(Apply(p, e), []) == Reached(Apply(p, e))
  {
    hide PoolOk, Apply, Enabled;
    assert ([e] + es)[0] == e && ([e] + es)[1..] == es;
  }

  /** Nor does the counter ever fall below what a visit takes from it. */
  lemma CounterSuffices(p: Pool, v: Visit)
    requires PoolOk(p) && v.id in p.accounts && p.allGiven < WORD
    ensures Taken(p, v) <= p.remain && Visited(p, v).remain == p.remain - Taken(p, v)
  {
    hide Total;
    var q := p.accounts[v.id].q;
    FrameIsNext(q, p.accounts[v.id].frameSize);
    SizeWithinTotal(p.accounts.Keys, p.accounts, v.id);
  }

  /** The visit gave the socket a frame, or looked for a socket to give it to. */
  predicate Served(p: Pool, id: Id)
    requires id in p.accounts
  {
    p.accounts[id].writable && p.accounts[id].q != []
  }

  predicate Fails(p: Pool, v: Visit)
    requires v.id in p.accounts
  {
    v.reply.NoSocket? || (p.accounts[v.id].frameSize > 0 && v.reply.status in {Failure, Network})
  }

  /** The next removal takes an account away if and only if it was listed before or its visit failed;
      and its socket waits to become writable again if and only if it refused the frame. */
  lemma VisitConsequences(p: Pool, v: Visit)
    requires PoolOk(p) && v.id in p.accounts && Served(p, v.id)
    ensures v.id in Visited(p, v).accounts && AllValid(Visited(p, v).accounts)
    ensures v.id !in Applied(Visited(p, v)).accounts <==> v.id in p.removable || Fails(p, v)
    ensures !Visited(p, v).accounts[v.id].writable
            <==> v.reply.Sent? && v.reply.status in {Again, Overflow} && p.accounts[v.id].frameSize > 0
  {
    hide PoolOk, Visited;
    assert AllValid(p.accounts) by { QueuesValid(p); }
    VisitKeepsKeys(p, v);
    VisitMarks(p, v);
    AppliedTakes(Visited(p, v), v.id);
  }

  lemma QueuesValid(p: Pool)
    requires PoolOk(p)
    ensures AllValid(p.accounts)
  {
  }

  lemma AppliedTakes(p: Pool, id: Id)
    requires AllValid(p.accounts) && id in p.accounts
    ensures id !in Applied(p).accounts <==> id in p.removable
  {
  }

  lemma VisitMarks(p: Pool, v: Visit)
    requires AllValid(p.accounts) && v.id in p.accounts && Served(p, v.id) && v.id in Visited(p, v).accounts
    ensures Visited(p, v).removable == p.removable + (if Fails(p, v) then [v.id] else [])
    ensures !Visited(p, v).accounts[v.id].writable
            <==> v.reply.Sent? && v.reply.status in {Again, Overflow} && p.accounts[v.id].frameSize > 0
  {
    hide Pending, Frame, Shifted, Taken;
    FrameEmpty(p.accounts[v.id].q, p.accounts[v.id].frameSize);
    assert p.removable + [] == p.removable;
  }

  lemma FrameEmpty(q: seq<Elem>, frameSize: nat)
    requires ValidQueue(q) && q != []
    ensures Frame(q, frameSize) == [] <==> frameSize == 0
  {
  }

  predicate Taking(v: Visit, id: Id) {
    v.id == id && v.reply.Sent? && v.reply.status.Good? && v.reply.n > 0
  }

  /** If the socket takes something whenever it is visited, a pass leaves less to send; it leaves
      the account writable. */
  lemma {:induction false} PassShrinks(p: Pool, id: Id, vs: seq<Visit>)
    requires PoolOk(p) && id in p.accounts && p.accounts[id].writable && p.accounts[id].frameSize > 0
    requires Visitable(p.accounts.Keys, vs) && forall i | 0 <= i < |vs| && vs[i].id == id :: Taking(vs[i], id)
    ensures var a, b := p.accounts[id], Pass(p, vs).accounts[id];
            && b.writable && b.frameSize == a.frameSize && |Pending(b.q)| <= |Pending(a.q)|
            && (Visits(vs, id) && Pending(a.q) != [] ==> |Pending(b.q)| < |Pending(a.q)|)
    decreases |vs|
  {
    hide AccountsOk, Counted;
    if vs != [] {
      var v, a := vs[0], p.accounts[id];
      VisitMoves(p, v);
      VisitedKeeps(p, v);
      FrameIsNext(p.accounts[v.id].q, p.accounts[v.id].frameSize);
      if v.id == id { VisitKeepsFlags(p, v); }
      VisitsFirst(vs, id);
      hide Visited, Pending, Visits;
      PassShrinks(Visited(p, v), id, vs[1..]);
    }
  }

  lemma VisitsFirst(vs: seq<Visit>, id: Id)
    requires vs != []
    ensures Visits(vs, id) <==> vs[0].id == id || Visits(vs[1..], id)
  {
    if Visits(vs, id) && vs[0].id != id {
      var i :| 0 <= i < |vs| && vs[i].id == id;
      assert vs[1..][i - 1].id == id;
    }
    if Visits(vs[1..], id) {
      var i :| 0 <= i < |vs[1..]| && vs[1..][i].id == id;
      assert vs[i + 1].id == id;
    }
  }

  /** As long as the socket takes something whenever it is visited, the account's queue is empty
      after no more passes than it has bytes, whatever the other sockets do. */
  lemma {:induction false} QueueDrains(p: Pool, id: Id, passes: seq<seq<Visit>>)
    requires PoolOk(p) && id in p.accounts && p.accounts[id].writable && p.accounts[id].frameSize > 0
    requires AllCover(p.accounts.Keys, passes) && |passes| >= |Pending(p.accounts[id].q)|
    requires forall k, i | 0 <= k < |passes| && 0 <= i < |passes[k]| && passes[k][i].id == id ::
               Taking(passes[k][i], id)
    ensures Pending(Passes(p, passes).accounts[id].q) == []
    decreases |passes|
  {
    hide AccountsOk, Counted;
    if passes != [] {
      PassShrinks(p, id, passes[0]);
      PassKeeps(p, passes[0]);
      hide Pass, Pending;
      assert Covers(p.accounts.Keys, passes[0]);
      QueueDrains(Pass(p, passes[0]), id, passes[1..]);
    }
  }

  lemma VisitKeepsFlags(p: Pool, v: Visit)
    requires v.id in p.accounts && AllValid(p.accounts) && Taking(v, v.id)
    ensures v.id in Visited(p, v).accounts
    ensures var a, b := p.accounts[v.id], Visited(p, v).accounts[v.id];
            b.writable == a.writable && b.frameSize == a.frameSize
  {
  }
}
