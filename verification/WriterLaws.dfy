/** What each call of a writer pool does to its accounts, told by their fields. */
module WriterLaws {
  import opened Numbers
  import opened Octets
  import opened Ordered
  import opened WriterQueues
  import opened WriterPoolState
  import opened WriterPoolTheorems

  /** The two pools differ in the account of id, and in whether its socket is watched, at most. */
  ghost predicate OnlyAccount(p: Pool, r: Pool, id: Id) {
    && r.accounts.Keys == p.accounts.Keys && (forall x | x in p.accounts && x != id :: r.accounts[x] == p.accounts[x])
    && (forall x | x != id :: x in r.waiting <==> x in p.waiting)
  }

  /** add makes an account with an empty queue, whose socket is to be watched, if there is none. */
  lemma AddLaw(p: Pool, id: Id, frameSize: nat)
    requires AllValid(p.accounts)
    ensures var r := Apply(p, Add(id, frameSize));
            && (id in p.accounts ==> r == p)
            && (id !in p.accounts ==>
                  && r.accounts == p.accounts[id := Account(id, false, frameSize, [])]
                  && r.waiting == p.waiting + {id} && r.removable == p.removable && r.remain == p.remain
                  && r.given == p.given[id := []] && r.sent == p.sent[id := []])
  {
  }

  ghost predicate Appends(p: Pool, id: Id, data: Bytes, was: Account, r: Pool)
    requires AllValid(p.accounts) && ValidQueue(was.q)
  {
    && r.accounts.Keys == p.accounts.Keys + {id} && AllValid(r.accounts) && r.removable == p.removable
    && r.accounts[id].(q := was.q) == was && Pending(r.accounts[id].q) == Pending(was.q) + data
    && (forall x | x in p.accounts && x != id :: r.accounts[x] == p.accounts[x])
    && r.waiting == (if id in p.accounts then p.waiting else p.waiting + {id})
  }

  /** enqueue puts a message that is not empty at the end of what its account has pending, and makes an
      account with frames of 1500 bytes if there is none. */
  lemma EnqueueLaw(p: Pool, id: Id, data: Bytes)
    requires PoolOk(p)
    ensures data == [] ==> Apply(p, Enqueue(id, data)) == p
    ensures data != [] && id in p.accounts ==> Appends(p, id, data, p.accounts[id], Apply(p, Enqueue(id, data)))
    ensures data != [] && id !in p.accounts ==>
              Appends(p, id, data, Account(id, false, 1500, []), Apply(p, Enqueue(id, data)))
  {
    hide Pending, Counted, AccountsOk, Enqueued;
    StepKeeps(p, Enqueue(id, data));
    EnqueueAppends(if id in p.accounts then p.accounts[id].q else [], data);
  }

  /** The callback makes the account of the id writable, and its socket is watched no more; nothing else
      changes. */
  lemma WritableLaw(p: Pool, id: Id)
    requires AllValid(p.accounts)
    ensures var r := Apply(p, BecomesWritable(id));
            && OnlyAccount(p, r, id) && id !in r.waiting && r.removable == p.removable && r.remain == p.remain
            && r.given == p.given && r.sent == p.sent
            && (id in p.accounts ==> r.accounts[id] == p.accounts[id].(writable := true))
  {
  }

  /** remove_later lists the id; apply_remove takes exactly the listed accounts away, and their sockets from
      the poller. */
  lemma RemoveLaw(p: Pool, id: Id)
    requires AllValid(p.accounts)
    ensures Apply(p, Remove(id)) == p.(removable := p.removable + [id])
    ensures var r := Apply(p, ApplyRemove);
            && r.removable == [] && r.remain == p.remain
            && (forall x :: x in r.accounts <==> x in p.accounts && x !in p.removable)
            && (forall x | x in r.accounts :: r.accounts[x] == p.accounts[x])
            && (forall x :: x in r.waiting <==> x in p.waiting && x !in p.removable)
  {
    hide Total;
  }

  /** How many bytes the next frame of the account has: those left of its first message, up to the frame
      size. */
  function FrameLength(acc: Account): int {
    if acc.q == [] then 0 else Min(|acc.q[0].b| - acc.q[0].cursor, acc.frameSize)
  }

  /** What a send makes of the account it visits: nothing, if the socket is not writable or there is
      nothing to send; without a socket, or if that fails, it is listed for removal; if it refuses, it is
      watched until it is writable; otherwise so much of the frame as it takes has been sent. */
  ghost predicate Serves(p: Pool, v: Visit, r: Pool)
    requires v.id in p.accounts && AllValid(p.accounts)
  {
    var acc, k := p.accounts[v.id], FrameLength(p.accounts[v.id]);
    if !acc.writable || acc.q == [] then r == p
    else if v.reply.NoSocket? then r == p.(removable := p.removable + [v.id])
    else if k == 0 then r == p
    else
      match v.reply.status
      case Failure => r == p.(removable := p.removable + [v.id])
      case Network => r == p.(removable := p.removable + [v.id])
      case Again => Waits(p, v.id, r)
      case Overflow => Waits(p, v.id, r)
      case Good => Moves(p, v.id, Min(v.reply.n, k), r)
  }

  ghost predicate Waits(p: Pool, id: Id, r: Pool)
    requires id in p.accounts
  {
    && r == p.(accounts := r.accounts, waiting := p.waiting + {id}) && OnlyAccount(p, r, id)
    && r.accounts[id] == p.accounts[id].(writable := false)
  }

  ghost predicate Moves(p: Pool, id: Id, n: int, r: Pool)
    requires id in p.accounts && AllValid(p.accounts)
  {
    var acc := p.accounts[id];
    && OnlyAccount(p, r, id) && AllValid(r.accounts) && r.removable == p.removable && r.waiting == p.waiting
    && r.accounts[id].(q := acc.q) == acc && 0 <= n <= |Pending(acc.q)|
    && Pending(r.accounts[id].q) == Pending(acc.q)[n..]
    && id in r.sent && id in p.sent && r.sent[id] == p.sent[id] + Pending(acc.q)[..n]
    && (forall x | x in p.sent && x != id :: x in r.sent && r.sent[x] == p.sent[x])
    && r.remain == (p.remain - n) % 0x1_0000_0000_0000_0000
  }

  lemma VisitLaw(p: Pool, v: Visit)
    requires PoolOk(p) && v.id in p.accounts
    ensures Serves(p, v, Visited(p, v))
  {
    hide Pending, Counted, Moves;
    var acc := p.accounts[v.id];
    assert AccountOk(p, v.id);
    if acc.writable && acc.q != [] && FrameLength(acc) > 0 && v.reply.Sent? && v.reply.status.Good? {
      MovesBy(p, v);
    }
  }

  lemma MovesBy(p: Pool, v: Visit)
    requires PoolOk(p) && v.id in p.accounts && p.accounts[v.id].writable && p.accounts[v.id].q != []
    requires v.reply.Sent? && v.reply.status.Good? && FrameLength(p.accounts[v.id]) > 0
    ensures Moves(p, v.id, Min(v.reply.n, FrameLength(p.accounts[v.id])), Visited(p, v))
  {
    hide Pending, AccountsOk, Taken, Frame, Total, FrameLength;
    VisitMoves(p, v);
    TakenIs(p, v);
    RestIs(p, v, Taken(p, v));
  }

  lemma TakenIs(p: Pool, v: Visit)
    requires v.id in p.accounts && ValidQueue(p.accounts[v.id].q)
    requires p.accounts[v.id].writable && v.reply.Sent? && v.reply.status.Good?
    ensures Taken(p, v) == Min(v.reply.n, FrameLength(p.accounts[v.id]))
    ensures FrameLength(p.accounts[v.id]) == |Frame(p.accounts[v.id].q, p.accounts[v.id].frameSize)|
  {
  }

  lemma RestIs(p: Pool, v: Visit, n: nat)
    requires PoolOk(p) && v.id in p.accounts && p.accounts[v.id].writable && p.accounts[v.id].q != []
    requires v.reply.Sent? && v.reply.status.Good? && n == Taken(p, v)
    ensures var r, acc := Visited(p, v), p.accounts[v.id];
            && v.id in r.accounts && r.accounts[v.id].(q := acc.q) == acc && r.removable == p.removable
            && r.waiting == p.waiting && r.remain == (p.remain - n) % 0x1_0000_0000_0000_0000
            && p.sent.Keys == p.accounts.Keys
  {
    hide Pending, Shifted, Total;
    assert AccountOk(p, v.id);
  }

  // ---- From the message to the socket ------------------------------------------------

  /** In an empty pool: a message to any id, the callback that its socket can be written, and as many passes
      as the message has bytes, in each of which the socket takes something; then all of it has been sent. */
  lemma MessageArrives(p0: Pool, id: Id, data: Bytes, passes: seq<seq<Visit>>)
    requires IsEmpty(p0) && data != [] && AllCover({id}, passes) && |passes| >= |data|
    requires forall k, i | 0 <= k < |passes| && 0 <= i < |passes[k]| :: Taking(passes[k][i], id)
    ensures PoolOk(p0) && Run(p0, [Enqueue(id, data), BecomesWritable(id), Send(passes)]).Reached?
    ensures var p := Run(p0, [Enqueue(id, data), BecomesWritable(id), Send(passes)]).pool;
            && id in p.accounts && id in p.sent && AllValid(p.accounts)
            && Pending(p.accounts[id].q) == [] && p.sent[id] == data
  {
    hide PoolOk, Passes, Pending, Run, EnqueuedTo, CanWrite;
    var e1, e2, e3 := Enqueue(id, data), BecomesWritable(id), Send(passes);
    EmptyOk(p0);
    StepKeeps(p0, e1);
    var p1 := Apply(p0, e1);
    FirstEnqueued(p0, id, data);
    StepKeeps(p1, e2);
    var p2 := Apply(p1, e2);
    WritableNow(p1, id);
    StepKeeps(p2, e3);
    var p3 := Apply(p2, e3);
    SentAll(p2, id, data, passes);
    RunFirst(p2, e3, []);
    RunFirst(p1, e2, [e3]);
    RunFirst(p0, e1, [e2, e3]);
    assert [e1] + [e2, e3] == [e1, e2, e3] && [e2] + [e3] == [e2, e3] && [e3] + [] == [e3];
  }

  lemma FirstEnqueued(p: Pool, id: Id, data: Bytes)
    requires IsEmpty(p) && data != [] && PoolOk(p)
    ensures var r := Apply(p, Enqueue(id, data));
            && r.accounts.Keys == {id} && AllValid(r.accounts) && r.accounts[id].frameSize == 1500
            && Pending(r.accounts[id].q) == data && id in r.given && r.given[id] == data
  {
    EnqueueLaw(p, id, data);
    assert [] + data == data;
    hide Pending, PoolOk;
  }

  lemma WritableNow(p: Pool, id: Id)
    requires AllValid(p.accounts) && p.accounts.Keys == {id} && id in p.given
    ensures var r := Apply(p, BecomesWritable(id));
            && r.accounts.Keys == {id} && r.given == p.given && AllValid(r.accounts)
            && r.accounts[id] == p.accounts[id].(writable := true)
  {
  }

  lemma SentAll(p: Pool, id: Id, data: Bytes, passes: seq<seq<Visit>>)
    requires PoolOk(p) && p.accounts.Keys == {id} && p.accounts[id].writable && p.accounts[id].frameSize > 0
    requires AllValid(p.accounts) && Pending(p.accounts[id].q) == data && id in p.given && p.given[id] == data
    requires AllCover({id}, passes) && |passes| >= |data|
    requires forall k, i | 0 <= k < |passes| && 0 <= i < |passes[k]| :: Taking(passes[k][i], id)
    ensures var r := Passes(p, passes);
            && AllValid(r.accounts) && id in r.accounts && id in r.sent
            && Pending(r.accounts[id].q) == [] && r.sent[id] == data
  {
    hide Passes, Pending, Counted;
    QueueDrains(p, id, passes);
    StepKeeps(p, Send(passes));
    PassesGive(p, passes);
    var r := Passes(p, passes);
    assert AccountOk(r, id);
    assert r.sent[id] + [] == r.sent[id];
  }

  lemma {:induction false} PassesGive(p: Pool, passes: seq<seq<Visit>>)
    requires AllValid(p.accounts) && AllCover(p.accounts.Keys, passes)
    ensures Passes(p, passes).given == p.given
    decreases |passes|
  {
    if passes != [] {
      PassGives(p, passes[0]);
      hide Pass, Covers;
      PassesGive(Pass(p, passes[0]), passes[1..]);
    }
  }

  lemma {:induction false} PassGives(p: Pool, vs: seq<Visit>)
    requires AllValid(p.accounts) && Visitable(p.accounts.Keys, vs)
    ensures Pass(p, vs).given == p.given
    decreases |vs|
  {
    if vs != [] {
      VisitKeepsKeys(p, vs[0]);
      hide Taken, Frame, Shifted;
      PassGives(Visited(p, vs[0]), vs[1..]);
    }
  }
}
