/** The states of a writer pool: what each call does to the accounts, the counter and the poller. */
module WriterPoolState {
  import opened Numbers
  import opened Octets
  import opened Ordered
  import opened WriterQueues

  /** std::uint64_t */
  const WORD: nat := 0x1_0000_0000_0000_0000

  const DEFAULT_FRAME_SIZE: nat := 1500

  datatype Account = Account(id: Id, writable: bool, frameSize: nat, q: seq<Elem>)

  datatype Status = Failure | Good | Again | Overflow | Network

  /** What the outside answers when an account is served: there is no socket for its id, or the
      socket has been given a frame, and returns a status and how many bytes it has taken. */
  datatype Reply = NoSocket | Sent(status: Status, n: nat)

  datatype Visit = Visit(id: Id, reply: Reply)

  /**
   The fields of the pool, and the ids its poller watches for writing. The histories: for every
   account the bytes enqueued and the bytes sent since it was made, and in all the bytes enqueued,
   sent, and dropped with the accounts that were removed.
   */
  datatype Pool = Pool(remain: nat, accounts: map<Id, Account>, removable: seq<Id>, waiting: set<Id>,
                       given: map<Id, Bytes>, sent: map<Id, Bytes>,
                       allGiven: nat, allSent: nat, dropped: nat)

  predicate IsEmpty(p: Pool) {
    && p.remain == 0 && p.accounts.Keys == {} && p.removable == [] && p.waiting == {}
    && p.given.Keys == {} && p.sent.Keys == {} && p.allGiven == 0 && p.allSent == 0 && p.dropped == 0
  }

  function Ensured(p: Pool, id: Id, frameSize: nat): (r: Pool)
    ensures id in r.accounts
  {
    if id in p.accounts then p
    else p.(accounts := p.accounts[id := Account(id, false, frameSize, [])], waiting := p.waiting + {id},
            given := p.given[id := []], sent := p.sent[id := []])
  }

  function SetQueue(p: Pool, id: Id, q: seq<Elem>): Pool
    requires id in p.accounts
  {
    p.(accounts := p.accounts[id := p.accounts[id].(q := q)])
  }

  function EnqueuedTo(p: Pool, id: Id, data: Bytes): Pool {
    if data == [] then p else Appended(Ensured(p, id, DEFAULT_FRAME_SIZE), id, data)
  }

  function Appended(p: Pool, id: Id, data: Bytes): Pool
    requires id in p.accounts
  {
    SetQueue(p, id, Enqueued(p.accounts[id].q, data))
      .(remain := (p.remain + |data|) % WORD, allGiven := p.allGiven + |data|,
        given := p.given[id := Of(p.given, id) + data])
  }

  function Of(m: map<Id, Bytes>, id: Id): Bytes { if id in m then m[id] else [] }

  /** How many bytes a visit takes off the front of the stream. */
  function Taken(p: Pool, v: Visit): nat
    requires v.id in p.accounts && ValidQueue(p.accounts[v.id].q)
  {
    var acc := p.accounts[v.id];
    if acc.writable && v.reply.Sent? && v.reply.status.Good? then Min(v.reply.n, |Frame(acc.q, acc.frameSize)|) else 0
  }

  function RemoveLater(p: Pool, id: Id): Pool { p.(removable := p.removable + [id]) }

  /** One turn of the loop over the accounts in send. */
  function Visited(p: Pool, v: Visit): Pool
    requires v.id in p.accounts && ValidQueue(p.accounts[v.id].q)
  {
    var acc := p.accounts[v.id];
    if !acc.writable || acc.q == [] then p
    else if v.reply.NoSocket? then RemoveLater(p, v.id)
    else
      var frame := Frame(acc.q, acc.frameSize);
      if frame == [] then p
      else
        match v.reply.status
        case Failure => RemoveLater(p, v.id)
        case Network => RemoveLater(p, v.id)
        case Again => Blocked(p, v.id)
        case Overflow => Blocked(p, v.id)
        case Good => if Taken(p, v) > 0 then Advanced(p, v.id, Taken(p, v)) else p
  }

  function Blocked(p: Pool, id: Id): Pool
    requires id in p.accounts
  {
    p.(accounts := p.accounts[id := p.accounts[id].(writable := false)], waiting := p.waiting + {id})
  }

  function Advanced(p: Pool, id: Id, n: nat): Pool
    requires id in p.accounts && p.accounts[id].q != [] && ValidQueue(p.accounts[id].q)
    requires n <= |Pending(p.accounts[id].q)|
  {
    var q := p.accounts[id].q;
    SetQueue(p, id, Shifted(q, n))
      .(remain := (p.remain - n) % WORD, allSent := p.allSent + n,
        sent := p.sent[id := Of(p.sent, id) + Pending(q)[..n]])
  }

  function CanWrite(p: Pool, id: Id): Pool {
    var w := p.(waiting := p.waiting - {id});
    if id in p.accounts then w.(accounts := p.accounts[id := p.accounts[id].(writable := true)]) else w
  }

  function Applied(p: Pool): Pool
    requires AllValid(p.accounts)
  {
    var gone := Listed(p.removable);
    p.(accounts := p.accounts - gone, waiting := p.waiting - gone, given := p.given - gone, sent := p.sent - gone,
       removable := [], dropped := p.dropped + Total(p.accounts.Keys * gone, p.accounts))
  }

  // ---- Sums over the accounts --------------------------------------------------------

  predicate AllValid(accounts: map<Id, Account>) {
    forall id | id in accounts :: ValidQueue(accounts[id].q)
  }

  function Size(accounts: map<Id, Account>, id: Id): nat
    requires AllValid(accounts)
  {
    if id in accounts then |Pending(accounts[id].q)| else 0
  }

  /** The bytes pending for the ids. */
  function Total(ids: set<Id>, accounts: map<Id, Account>): nat
    requires AllValid(accounts)
  {
    if ids == {} then 0 else Size(accounts, Least(ids)) + Total(ids - {Least(ids)}, accounts)
  }

  lemma {:induction false} TotalSplit(ids: set<Id>, accounts: map<Id, Account>, id: Id)
    requires AllValid(accounts) && id in ids
    ensures Total(ids, accounts) == Size(accounts, id) + Total(ids - {id}, accounts)
    decreases |ids|
  {
    var least := Least(ids);
    if id != least {
      TotalSplit(ids - {least}, accounts, id);
      assert ids - {least} - {id} == ids - {id} - {least};
      LeastOfRest(ids, id);
    }
  }

  lemma LeastOfRest(ids: set<Id>, id: Id)
    requires id in ids && id != Least(ids)
    ensures ids - {id} != {} && Least(ids - {id}) == Least(ids)
  {
    assert Least(ids) in ids - {id};
  }

  lemma {:induction false} TotalSame(ids: set<Id>, a: map<Id, Account>, b: map<Id, Account>)
    requires AllValid(a) && AllValid(b) && forall id | id in ids :: Size(a, id) == Size(b, id)
    ensures Total(ids, a) == Total(ids, b)
    decreases |ids|
  {
    if ids != {} { TotalSame(ids - {Least(ids)}, a, b); }
  }

  lemma {:induction false} TotalUnion(a: set<Id>, b: set<Id>, accounts: map<Id, Account>)
    requires AllValid(accounts) && a !! b
    ensures Total(a + b, accounts) == Total(a, accounts) + Total(b, accounts)
    decreases |a|
  {
    if a == {} {
      assert a + b == b;
    } else {
      var x := Least(a);
      TotalSplit(a + b, accounts, x);
      assert (a + b) - {x} == (a - {x}) + b;
      TotalUnion(a - {x}, b, accounts);
    }
  }

  /** Changing one account changes the sum by its difference. */
  lemma TotalUpdate(accounts: map<Id, Account>, id: Id, acc: Account)
    requires AllValid(accounts) && ValidQueue(acc.q)
    ensures AllValid(accounts[id := acc])
    ensures var m := accounts[id := acc];
            Total(m.Keys, m) == Total(accounts.Keys, accounts) - Size(accounts, id) + |Pending(acc.q)|
  {
    var m := accounts[id := acc];
    TotalSplit(m.Keys, m, id);
    TotalSame(m.Keys - {id}, accounts, m);
    if id in accounts {
      TotalSplit(accounts.Keys, accounts, id);
      assert m.Keys - {id} == accounts.Keys - {id};
    } else {
      assert m.Keys - {id} == accounts.Keys;
    }
  }

  // ---- Calls and runs ----------------------------------------------------------------

  datatype Event =
    | Add(id: Id, frameSize: nat)
    | Enqueue(id: Id, data: Bytes)
    | Send(passes: seq<seq<Visit>>)
    | BecomesWritable(id: Id)
    | Remove(id: Id)
    | ApplyRemove

  predicate Visits(vs: seq<Visit>, id: Id) {
    exists i :: 0 <= i < |vs| && vs[i].id == id
  }

  /** A pass of send visits every account once, in the order in which the map yields them. */
  predicate Covers(ids: set<Id>, vs: seq<Visit>) {
    && Visitable(ids, vs) && (forall id | id in ids :: Visits(vs, id))
    && forall i, j | 0 <= i < j < |vs| :: vs[i].id != vs[j].id
  }

  predicate AllCover(ids: set<Id>, passes: seq<seq<Visit>>) {
    forall i | 0 <= i < |passes| :: Covers(ids, passes[i])
  }

  /** Accounts only are visited. */
  predicate Visitable(ids: set<Id>, vs: seq<Visit>) {
    forall i | 0 <= i < |vs| :: vs[i].id in ids
  }

  lemma VisitKeepsKeys(p: Pool, v: Visit)
    requires v.id in p.accounts && AllValid(p.accounts)
    ensures Visited(p, v).accounts.Keys == p.accounts.Keys && AllValid(Visited(p, v).accounts)
  {
    var q := p.accounts[v.id].q;
    if q != [] && Taken(p, v) > 0 { ShiftDrops(q, Taken(p, v)); }
  }

  function Pass(p: Pool, vs: seq<Visit>): (r: Pool)
    requires AllValid(p.accounts) && Visitable(p.accounts.Keys, vs)
    ensures r.accounts.Keys == p.accounts.Keys && AllValid(r.accounts)
    decreases |vs|
  {
    if vs == [] then p else
    VisitKeepsKeys(p, vs[0]);
    Pass(Visited(p, vs[0]), vs[1..])
  }

  function Passes(p: Pool, passes: seq<seq<Visit>>): (r: Pool)
    requires AllValid(p.accounts) && AllCover(p.accounts.Keys, passes)
    ensures r.accounts.Keys == p.accounts.Keys && AllValid(r.accounts)
    decreases |passes|
  {
    if passes == [] then p else Passes(Pass(p, passes[0]), passes[1..])
  }

  predicate Enabled(p: Pool, e: Event) {
    e.Send? ==> AllCover(p.accounts.Keys, e.passes)
  }

  function Apply(p: Pool, e: Event): Pool
    requires AllValid(p.accounts) && Enabled(p, e)
  {
    match e
    case Add(id, frameSize) => Ensured(p, id, frameSize)
    case Enqueue(id, data) => EnqueuedTo(p, id, data)
    case Send(passes) => Passes(p, passes)
    case BecomesWritable(id) => CanWrite(p, id)
    case Remove(id) => RemoveLater(p, id)
    case ApplyRemove => Applied(p)
  }
}
