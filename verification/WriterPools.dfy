/** The writer pool itself: its fields, and its operations in place. */
module WriterPools {
  import opened Numbers
  import opened Octets
  import opened Ordered
  import opened WriterQueues
  import opened WriterPoolState
  import opened WriterPoolTheorems

  class WriterPool {
    var remainBytes: nat
    var accounts: map<Id, Account>   // accounts are held by value
    var removable: seq<Id>
    var waiting: set<Id>             // the poller's registrations
    ghost var given: map<Id, Bytes>
    ghost var sent: map<Id, Bytes>
    ghost var allGiven: nat
    ghost var allSent: nat
    ghost var dropped: nat

    ghost function View(): Pool
      reads this
    {
      Pool(remainBytes, accounts, removable, waiting, given, sent, allGiven, allSent, dropped)
    }

    ghost predicate Valid()
      reads this
    {
      PoolOk(View())
    }

    constructor ()
      ensures Valid() && IsEmpty(View())
    {
      remainBytes, accounts, removable, waiting := 0, map[], [], {};
      given, sent, allGiven, allSent, dropped := map[], map[], 0, 0, 0;
      new;
      EmptyOk(View());
    }

    /** The account of the id, which is checked to be its own. */
    method LocateAccount(id: Id) returns (found: bool)
      requires Valid()
      ensures found <==> id in accounts
      ensures found ==> accounts[id].id == id
    {
      hide Counted;
      found := id in accounts;
      if found { assert AccountOk(View(), id); }
    }

    method EnsureAccount(id: Id, frameSize: nat)
      requires Valid()
      modifies this
      ensures Valid() && View() == Ensured(old(View()), id, frameSize)
    {
      hide PoolOk;
      EnsuredKeeps(View(), id, frameSize);
      var found := LocateAccount(id);
      if !found {
        accounts := accounts[id := Account(id, false, frameSize, [])];
        waiting := waiting + {id};
        given, sent := given[id := []], sent[id := []];
      }
    }

    method Enqueue(id: Id, data: Bytes)
      requires Valid()
      modifies this
      ensures Valid() && View() == EnqueuedTo(old(View()), id, data)
    {
      hide PoolOk, Ensured, Enqueued;
      EnqueuedKeeps(View(), id, data);
      if data == [] { return; }
      EnsureAccount(id, DEFAULT_FRAME_SIZE);
      accounts := accounts[id := accounts[id].(q := Enqueued(accounts[id].q, data))];
      remainBytes := (remainBytes + |data|) % WORD;
      allGiven := allGiven + |data|;
      given := given[id := Of(given, id) + data];
    }

    method RemoveLater(id: Id)
      requires Valid()
      modifies this`removable
      ensures Valid() && View() == WriterPoolState.RemoveLater(old(View()), id)
    {
      hide PoolOk;
      LaterKeeps(View(), id);
      removable := removable + [id];
    }

    method ApplyRemove()
      requires Valid()
      modifies this
      ensures Valid() && View() == Applied(old(View()))
    {
      hide AccountsOk, Counted, AllValid, Total, Listed;
      AppliedKeeps(View());
      ghost var was := View();
      AllListed(removable);
      Erasing(was, {}, 0);
      dropped := dropped + Total(accounts.Keys * Listed(removable), accounts);
      var k := 0;
      while k < |removable|
        invariant 0 <= k <= |removable| && removable == was.removable
        invariant View() == TakenOut(was, Listed(removable[..k])).(dropped := dropped)
        invariant dropped == was.dropped + Total(was.accounts.Keys * Listed(removable), was.accounts)
      {
        var id := removable[k];
        OneMoreListed(removable, k);
        Erasing(was, Listed(removable[..k]), id);
        waiting := waiting - {id};
        accounts := accounts - {id};
        given, sent := given - {id}, sent - {id};
        k := k + 1;
      }
      removable := [];
      assert View() == Applied(was);
    }

    /** The callback of the poller, which then forgets the id. */
    method OnCanWrite(id: Id)
      requires Valid()
      modifies this`accounts, this`waiting
      ensures Valid() && View() == CanWrite(old(View()), id)
    {
      hide PoolOk;
      CanWriteKeeps(View(), id);
      waiting := waiting - {id};
      var found := id in accounts;
      if found {
        accounts := accounts[id := accounts[id].(writable := true)];
      }
    }

    /** One account's turn in send. */
    method Serve(v: Visit)
      requires Valid() && v.id in accounts
      modifies this
      ensures Valid() && View() == Visited(old(View()), v)
    {
      hide AccountsOk, Counted, AllValid, Frame, Shifted;
      VisitedKeeps(View(), v);
      assert ValidQueue(accounts[v.id].q) by { AllAccounts(View(), v.id); }
      var acc := accounts[v.id];
      if !acc.writable { return; }
      if acc.q == [] { return; }
      if v.reply.NoSocket? {
        removable := removable + [v.id];
        return;
      }
      var frame := Frame(acc.q, acc.frameSize);
      if frame == [] { return; }
      match v.reply.status {
        case Failure => removable := removable + [v.id];
        case Network => removable := removable + [v.id];
        case Again =>
          accounts := accounts[v.id := acc.(writable := false)];
          waiting := waiting + {v.id};
        case Overflow =>
          accounts := accounts[v.id := acc.(writable := false)];
          waiting := waiting + {v.id};
        case Good =>
          var n := Min(v.reply.n, |frame|);
          if n > 0 {
            FrameIsNext(acc.q, acc.frameSize);
            remainBytes := (remainBytes - n) % WORD;
            accounts := accounts[v.id := acc.(q := Shifted(acc.q, n))];
            allSent := allSent + n;
            sent := sent[v.id := Of(sent, v.id) + Pending(acc.q)[..n]];
          }
      }
    }

    /** One pass over the accounts, in the order in which the map yields them. */
    method SendPass(vs: seq<Visit>)
      requires Valid() && Covers(accounts.Keys, vs)
      modifies this
      ensures Valid() && AllValid(old(View()).accounts) && View() == Pass(old(View()), vs)
    {
      hide AccountsOk, Counted, Visited;
      var k := 0;
      while k < |vs|
        invariant 0 <= k <= |vs| && Valid() && accounts.Keys == old(accounts).Keys
        invariant Pass(View(), vs[k..]) == Pass(old(View()), vs)
      {
        VisitKeepsKeys(View(), vs[k]);
        assert vs[k..][0] == vs[k] && vs[k..][1..] == vs[k + 1..];
        Serve(vs[k]);
        k := k + 1;
      }
    }

    /** Passes until the time is up, one at least. */
    method Send(passes: seq<seq<Visit>>)
      requires Valid() && AllCover(accounts.Keys, passes)
      modifies this
      ensures Valid() && AllValid(old(View()).accounts) && View() == Passes(old(View()), passes)
    {
      hide AccountsOk, Counted, Pass;
      var k := 0;
      while k < |passes|
        invariant 0 <= k <= |passes| && Valid() && accounts.Keys == old(accounts).Keys
        invariant Passes(View(), passes[k..]) == Passes(old(View()), passes)
      {
        assert passes[k..][0] == passes[k] && passes[k..][1..] == passes[k + 1..];
        SendPass(passes[k]);
        k := k + 1;
      }
    }
  }

  /** The pool with the ids taken out. */
  ghost function TakenOut(p: Pool, gone: set<Id>): Pool {
    p.(accounts := p.accounts - gone, waiting := p.waiting - gone, given := p.given - gone, sent := p.sent - gone)
  }

  lemma Erasing(p: Pool, gone: set<Id>, id: Id)
    ensures TakenOut(TakenOut(p, gone), {id}) == TakenOut(p, gone + {id}) && TakenOut(p, {}) == p
  {
    OneMoreErased(p.accounts, gone, id);
    OneMoreErased(p.given, gone, id);
    OneMoreErased(p.sent, gone, id);
    OneMoreTaken(p.waiting, gone, id);
  }

  lemma AllAccounts(p: Pool, id: Id)
    requires PoolOk(p) && id in p.accounts
    ensures ValidQueue(p.accounts[id].q)
  {
  }
}
