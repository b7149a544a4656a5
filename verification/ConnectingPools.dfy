/** The connecting pool: the loop that runs deferred connections, in place. */
module ConnectingPools {
  import opened Ordered
  import opened DeferredState

  datatype Status = ConnectedAtOnce | Deferred

  class ConnectingPool {
    var deferred: Deferrals      // _deferred_connections
    ghost var ran: seq<Item>     // all the deferred connects that were run

    constructor ()
      ensures deferred == map[] && ran == []
    {
      deferred, ran := map[], [];
    }

    /** A timeout that is not positive connects at once, and defers nothing. */
    method ConnectTimeout(now: Time, timeout: int, call: nat) returns (status: Status)
      modifies this`deferred
      ensures status == if timeout <= 0 then ConnectedAtOnce else Deferred
      ensures deferred == if timeout <= 0 then old(deferred) else Inserted(old(deferred), Item(now + timeout, call))
    {
      if timeout <= 0 { return ConnectedAtOnce; }
      var t := now + timeout;
      if t !in deferred { deferred := deferred[t := call]; }
      status := Deferred;
    }

    /** What a callback does to the set while it runs. */
    method Callback(items: seq<Item>)
      modifies this`deferred
      ensures deferred == InsertedAll(old(deferred), items)
    {
      var i := 0;
      while i < |items|
        invariant 0 <= i <= |items| && InsertedAll(deferred, items[i..]) == InsertedAll(old(deferred), items)
      {
        assert items[i..][0] == items[i] && items[i..][1..] == items[i + 1..];
        if items[i].t !in deferred { deferred := deferred[items[i].t := items[i].call]; }
        i := i + 1;
      }
    }

    /** Runs what is due, and ends however much the callbacks schedule: the loop looks at the front
        of the set only as long as there is one. */
    method Step(now: Time, spawns: seq<seq<Item>>)
      requires SpawnsLater(spawns, now)
      modifies this
      ensures ran == old(ran) + Due(old(deferred), now)
      ensures deferred == AfterStep(old(deferred), now, spawns)
    {
      hide InsertedAll, Due, DueTimes, NotDue;
      if deferred != map[] {
        var k := 0;
        ghost var all := Due(deferred, now);
        ghost var was := deferred;
        while deferred.Keys != {} && Least(deferred.Keys) <= now
          invariant old(ran) + all == ran + Due(deferred, now) && |all| == k + |Due(deferred, now)|
          invariant Spawned(NotDue(deferred, now), spawns, k, |all|) == AfterStep(was, now, spawns)
          decreases |DueTimes(deferred, now)|
        {
          var pos := Least(deferred.Keys);
          ghost var d, item := deferred, Item(pos, deferred[pos]);
          FirstIsDue(d, now);
          TurnIs(d, now, SpawnedBy(spawns, k));
          ran := ran + [item];
          Callback(SpawnedBy(spawns, k));
          deferred := deferred - {pos};
          assert ran + Due(deferred, now) == (ran[..|ran| - 1] + ([item] + Due(deferred, now)));
          k := k + 1;
        }
        NothingDue(deferred, now);
      } else {
        NothingDue(deferred, now);
      }
    }
  }

  lemma NothingDue(d: Deferrals, now: Time)
    requires d.Keys == {} || Least(d.Keys) > now
    ensures Due(d, now) == [] && NotDue(d, now) == d
  {
    if d.Keys != {} { FirstIsDue(d, now); }
  }
}
