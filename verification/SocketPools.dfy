/** The socket pool itself: its fields, and its operations in place. */
module SocketPools {
  import opened Numbers
  import opened Ordered
  import opened SocketPoolState

  class SocketPool {
    var freeIndices: set<nat>
    var accounts: seq<Account>
    var mapping: map<Id, nat>
    var removable: seq<Id>
    ghost var peak: nat

    ghost function View(): Pool
      reads this
    {
      Pool(freeIndices, accounts, mapping, removable, peak)
    }

    ghost predicate Valid()
      reads this
    {
      PoolOk(View())
    }

    constructor ()
      ensures Valid() && Live(View()) == map[] && accounts == []
    {
      freeIndices, accounts, mapping, removable, peak := {}, [], map[], [], 0;
    }

    /** Puts a socket in the lowest free slot, if there is one. */
    method Put(sock: Socket, kind: Kind)
      requires FreeInRange(View()) && sock.Open?
      modifies this
      ensures View() == Added(old(View()), sock, kind)
    {
      if freeIndices == {} {
        mapping := mapping[sock.id := |accounts|];
        accounts := accounts + [Account(sock, kind)];
        assert freeIndices - {|accounts| - 1} == freeIndices;
      } else {
        var pos := Least(freeIndices);
        mapping := mapping[sock.id := pos];
        accounts := accounts[pos := Account(sock, kind)];
        freeIndices := freeIndices - {pos};
      }
      peak := Max(peak, |mapping.Keys|);
    }

    /** Adds a socket, whose id ought to be fresh. */
    method Add(sock: Socket, kind: Kind)
      requires Valid() && sock.Open?
      modifies this
      ensures View() == Added(old(View()), sock, kind)
      ensures Valid() <==> sock.id !in old(mapping)
      ensures Valid() ==> Live(View()) == old(Live(View()))[sock.id := Account(sock, kind)]
    {
      hide FreeInRange, Mapped, Used, Sized, Live, Added;
      AddKeepsExactly(View(), sock, kind);
      if sock.id !in mapping { AddInserts(View(), sock, kind); }
      Put(sock, kind);
    }

    method AddConnected(sock: Socket)
      requires Valid() && sock.Open?
      modifies this
      ensures Valid() <==> sock.id !in old(mapping)
      ensures Valid() ==> Live(View()) == old(Live(View()))[sock.id := Account(sock, Connected)]
    {
      Add(sock, Connected);
    }

    method AddAccepted(sock: Socket)
      requires Valid() && sock.Open?
      modifies this
      ensures Valid() <==> sock.id !in old(mapping)
      ensures Valid() ==> Live(View()) == old(Live(View()))[sock.id := Account(sock, Accepted)]
    {
      Add(sock, Accepted);
    }

    /** The account of the id; none of the three checks of its slot can fail. */
    method LocateAccount(id: Id) returns (found: bool, acc: Account)
      requires Valid()
      ensures found <==> id in Live(View())
      ensures found ==> acc == Live(View())[id] && acc.sock.Open? && acc.sock.id == id
    {
      hide Used, Sized;
      found, acc := id in mapping, Account(Closed, Connected);
      if found {
        var index := mapping[id];
        assert index < |accounts|;
        assert index !in freeIndices;
        assert accounts[index].sock.Open? && accounts[index].sock.id == id;
        acc := accounts[index];
      }
    }

    method Locate(id: Id) returns (found: bool, sock: Socket, isAccepted: bool)
      requires Valid()
      ensures found <==> id in Live(View())
      ensures found ==> sock == Live(View())[id].sock && (isAccepted <==> Live(View())[id].kind.Accepted?)
    {
      hide Mapped, Used, Sized, Live;
      var acc;
      found, acc := LocateAccount(id);
      sock, isAccepted := acc.sock, acc.kind.Accepted?;
    }

    method RemoveLater(id: Id)
      requires Valid()
      modifies this`removable
      ensures Valid() && Live(View()) == old(Live(View())) && removable == old(removable) + [id]
    {
      LaterKeeps(View(), id);
      hide Mapped, Used, Sized, Live;
      removable := removable + [id];
    }

    /** Closes the socket of the id, if it is there. */
    method CloseOne(id: Id)
      requires Mapped(View())
      modifies this`accounts, this`freeIndices, this`mapping
      ensures View() == RemovedOne(old(View()), id)
    {
      if id in mapping {
        var index := mapping[id];
        accounts := accounts[index := accounts[index].(sock := Closed)];
        freeIndices := freeIndices + {index};
        mapping := mapping - {id};
      }
    }

    /** Ids that are unknown, or listed twice, do no harm. */
    method ApplyRemove()
      requires Valid()
      modifies this
      ensures Valid() && View() == Applied(old(View()))
      ensures removable == [] && Live(View()) == old(Live(View())) - Listed(old(removable))
    {
      hide FreeInRange, Mapped, Used, Sized, Live, RemovedOne;
      AppliedIs(View());
      var k := 0;
      ghost var was := View();
      assert removable[0..] == removable;
      while k < |removable|
        invariant 0 <= k <= |removable| && removable == was.removable && Valid()
        invariant RemovedAll(View(), removable[k..]) == RemovedAll(was, was.removable)
      {
        RemoveKeeps(View(), removable[k]);
        assert removable[k..][0] == removable[k] && removable[k..][1..] == removable[k + 1..];
        CloseOne(removable[k]);
        k := k + 1;
      }
      removable := [];
    }
  }
}
