/** The keys of an ordered map or set, in the order in which its iterators visit them. */
module Ordered {

  /** Socket ids count down from a random seed and are taken to stay positive. */
  type Id = nat

  predicate IsLeast(x: Id, s: set<Id>) {
    x in s && forall y | y in s :: x <= y
  }

  lemma {:induction false} LeastExists(s: set<Id>)
    requires s != {}
    ensures exists x :: IsLeast(x, s)
  {
    var x: Id :| x in s;
    var rest := s - {x};
    assert s == rest + {x};
    if rest == {} {
      assert IsLeast(x, s);
    } else {
      LeastExists(rest);
      var y: Id :| IsLeast(y, rest);
      assert IsLeast(if y < x then y else x, s);
    }
  }

  /** The key an iteration starts with. */
  function Least(s: set<Id>): (x: Id)
    requires s != {}
    ensures IsLeast(x, s)
  {
    LeastExists(s);
    var x: Id :| x in s && IsLeast(x, s);
    x
  }

  /** The keys in the order of iteration. */
  function Ascending(s: set<Id>): (q: seq<Id>)
    ensures forall x :: x in q <==> x in s
  {
    if s == {} then [] else [Least(s)] + Ascending(s - {Least(s)})
  }

  /** The order is the ascending one, without repetition. */
  lemma {:induction false} AscendingSorted(s: set<Id>)
    ensures forall i, j | 0 <= i < j < |Ascending(s)| :: Ascending(s)[i] < Ascending(s)[j]
  {
    if s != {} {
      var rest := s - {Least(s)};
      AscendingSorted(rest);
      var q := Ascending(s);
      forall i, j | 0 <= i < j < |q| ensures q[i] < q[j] {
        assert q[j] in Ascending(rest);
        if i > 0 { assert q[i] == Ascending(rest)[i - 1] && q[j] == Ascending(rest)[j - 1]; }
      }
    }
  }

  // ---- Erasing listed keys -----------------------------------------------------------

  function Listed(ids: seq<Id>): set<Id> { set id | id in ids }

  lemma OneMoreListed(ids: seq<Id>, k: nat)
    requires k < |ids|
    ensures Listed(ids[..k + 1]) == Listed(ids[..k]) + {ids[k]}
  {
  }

  lemma AllListed(ids: seq<Id>)
    ensures Listed(ids[..0]) == {} && Listed(ids[..|ids|]) == Listed(ids)
  {
    assert ids[..|ids|] == ids;
  }

  lemma OneMoreErased<V>(m: map<Id, V>, gone: set<Id>, id: Id)
    ensures (m - gone) - {id} == m - (gone + {id}) && m - {} == m
  {
  }

  lemma ErasedInTwo<V>(m: map<Id, V>, id: Id, more: set<Id>)
    ensures (m - {id}) - more == m - ({id} + more) && m - {} == m
  {
  }

  lemma OneMoreTaken(s: set<Id>, gone: set<Id>, id: Id)
    ensures (s - gone) - {id} == s - (gone + {id}) && s - {} == s
  {
  }
}
