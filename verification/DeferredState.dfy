/** Deferred connections: a set ordered by time alone, and the steps that run what is due. */
module DeferredState {
  import opened Ordered

  /** A time point of the steady clock. */
  type Time = Id

  /** An attempt to connect, and when it is due. */
  datatype Item = Item(t: Time, call: nat)

  /** The set: two items of one time are the same to it. */
  type Deferrals = map<Time, nat>

  /** insert: an item is dropped if another of the same time is there. */
  function Inserted(d: Deferrals, i: Item): Deferrals {
    if i.t in d then d else d[i.t := i.call]
  }

  function InsertedAll(d: Deferrals, items: seq<Item>): Deferrals
    decreases |items|
  {
    if items == [] then d else InsertedAll(Inserted(d, items[0]), items[1..])
  }

  function DueTimes(d: Deferrals, now: Time): set<Time> { set t | t in d && t <= now }

  /** The due items, by time. */
  function Due(d: Deferrals, now: Time): (q: seq<Item>)
    decreases |DueTimes(d, now)|
  {
    var due := DueTimes(d, now);
    if due == {} then [] else
    var t := Least(due);
    assert DueTimes(d - {t}, now) == due - {t};
    [Item(t, d[t])] + Due(d - {t}, now)
  }

  function NotDue(d: Deferrals, now: Time): Deferrals { d - DueTimes(d, now) }

  /** The items scheduled by the callback that a step runs as its k-th. */
  function SpawnedBy(spawns: seq<seq<Item>>, k: nat): seq<Item> {
    if k < |spawns| then spawns[k] else []
  }

  /** A callback runs after the step has read the clock, and every timeout is positive. */
  predicate SpawnsLater(spawns: seq<seq<Item>>, now: Time) {
    forall k, i | 0 <= k < |spawns| && 0 <= i < |spawns[k]| :: spawns[k][i].t > now
  }

  /** The set after the callbacks from the k-th to before the n-th have scheduled their items. */
  function Spawned(d: Deferrals, spawns: seq<seq<Item>>, k: nat, n: nat): Deferrals
    requires k <= n
    decreases n - k
  {
    if k == n then d else Spawned(InsertedAll(d, SpawnedBy(spawns, k)), spawns, k + 1, n)
  }

  /** What a step leaves. */
  function AfterStep(d: Deferrals, now: Time, spawns: seq<seq<Item>>): Deferrals {
    Spawned(NotDue(d, now), spawns, 0, |Due(d, now)|)
  }

  // ---- Due items ---------------------------------------------------------------------

  /** The due items are exactly those whose time has come, in the order of their times. */
  lemma {:induction false} DueIs(d: Deferrals, now: Time)
    ensures forall i | 0 <= i < |Due(d, now)| ::
              var x := Due(d, now)[i]; x.t in d && x.t <= now && x.call == d[x.t]
    ensures forall t | t in DueTimes(d, now) :: Item(t, d[t]) in Due(d, now)
    ensures forall i, j | 0 <= i < j < |Due(d, now)| :: Due(d, now)[i].t < Due(d, now)[j].t
    decreases |DueTimes(d, now)|
  {
    hide DueTimes, Due;
    if DueTimes(d, now) != {} {
      var t := Least(DueTimes(d, now));
      DueFirst(d, now);
      DueIs(d - {t}, now);
      var rest := Due(d - {t}, now);
      forall s | s in DueTimes(d, now) ensures Item(s, d[s]) in Due(d, now) {
        if s != t { assert Item(s, (d - {t})[s]) in rest; }
      }
    } else {
      NoTimesDue(d, now);
    }
  }

  lemma NoTimesDue(d: Deferrals, now: Time)
    requires DueTimes(d, now) == {}
    ensures Due(d, now) == []
  {
  }

  /** The first item due is that of the least time, and what follows is what is due without it. */
  lemma DueFirst(d: Deferrals, now: Time)
    requires DueTimes(d, now) != {}
    ensures var t := Least(DueTimes(d, now));
            && t in d && t <= now && Due(d, now) == [Item(t, d[t])] + Due(d - {t}, now)
            && DueTimes(d - {t}, now) == DueTimes(d, now) - {t}
    ensures forall s | s in DueTimes(d, now) :: s in d
    ensures forall s | s in d && s <= now :: Least(DueTimes(d, now)) <= s
  {
    var t := Least(DueTimes(d, now));
    forall s | s in d && s <= now ensures t <= s { assert s in DueTimes(d, now); }
    assert DueTimes(d - {t}, now) == DueTimes(d, now) - {t};
  }

  /** Items of later times do not change what is due. */
  lemma {:induction false} LaterNotDue(d: Deferrals, items: seq<Item>, now: Time)
    requires forall i | 0 <= i < |items| :: items[i].t > now
    ensures DueTimes(InsertedAll(d, items), now) == DueTimes(d, now)
    ensures forall t | t in DueTimes(d, now) :: InsertedAll(d, items)[t] == d[t]
    decreases |items|
  {
    if items != [] {
      var e := Inserted(d, items[0]);
      assert DueTimes(e, now) == DueTimes(d, now);
      LaterNotDue(e, items[1..], now);
    }
  }

  lemma {:induction false} DueSame(a: Deferrals, b: Deferrals, now: Time)
    requires DueTimes(a, now) == DueTimes(b, now) && forall t | t in DueTimes(a, now) :: a[t] == b[t]
    ensures Due(a, now) == Due(b, now)
    decreases |DueTimes(a, now)|
  {
    var due := DueTimes(a, now);
    if due != {} {
      var t := Least(due);
      assert DueTimes(a - {t}, now) == due - {t} && DueTimes(b - {t}, now) == due - {t};
      DueSame(a - {t}, b - {t}, now);
    }
  }

  lemma {:induction false} NotDueBeside(d: Deferrals, items: seq<Item>, now: Time)
    requires forall i | 0 <= i < |items| :: items[i].t > now
    ensures NotDue(InsertedAll(d, items), now) == InsertedAll(NotDue(d, now), items)
    decreases |items|
  {
    if items != [] {
      var e := Inserted(d, items[0]);
      assert NotDue(e, now) == Inserted(NotDue(d, now), items[0]);
      NotDueBeside(e, items[1..], now);
    }
  }

  /** One turn of the loop: the item at the front is run, its callback schedules later items, and
      then it is erased. */
  lemma TurnIs(d: Deferrals, now: Time, items: seq<Item>)
    requires DueTimes(d, now) != {} && forall i | 0 <= i < |items| :: items[i].t > now
    ensures var t := Least(DueTimes(d, now)); var e := InsertedAll(d, items) - {t};
            && t in InsertedAll(d, items) && DueTimes(e, now) == DueTimes(d, now) - {t}
            && Due(d, now) == [Item(t, d[t])] + Due(e, now)
            && NotDue(e, now) == InsertedAll(NotDue(d, now), items)
  {
    var t := Least(DueTimes(d, now));
    LaterNotDue(d, items, now);
    var f := InsertedAll(d, items);
    var e := f - {t};
    assert DueTimes(e, now) == DueTimes(d, now) - {t} == DueTimes(d - {t}, now);
    DueSame(d - {t}, e, now);
    NotDueBeside(d, items, now);
    hide InsertedAll;
    assert NotDue(e, now) == NotDue(f, now);
  }

  /** The first of the set is due if anything is. */
  lemma FirstIsDue(d: Deferrals, now: Time)
    requires d.Keys != {}
    ensures Least(d.Keys) <= now <==> DueTimes(d, now) != {}
    ensures DueTimes(d, now) != {} ==> Least(DueTimes(d, now)) == Least(d.Keys)
  {
    var first := Least(d.Keys);
    if first <= now { assert first in DueTimes(d, now); }
  }

  // ---- Runs --------------------------------------------------------------------------

  /** The pool with its clock. The histories: all items that the set took, and all that were run;
      `stepped` is the clock as the last step read it, or the start. */
  datatype State = State(clock: Time, d: Deferrals, taken: seq<Item>, ran: seq<Item>, stepped: Time)

  datatype Event =
    | Tick(clock: Time)
    | Defer(timeout: nat, call: nat)
    | Step(spawns: seq<seq<Item>>)

  /** The clock does not go back. */
  predicate Enabled(s: State, e: Event) {
    match e
    case Tick(clock) => s.clock <= clock
    case Defer(timeout, _) => timeout > 0
    case Step(spawns) => SpawnsLater(spawns, s.clock)
  }

  /** The items of a list that the set takes. */
  function Fresh(d: Deferrals, items: seq<Item>): seq<Item>
    decreases |items|
  {
    if items == [] then []
    else (if items[0].t in d then [] else [items[0]]) + Fresh(Inserted(d, items[0]), items[1..])
  }

  function Scheduled(s: State, items: seq<Item>): State {
    s.(d := InsertedAll(s.d, items), taken := s.taken + Fresh(s.d, items))
  }

  function SpawnedState(s: State, spawns: seq<seq<Item>>, k: nat, n: nat): State
    requires k <= n
    decreases n - k
  {
    if k == n then s else SpawnedState(Scheduled(s, SpawnedBy(spawns, k)), spawns, k + 1, n)
  }

  function Apply(s: State, e: Event): State {
    match e
    case Tick(clock) => s.(clock := clock)
    case Defer(timeout, call) => Scheduled(s, [Item(s.clock + timeout, call)])
    case Step(spawns) =>
      var due := Due(s.d, s.clock);
      SpawnedState(s.(d := NotDue(s.d, s.clock), ran := s.ran + due, stepped := s.clock), spawns, 0, |due|)
  }

  predicate InOrder(q: seq<Item>) {
    forall i, j | 0 <= i < j < |q| :: q[i].t < q[j].t
  }

  predicate Pending(d: Deferrals, x: Item) { x.t in d && d[x.t] == x.call }

  /** Everything the set took has been run, or is pending; what has been run came before the last
      step, and what is pending comes after it. */
  ghost predicate StateOk(s: State) {
    && s.stepped <= s.clock
    && InOrder(s.ran)
    && (forall i | 0 <= i < |s.ran| :: s.ran[i].t <= s.stepped)
    && (forall t | t in s.d :: t > s.stepped)
    && (forall x :: x in s.taken <==> x in s.ran || Pending(s.d, x))
  }

  lemma {:induction false} ScheduledOk(s: State, items: seq<Item>)
    requires StateOk(s) && forall i | 0 <= i < |items| :: items[i].t > s.stepped
    ensures StateOk(Scheduled(s, items)) && Scheduled(s, items).stepped == s.stepped
    decreases |items|
  {
    if items == [] {
      assert s.taken + [] == s.taken;
    } else {
      var x := items[0];
      var n := s.(d := Inserted(s.d, x), taken := s.taken + (if x.t in s.d then [] else [x]));
      OneScheduled(s, x);
      ScheduledOk(n, items[1..]);
      assert n.taken + Fresh(n.d, items[1..]) == s.taken + Fresh(s.d, items);
    }
  }

  lemma OneScheduled(s: State, x: Item)
    requires StateOk(s) && x.t > s.stepped
    ensures StateOk(s.(d := Inserted(s.d, x), taken := s.taken + (if x.t in s.d then [] else [x])))
  {
    var n := s.(d := Inserted(s.d, x), taken := s.taken + (if x.t in s.d then [] else [x]));
    forall y ensures y in n.taken <==> y in n.ran || Pending(n.d, y) {
      assert y in n.taken <==> y in s.taken || (x.t !in s.d && y == x);
    }
  }

  lemma {:induction false} SpawnedOk(s: State, spawns: seq<seq<Item>>, k: nat, n: nat)
    requires StateOk(s) && k <= n && SpawnsLater(spawns, s.stepped)
    ensures StateOk(SpawnedState(s, spawns, k, n))
    decreases n - k
  {
    hide StateOk;
    if k < n {
      ScheduledOk(s, SpawnedBy(spawns, k));
      SpawnedOk(Scheduled(s, SpawnedBy(spawns, k)), spawns, k + 1, n);
    }
  }

  /** Taking the due items out, to run them. */
  lemma RunDueOk(s: State)
    requires StateOk(s)
    ensures StateOk(s.(d := NotDue(s.d, s.clock), ran := s.ran + Due(s.d, s.clock), stepped := s.clock))
  {
    var due := Due(s.d, s.clock);
    DueIs(s.d, s.clock);
    hide Due;
    var n := s.(d := NotDue(s.d, s.clock), ran := s.ran + due, stepped := s.clock);
    forall i, j | 0 <= i < j < |n.ran| ensures n.ran[i].t < n.ran[j].t {
      if i >= |s.ran| {
        assert n.ran[i] == due[i - |s.ran|] && n.ran[j] == due[j - |s.ran|];
      } else if j >= |s.ran| {
        assert n.ran[j] == due[j - |s.ran|];
      }
    }
    forall x: Item ensures x in n.taken <==> x in n.ran || Pending(n.d, x) {
      SplitDue(s.d, s.clock, x);
    }
  }

  lemma SplitDue(d: Deferrals, now: Time, x: Item)
    ensures Pending(d, x) <==> x in Due(d, now) || Pending(NotDue(d, now), x)
  {
    DueIs(d, now);
    hide Due;
    if Pending(d, x) && x.t <= now { assert x.t in DueTimes(d, now); }
  }

  lemma StepKeeps(s: State, e: Event)
    requires StateOk(s) && Enabled(s, e)
    ensures StateOk(Apply(s, e))
  {
    match e
    case Tick(clock) =>
    case Defer(timeout, call) => ScheduledOk(s, [Item(s.clock + timeout, call)]);
    case Step(spawns) =>
      RunDueOk(s);
      SpawnedOk(s.(d := NotDue(s.d, s.clock), ran := s.ran + Due(s.d, s.clock), stepped := s.clock),
                spawns, 0, |Due(s.d, s.clock)|);
  }

  datatype Outcome = Stuck | Reached(state: State)

  /** A run from a good state, each event enabled when its turn comes. */
  ghost function Run(s: State, es: seq<Event>): (r: Outcome)
    requires StateOk(s)
    ensures r.Reached? ==> StateOk(r.state)
    decreases |es|
  {
    if es == [] then Reached(s)
    else if !Enabled(s, es[0]) then Stuck
    else
      StepKeeps(s, es[0]);
      Run(Apply(s, es[0]), es[1..])
  }

  /** An empty pool. */
  function Start(clock: Time): (s: State)
    ensures StateOk(s)
  {
    State(clock, map[], [], [], clock)
  }

  /** In every run: no deferred connect is run twice, all are run in the order of their deadlines,
      whatever the callbacks schedule, and none that the set took is lost. */
  lemma RunsOnceInOrder(clock: Time, es: seq<Event>)
    requires Run(Start(clock), es).Reached?
    ensures var s := Run(Start(clock), es).state;
            && (forall i, j | 0 <= i < j < |s.ran| :: s.ran[i].t < s.ran[j].t)
            && (forall x :: x in s.taken <==> x in s.ran || Pending(s.d, x))
            && (forall x | x in s.ran :: !Pending(s.d, x))
  {
    hide Run;
    var s := Run(Start(clock), es).state;
    forall x | x in s.ran ensures !Pending(s.d, x) {
      var i :| 0 <= i < |s.ran| && s.ran[i] == x;
      assert x.t <= s.stepped;
    }
  }

  lemma {:induction false} ScheduleOnlyAdds(s: State, spawns: seq<seq<Item>>, k: nat, n: nat)
    requires k <= n
    ensures var r := SpawnedState(s, spawns, k, n); r.ran == s.ran && r.clock == s.clock && r.stepped == s.stepped
    decreases n - k
  {
    if k < n { ScheduleOnlyAdds(Scheduled(s, SpawnedBy(spawns, k)), spawns, k + 1, n); }
  }

  /** A step runs exactly what was due when it read the clock, and leaves nothing that is due. */
  lemma StepRunsDue(s: State, spawns: seq<seq<Item>>)
    requires StateOk(s) && Enabled(s, Step(spawns))
    ensures var r := Apply(s, Step(spawns));
            && r.ran == s.ran + Due(s.d, s.clock)
            && (forall x :: x in Due(s.d, s.clock) <==> Pending(s.d, x) && x.t <= s.clock)
            && (forall t | t in r.d :: t > s.clock)
  {
    StepKeeps(s, Step(spawns));
    var mid := s.(d := NotDue(s.d, s.clock), ran := s.ran + Due(s.d, s.clock), stepped := s.clock);
    ScheduleOnlyAdds(mid, spawns, 0, |Due(s.d, s.clock)|);
    forall x: Item ensures x in Due(s.d, s.clock) <==> Pending(s.d, x) && x.t <= s.clock {
      SplitDue(s.d, s.clock, x);
      DueIs(s.d, s.clock);
    }
    hide Due;
  }

  /** A deferred connect is dropped without a word if and only if another one of the same deadline
      is pending. */
  lemma DroppedExactly(s: State, timeout: nat, call: nat)
    requires timeout > 0
    ensures Apply(s, Defer(timeout, call)).taken == s.taken <==> s.clock + timeout in s.d
    ensures s.clock + timeout in s.d ==> Apply(s, Defer(timeout, call)) == s
  {
    var x := Item(s.clock + timeout, call);
    assert [x][1..] == [] && s.taken + [] == s.taken;
    assert |s.taken + [x]| == |s.taken| + 1;
    assert [x] + Fresh(Inserted(s.d, x), []) == [x];
    assert x.t in s.d ==> Fresh(s.d, [x]) == [] + Fresh(s.d, []) == [];
    assert x.t in s.d ==> InsertedAll(s.d, [x]) == InsertedAll(s.d, []) == s.d;
  }

  /** The set after a step is what the step's loop leaves. */
  lemma StepLeaves(s: State, spawns: seq<seq<Item>>)
    ensures Apply(s, Step(spawns)).d == AfterStep(s.d, s.clock, spawns)
  {
    var due := Due(s.d, s.clock);
    SpawnedSets(s.(d := NotDue(s.d, s.clock), ran := s.ran + due, stepped := s.clock), spawns, 0, |due|);
  }

  lemma {:induction false} SpawnedSets(s: State, spawns: seq<seq<Item>>, k: nat, n: nat)
    requires k <= n
    ensures SpawnedState(s, spawns, k, n).d == Spawned(s.d, spawns, k, n)
    decreases n - k
  {
    if k < n { SpawnedSets(Scheduled(s, SpawnedBy(spawns, k)), spawns, k + 1, n); }
  }
}
