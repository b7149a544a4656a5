/** The kill ring: at most ten killed texts, the most recent first. */
module KillRings {
  import opened Brackets

  datatype Action = ActionOther | ActionKill | ActionYank

  const CAPACITY: nat := 10

  /** The ring as its users see it: the texts from the most recent on, and the one to yank. */
  datatype Ring = Ring(recent: seq<Text>, index: nat, last: Action, lastYankSize: nat)

  /** initFromBuffer: the text up to its first zero. */
  function UpToZero(t: Text): Text {
    if t == [] || t[0] == 0 then [] else [t[0]] + UpToZero(t[1..])
  }

  predicate NoZero(t: Text) { forall i | 0 <= i < |t| :: t[i] != 0 }

  lemma {:induction false} UpToZeroWhole(t: Text)
    requires NoZero(t)
    ensures UpToZero(t) == t
  {
    if t != [] { UpToZeroWhole(t[1..]); }
  }

  predicate GoodTexts(recent: seq<Text>) {
    forall i | 0 <= i < |recent| :: recent[i] != [] && NoZero(recent[i])
  }

  predicate GoodSlots(recent: seq<Text>, index: nat) {
    && |recent| <= CAPACITY && GoodTexts(recent)
    && (index < |recent| || (recent == [] && index == 0))
  }

  predicate GoodRing(r: Ring) { GoodSlots(r.recent, r.index) }

  /** The texts after a kill: joined to the most recent one, or put in front of the others. */
  function KilledTexts(recent: seq<Text>, joins: bool, text: Text, forward: bool): seq<Text> {
    if text == [] then recent
    else if joins && recent != [] then [if forward then recent[0] + text else text + recent[0]] + recent[1..]
    else if |recent| < CAPACITY then [text] + recent
    else [text] + recent[..CAPACITY - 1]
  }

  function KillText(r: Ring, text: Text, forward: bool): Ring {
    r.(recent := KilledTexts(r.recent, r.last == ActionKill, text, forward),
       index := if text == [] || (r.last == ActionKill && r.recent != []) then r.index else 0)
  }

  /** The ring turned to its next text. */
  function Turned(r: Ring): Ring {
    if r.recent == [] then r else r.(index := NextIndex(r.index, |r.recent|))
  }

  function NextIndex(i: nat, size: nat): nat { if i + 1 == size then 0 else i + 1 }

  lemma KillIsGood(r: Ring, text: Text, forward: bool)
    requires GoodRing(r) && NoZero(text)
    ensures GoodRing(KillText(r, text, forward))
  {
  }

  lemma CurrentText(r: Ring)
    requires GoodRing(r) && r.recent != []
    ensures r.index < |r.recent| && r.recent[r.index] != []
  {
  }

  // ---- The index table ---------------------------------------------------------------

  ghost predicate Permutation(slots: seq<int>) {
    && (forall i | 0 <= i < |slots| :: 0 <= slots[i] < |slots|)
    && (forall i, j | 0 <= i < j < |slots| :: slots[i] != slots[j])
  }

  /** The texts in the order of the index table. */
  ghost function InOrder(ring: seq<Text>, slots: seq<int>): (r: seq<Text>)
    requires forall i | 0 <= i < |slots| :: 0 <= slots[i] < |ring|
    ensures |r| == |slots| && forall i | 0 <= i < |r| :: r[i] == ring[slots[i]]
  {
    seq(|slots|, i requires 0 <= i < |slots| => ring[slots[i]])
  }

  lemma JoinedInOrder(ring: seq<Text>, slots: seq<int>, joined: Text)
    requires Permutation(slots) && |ring| == |slots| > 0
    ensures InOrder(ring[slots[0] := joined], slots) == [joined] + InOrder(ring, slots)[1..]
  {
  }

  lemma PushedInOrder(ring: seq<Text>, slots: seq<int>, text: Text)
    requires Permutation(slots) && |ring| == |slots|
    ensures Permutation([|ring|] + slots)
    ensures InOrder(ring + [text], [|ring|] + slots) == [text] + InOrder(ring, slots)
  {
  }

  lemma RotatedInOrder(ring: seq<Text>, slots: seq<int>, text: Text, last: nat)
    requires Permutation(slots) && |ring| == |slots| == last + 1
    ensures Permutation([slots[last]] + slots[..last])
    ensures InOrder(ring[slots[last] := text], [slots[last]] + slots[..last])
         == [text] + InOrder(ring, slots)[..last]
  {
    RotatedPermutation(slots, last);
    var a := InOrder(ring[slots[last] := text], [slots[last]] + slots[..last]);
    var b := [text] + InOrder(ring, slots)[..last];
    forall i | 0 <= i < |a| ensures a[i] == b[i] {
      if i > 0 { assert ([slots[last]] + slots[..last])[i] == slots[i - 1]; }
    }
  }

  lemma RotatedPermutation(slots: seq<int>, last: nat)
    requires Permutation(slots) && |slots| == last + 1
    ensures Permutation([slots[last]] + slots[..last])
  {
  }

  class KillRing {
    var size: nat
    var index: nat
    const indexToSlot: array<int>
    var theRing: seq<Text>
    var lastAction: Action
    var lastYankSize: nat

    ghost predicate Shape()
      reads this, indexToSlot
    {
      && indexToSlot.Length == CAPACITY && size <= CAPACITY && |theRing| == size
      && Permutation(indexToSlot[..size])
    }

    ghost function View(): Ring
      requires Shape()
      reads this, indexToSlot
    {
      Ring(InOrder(theRing, indexToSlot[..size]), index, lastAction, lastYankSize)
    }

    ghost predicate Valid()
      reads this, indexToSlot
    {
      Shape() && GoodRing(View())
    }

    constructor ()
      ensures Valid() && fresh(indexToSlot)
      ensures View().recent == [] && lastAction == ActionOther
    {
      size, index, theRing, lastAction := 0, 0, [], ActionOther;
      indexToSlot := new int[CAPACITY];
    }

    method Note(action: Action)
      requires Shape()
      modifies this`lastAction
      ensures Shape() && View() == old(View()).(last := action)
    {
      lastAction := action;
    }

    method NoteSize(n: nat)
      requires Shape()
      modifies this`lastYankSize
      ensures Shape() && View() == old(View()).(lastYankSize := n)
    {
      lastYankSize := n;
    }

    /** Moves the first n entries of the index table up by one, and puts slot in front. */
    method PutInFront(n: nat, slot: int)
      requires n < indexToSlot.Length
      modifies indexToSlot
      ensures indexToSlot[..n + 1] == [slot] + old(indexToSlot[..n])
    {
      forall i | 0 <= i < n { indexToSlot[i + 1] := indexToSlot[i]; }
      indexToSlot[0] := slot;
    }

    /** Joins the text to the most recent one. */
    method Join(text: Text, forward: bool)
      requires Shape() && size > 0
      requires var top := View().recent[0]; NoZero(if forward then top + text else text + top)
      modifies this`theRing
      ensures Shape()
      ensures var top := old(View()).recent[0];
              View() == old(View()).(recent := [if forward then top + text else text + top] + old(View()).recent[1..])
    {
      var slot := indexToSlot[0];
      var joined := if forward then theRing[slot] + text else text + theRing[slot];
      UpToZeroWhole(joined);
      JoinedInOrder(theRing, indexToSlot[..size], joined);
      theRing := theRing[slot := UpToZero(joined)];
    }

    /** Takes a slot of its own for the text, in a ring that is not yet full. */
    method Push(text: Text)
      requires Shape() && size < CAPACITY
      modifies this`theRing, this`size, indexToSlot
      ensures Shape() && View() == old(View()).(recent := [text] + old(View()).recent)
    {
      PushedInOrder(theRing, indexToSlot[..size], text);
      PutInFront(size, size);
      size := size + 1;
      theRing := theRing + [text];
    }

    /** Reuses the slot of the oldest text of a full ring. */
    method Replace(text: Text)
      requires Shape() && size == CAPACITY
      modifies this`theRing, indexToSlot
      ensures Shape() && View() == old(View()).(recent := [text] + old(View()).recent[..CAPACITY - 1])
    {
      ghost var slots := indexToSlot[..size];
      RotatedInOrder(theRing, slots, text, CAPACITY - 1);
      var slot := indexToSlot[CAPACITY - 1];
      theRing := theRing[slot := text];
      assert slots[..CAPACITY - 1] == indexToSlot[..CAPACITY - 1];
      PutInFront(CAPACITY - 1, slot);
    }

    method Kill(text: Text, forward: bool)
      requires Valid() && NoZero(text)
      modifies this, indexToSlot
      ensures Valid() && View() == KillText(old(View()), text, forward)
    {
      KillIsGood(View(), text, forward);
      if text == [] { return; }
      if lastAction == ActionKill && size > 0 {
        KillKeepsZeroFree(View(), text, forward);
        hide GoodSlots, Permutation;
        Join(text, forward);
      } else {
        hide GoodSlots, Permutation;
        if size < CAPACITY {
          Push(text);
        } else {
          Replace(text);
        }
        index := 0;
      }
    }

    /** The text to yank, if there is one. */
    method Yank() returns (text: Text)
      requires Valid()
      ensures text == if View().recent == [] then [] else View().recent[View().index]
    {
      if size > 0 {
        text := theRing[indexToSlot[index]];
      } else {
        text := [];
      }
    }

    method YankPop() returns (text: Text)
      requires Valid()
      modifies this`index
      ensures Valid() && View() == Turned(old(View()))
      ensures text == if View().recent == [] then [] else View().recent[View().index]
    {
      if size == 0 { return []; }
      index := index + 1;
      if index == size { index := 0; }
      text := theRing[indexToSlot[index]];
    }
  }

  lemma KillKeepsZeroFree(r: Ring, text: Text, forward: bool)
    requires GoodRing(r) && NoZero(text) && r.recent != []
    ensures NoZero(if forward then r.recent[0] + text else text + r.recent[0])
  {
  }
}
