/** A render object or element that keeps its children by slot in two
    dictionaries, `slotToChild` and `childToSlot` (the chip and the input
    decorator both do). */
module SlotMaps {
  import opened Wrappers

  datatype Slots<S(==,!new), C(==)> = Slots(slotToChild: map<S, C>, childToSlot: map<C, S>)

  function Empty<S(==,!new), C(==)>(): (r: Slots<S, C>)
    ensures Inverse(r)
  {
    Slots(map[], map[])
  }

  /** The two maps are inverse to each other. */
  predicate Inverse<S(==,!new), C(==)>(m: Slots<S, C>) {
    (forall s | s in m.slotToChild :: m.slotToChild[s] in m.childToSlot && m.childToSlot[m.slotToChild[s]] == s) &&
    (forall c | c in m.childToSlot :: m.childToSlot[c] in m.slotToChild && m.slotToChild[m.childToSlot[c]] == c)
  }

  /** A child that may go into a slot: one not held elsewhere. The
      framework's `updateChild` returns either a new element or the one
      already in the slot. */
  predicate FitsSlot<S(==,!new), C(==)>(m: Slots<S, C>, slot: S, child: Option<C>) {
    child.Some? && child.value in m.childToSlot ==> m.childToSlot[child.value] == slot
  }

  /** The child in a slot, if any. */
  function ChildAt<S(==,!new), C(==)>(m: Slots<S, C>, slot: S): Option<C> {
    if slot in m.slotToChild then Some(m.slotToChild[slot]) else None
  }

  /** The old child leaves both maps and the new one, if any, enters both;
      the other slots keep their children. */
  function Replace<S(==,!new), C(==)>(m: Slots<S, C>, slot: S, newChild: Option<C>): (r: Slots<S, C>)
    requires Inverse(m) && FitsSlot(m, slot, newChild)
    ensures Inverse(r)
    ensures ChildAt(r, slot) == newChild
    ensures forall s | s != slot :: ChildAt(r, s) == ChildAt(m, s)
  {
    var cleared := if slot in m.slotToChild then Slots(m.slotToChild - {slot}, m.childToSlot - {m.slotToChild[slot]}) else m;
    if newChild.Some? then Slots(cleared.slotToChild[slot := newChild.value], cleared.childToSlot[newChild.value := slot])
    else cleared
  }

  /** A render object's `_updateChild(oldChild, newChild, slot)`: called by
      a slot's setter with the child currently in that slot; the old child
      is dropped from both maps, the new one added, and returned. */
  function UpdateRenderChild<S(==,!new), C(==)>(m: Slots<S, C>, oldChild: Option<C>, newChild: Option<C>, slot: S): (r: (Slots<S, C>, Option<C>))
    requires Inverse(m) && FitsSlot(m, slot, newChild)
    requires oldChild == ChildAt(m, slot)
    ensures Inverse(r.0) && r.1 == newChild
    ensures ChildAt(r.0, slot) == newChild
    ensures forall s | s != slot :: ChildAt(r.0, s) == ChildAt(m, s)
    ensures oldChild.Some? && oldChild != newChild ==> oldChild.value !in r.0.childToSlot
  {
    var cleared := if oldChild.Some? then Slots(m.slotToChild - {slot}, m.childToSlot - {oldChild.value}) else m;
    if newChild.Some? then
      (Slots(cleared.slotToChild[slot := newChild.value], cleared.childToSlot[newChild.value := slot]), newChild)
    else (cleared, newChild)
  }

  /** Setting a slot to its current child changes nothing. */
  lemma UpdateRenderChildToSame<S(!new), C>(m: Slots<S, C>, slot: S)
    requires Inverse(m)
    ensures UpdateRenderChild(m, ChildAt(m, slot), ChildAt(m, slot), slot).0 == m
  {
    var z := UpdateRenderChild(m, ChildAt(m, slot), ChildAt(m, slot), slot).0;
    assert z.slotToChild == m.slotToChild;
    assert z.childToSlot == m.childToSlot;
  }

  /** Setting a slot twice is setting it once to the second child. */
  lemma UpdateRenderChildTwice<S(!new), C>(m: Slots<S, C>, a: Option<C>, b: Option<C>, slot: S)
    requires Inverse(m) && FitsSlot(m, slot, a) && FitsSlot(m, slot, b)
    ensures var m1 := UpdateRenderChild(m, ChildAt(m, slot), a, slot).0;
            FitsSlot(m1, slot, b) &&
            UpdateRenderChild(m1, a, b, slot).0 == UpdateRenderChild(m, ChildAt(m, slot), b, slot).0
  {
    var m1 := UpdateRenderChild(m, ChildAt(m, slot), a, slot).0;
    assert FitsSlot(m1, slot, b);
    var x := UpdateRenderChild(m1, a, b, slot).0;
    var y := UpdateRenderChild(m, ChildAt(m, slot), b, slot).0;
    forall s ensures ChildAt(x, s) == ChildAt(y, s) {
      if s != slot {
        assert ChildAt(x, s) == ChildAt(m1, s) == ChildAt(m, s);
      }
    }
    SameChildrenSameSlots(x, y);
  }

  /** `forgetChild`: the child leaves both maps. */
  function ForgetChild<S(==,!new), C(==)>(m: Slots<S, C>, child: C): (r: Slots<S, C>)
    requires Inverse(m) && child in m.childToSlot
    ensures Inverse(r)
    ensures child !in r.childToSlot && ChildAt(r, m.childToSlot[child]).None?
    ensures forall s | s != m.childToSlot[child] :: ChildAt(r, s) == ChildAt(m, s)
  {
    Slots(m.slotToChild - {m.childToSlot[child]}, m.childToSlot - {child})
  }

  /** Two inverse slot maps with the same child in every slot are equal. */
  lemma SameChildrenSameSlots<S(!new), C>(a: Slots<S, C>, b: Slots<S, C>)
    requires Inverse(a) && Inverse(b)
    requires forall s :: ChildAt(a, s) == ChildAt(b, s)
    ensures a == b
  {
    forall s ensures (s in a.slotToChild <==> s in b.slotToChild) && (s in a.slotToChild ==> a.slotToChild[s] == b.slotToChild[s]) {
      assert ChildAt(a, s) == ChildAt(b, s);
    }
    assert a.slotToChild == b.slotToChild;
    forall c ensures (c in a.childToSlot <==> c in b.childToSlot) && (c in a.childToSlot ==> a.childToSlot[c] == b.childToSlot[c]) {
      if c in a.childToSlot {
        assert ChildAt(b, a.childToSlot[c]) == Some(c);
      }
      if c in b.childToSlot {
        assert ChildAt(a, b.childToSlot[c]) == Some(c);
      }
    }
    assert a.childToSlot == b.childToSlot;
  }
}
