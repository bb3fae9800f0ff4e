/** The element tree's reconciliation (widgets/framework.cs): which widget an
    element may take over, how dirty elements are ordered and scheduled,
    the keyed list diff of `RenderObjectElement.updateChildren`, depths,
    global-key registration, inactive elements and the creator chain. */
module Framework {
  import opened Wrappers

  type Key = nat
  type ElementId = nat

  /** A widget as reconciliation sees it: its runtime type, its key and its
      identity (two widgets with the same type and key are still different
      objects). */
  datatype Widget = Widget(typeId: nat, key: Option<Key>, id: nat)

  /** `Widget.canUpdate`: same runtime type and same key. */
  predicate CanUpdate(prior: Widget, next: Widget) {
    prior.typeId == next.typeId && prior.key == next.key
  }

  /** `canUpdate` is an equivalence: an element can always take its own
      widget back, and the relation is symmetric and transitive. */
  lemma CanUpdateIsEquivalence(a: Widget, b: Widget, c: Widget)
    ensures CanUpdate(a, a)
    ensures CanUpdate(a, b) <==> CanUpdate(b, a)
    ensures CanUpdate(a, b) && CanUpdate(b, c) ==> CanUpdate(a, c)
    ensures CanUpdate(a, b) <==> a.typeId == b.typeId && a.key == b.key
  {
  }

  // ---------------------------------------------------------------------------
  // Ordering dirty elements

  /** What `Element._sort` reads of an element. */
  datatype ElementKey = ElementKey(id: ElementId, depth: int, dirty: bool)

  /** The position of an element in the order: depth first, then clean
      before dirty. */
  function Rank(e: ElementKey): int { 2 * e.depth + (if e.dirty then 1 else 0) }

  /** `Element._sort`: shallower first; at equal depth clean before dirty;
      otherwise equal. */
  function Compare(a: ElementKey, b: ElementKey): (r: int)
    ensures r == -1 <==> Rank(a) < Rank(b)
    ensures r == 1 <==> Rank(b) < Rank(a)
    ensures r == 0 <==> a.depth == b.depth && a.dirty == b.dirty
  {
    if a.depth < b.depth then -1
    else if b.depth < a.depth then 1
    else if b.dirty && !a.dirty then -1
    else if a.dirty && !b.dirty then 1
    else 0
  }

  /** `_sort` is a total preorder: antisymmetric in sign, transitive, and
      every two elements are comparable. */
  lemma CompareIsTotalPreorder(a: ElementKey, b: ElementKey, c: ElementKey)
    ensures Compare(a, b) == -Compare(b, a)
    ensures Compare(a, b) <= 0 && Compare(b, c) <= 0 ==> Compare(a, c) <= 0
    ensures Compare(a, b) <= 0 || Compare(b, a) <= 0
    ensures Compare(a, a) == 0
  {
  }

  /** Ordered by `_sort`: no later element compares below an earlier one. */
  predicate SortedByCompare(s: seq<ElementKey>) {
    forall i, j | 0 <= i < j < |s| :: Rank(s[i]) <= Rank(s[j])
  }

  /** Sortedness by rank is sortedness by `_sort`. */
  lemma SortedMeansCompareOrdered(s: seq<ElementKey>, i: int, j: int)
    requires SortedByCompare(s) && 0 <= i < j < |s|
    ensures Compare(s[i], s[j]) <= 0
  {
  }

  function Insert(x: ElementKey, s: seq<ElementKey>): (r: seq<ElementKey>)
    requires SortedByCompare(s)
    ensures multiset(r) == multiset(s) + multiset{x}
    ensures SortedByCompare(r)
    ensures |r| == |s| + 1
  {
    if s == [] then [x]
    else if Compare(x, s[0]) <= 0 then
      [x] + s
    else
      var t := Insert(x, s[1..]);
      assert s == [s[0]] + s[1..];
      InsertAfterHead(x, s, t);
      [s[0]] + t
  }

  lemma InsertAfterHead(x: ElementKey, s: seq<ElementKey>, t: seq<ElementKey>)
    requires |s| > 0 && SortedByCompare(s) && Rank(s[0]) < Rank(x)
    requires multiset(t) == multiset(s[1..]) + multiset{x} && SortedByCompare(t)
    ensures SortedByCompare([s[0]] + t)
  {
    forall k | 0 <= k < |t| ensures Rank(s[0]) <= Rank(t[k]) {
      assert t[k] in multiset(t);
      if t[k] != x {
        assert t[k] in multiset(s[1..]);
        var j :| 0 <= j < |s[1..]| && s[1..][j] == t[k];
        assert s[j + 1] == t[k];
      }
    }
    var r := [s[0]] + t;
    forall i, j | 0 <= i < j < |r| ensures Rank(r[i]) <= Rank(r[j]) {
      if i > 0 {
        assert r[i] == t[i - 1] && r[j] == t[j - 1];
      } else {
        assert r[j] == t[j - 1];
      }
    }
  }

  /** `List.Sort(Element._sort)`: a permutation ordered by `_sort` (the
      relative order of equal elements is not modelled). */
  function SortElements(s: seq<ElementKey>): (r: seq<ElementKey>)
    ensures multiset(r) == multiset(s)
    ensures SortedByCompare(r)
  {
    if s == [] then []
    else
      assert s == [s[0]] + s[1..];
      Insert(s[0], SortElements(s[1..]))
  }

  // ---------------------------------------------------------------------------
  // Depths

  /** An element subtree as far as depths are concerned. */
  datatype ElementTree = ElementNode(id: ElementId, depth: int, active: bool, children: seq<ElementTree>)

  /** Every child lies strictly deeper than its parent. */
  predicate DepthsIncrease(t: ElementTree)
    decreases t
  {
    forall i | 0 <= i < |t.children| :: t.children[i].depth > t.depth && DepthsIncrease(t.children[i])
  }

  /** Every node sits exactly one level below its parent, as `mount`
      leaves it (the root one level below `parentDepth`; 1 for no parent). */
  predicate MountedBelow(t: ElementTree, parentDepth: int)
    decreases t
  {
    t.depth == parentDepth + 1 &&
    forall i | 0 <= i < |t.children| :: MountedBelow(t.children[i], t.depth)
  }

  /** `mount`'s depth: one below the parent, 1 at the root. */
  function MountDepth(parentDepth: Option<int>): (d: int)
    ensures parentDepth.Some? ==> d > parentDepth.value
    ensures d == MountedDepthOf(parentDepth)
  {
    if parentDepth.Some? then parentDepth.value + 1 else 1
  }

  /** The root of a tree counts as mounted below depth 0. */
  function MountedDepthOf(parentDepth: Option<int>): int {
    parentDepth.GetOr(0) + 1
  }

  /** `_updateDepth`: a node shallower than one below its new parent is
      moved down and its children follow; a node already deep enough is
      left alone with its whole subtree. */
  function UpdateDepth(t: ElementTree, parentDepth: int): (r: ElementTree)
    ensures r.depth > parentDepth && r.depth >= t.depth
    ensures r.id == t.id && r.active == t.active && |r.children| == |t.children|
    decreases t
  {
    if t.depth < parentDepth + 1 then
      ElementNode(t.id, parentDepth + 1, t.active,
                  seq(|t.children|, i requires 0 <= i < |t.children| => UpdateDepth(t.children[i], parentDepth + 1)))
    else t
  }

  /** A freshly mounted tree has strictly increasing depths. */
  lemma {:induction false} MountedDepthsIncrease(t: ElementTree, parentDepth: int)
    requires MountedBelow(t, parentDepth)
    ensures DepthsIncrease(t)
    decreases t
  {
    forall i | 0 <= i < |t.children| ensures t.children[i].depth > t.depth && DepthsIncrease(t.children[i]) {
      MountedDepthsIncrease(t.children[i], t.depth);
    }
  }

  /** Moving a subtree under a new parent keeps depths increasing and puts
      the root strictly below the parent. */
  lemma {:induction false} UpdateDepthKeepsOrder(t: ElementTree, parentDepth: int)
    requires DepthsIncrease(t)
    ensures DepthsIncrease(UpdateDepth(t, parentDepth))
    decreases t
  {
    if t.depth < parentDepth + 1 {
      var r := UpdateDepth(t, parentDepth);
      forall i | 0 <= i < |r.children| ensures r.children[i].depth > r.depth && DepthsIncrease(r.children[i]) {
        UpdateDepthKeepsOrder(t.children[i], parentDepth + 1);
      }
    }
  }

  /** Reattaching a tree at the depth it was mounted at changes nothing. */
  lemma UpdateDepthOfMountedIsIdentity(t: ElementTree, parentDepth: int)
    requires MountedBelow(t, parentDepth)
    ensures UpdateDepth(t, parentDepth) == t
  {
  }

  // ---------------------------------------------------------------------------
  // updateChild

  /** What `updateChild` leaves in the slot: nothing, the same element
      (taking the new widget when it is a different object), or a newly
      inflated element. */
  datatype SlotResult = Cleared | Kept(takesNewWidget: bool) | Inflated
  datatype UpdateChildOutcome = UpdateChildOutcome(slot: SlotResult, deactivatesPrior: bool)

  /** `Element.updateChild`: no widget clears the slot; a widget the child
      can take is given to it; otherwise the child is deactivated and the
      widget inflated. */
  function UpdateChild(child: Option<Widget>, newWidget: Option<Widget>): (r: UpdateChildOutcome)
    ensures r.slot.Cleared? <==> newWidget.None?
    ensures r.slot.Kept? <==> child.Some? && newWidget.Some? && CanUpdate(child.value, newWidget.value)
    ensures r.slot.Kept? ==> (r.slot.takesNewWidget <==> child.value != newWidget.value)
    ensures r.deactivatesPrior <==> child.Some? && !r.slot.Kept?
  {
    if newWidget.None? then UpdateChildOutcome(Cleared, child.Some?)
    else if child.Some? && child.value == newWidget.value then UpdateChildOutcome(Kept(false), false)
    else if child.Some? && CanUpdate(child.value, newWidget.value) then UpdateChildOutcome(Kept(true), false)
    else UpdateChildOutcome(Inflated, child.Some?)
  }

  // ---------------------------------------------------------------------------
  // updateChildren

  /** Each new slot of `updateChildren`: the old child at an index kept, or
      a new element inflated. Old children are named by their index. */
  datatype NewChild = Updated(prior: nat) | Fresh

  /** An old child that is present and not forgotten. */
  predicate Usable(priors: seq<Widget>, forgotten: set<nat>, j: int) {
    0 <= j < |priors| && j !in forgotten
  }

  /** Every kept child is a usable old child that can take the widget of its
      new slot. */
  predicate KeepsMatching(priors: seq<Widget>, forgotten: set<nat>, nw: seq<Widget>, children: seq<NewChild>) {
    |children| == |nw| &&
    forall i | 0 <= i < |children| && children[i].Updated? ::
      Usable(priors, forgotten, children[i].prior) && CanUpdate(priors[children[i].prior], nw[i])
  }

  /** No old child is kept in two slots. */
  predicate Injective(children: seq<NewChild>) {
    forall i, j | 0 <= i < j < |children| && children[i].Updated? && children[j].Updated? ::
      children[i].prior != children[j].prior
  }

  /** The siblings' keys are unique, as the framework demands of a list. */
  predicate UniqueKeys(priors: seq<Widget>) {
    forall i, j | 0 <= i < j < |priors| && priors[i].key.Some? :: priors[i].key != priors[j].key
  }

  /** The first `t` pairs from the top match: each old child is usable and
      can take the new widget at its index. */
  predicate TopRun(priors: seq<Widget>, nw: seq<Widget>, forgotten: set<nat>, t: int) {
    0 <= t <= |priors| && t <= |nw| &&
    forall i | 0 <= i < t :: Usable(priors, forgotten, i) && CanUpdate(priors[i], nw[i])
  }

  /** A new widget the old middle's keyed index can serve: its key is filed
      and the child filed under it can take the widget. */
  predicate MiddleClaim(priors: seq<Widget>, nw: seq<Widget>, keyed: map<Key, nat>, i: int)
    requires 0 <= i < |nw|
  {
    nw[i].key.Some? && nw[i].key.value in keyed && keyed[nw[i].key.value] < |priors| &&
    CanUpdate(priors[keyed[nw[i].key.value]], nw[i])
  }

  /** The first loop: the longest run of leading usable old children that
      can take the new widget at the same index. */
  method ScanTop(priors: seq<Widget>, nw: seq<Widget>, forgotten: set<nat>) returns (top: nat)
    ensures top <= |priors| && top <= |nw|
    ensures forall i | 0 <= i < top :: Usable(priors, forgotten, i) && CanUpdate(priors[i], nw[i])
    ensures top < |priors| && top < |nw| ==> !Usable(priors, forgotten, top) || !CanUpdate(priors[top], nw[top])
  {
    top := 0;
    while top < |priors| && top < |nw| && top !in forgotten && CanUpdate(priors[top], nw[top])
      invariant top <= |priors| && top <= |nw|
      invariant forall i | 0 <= i < top :: Usable(priors, forgotten, i) && CanUpdate(priors[i], nw[i])
    {
      top := top + 1;
    }
  }

  /** The bottom `k`-th pair (counting from 0 at the ends) matches. */
  predicate BottomMatches(priors: seq<Widget>, nw: seq<Widget>, forgotten: set<nat>, k: nat)
    requires k < |priors| && k < |nw|
  {
    Usable(priors, forgotten, |priors| - 1 - k) && CanUpdate(priors[|priors| - 1 - k], nw[|nw| - 1 - k])
  }

  /** The last `t` pairs from the bottom match. */
  predicate BottomRun(priors: seq<Widget>, nw: seq<Widget>, forgotten: set<nat>, t: int) {
    0 <= t <= |priors| && t <= |nw| &&
    forall k | 0 <= k < t :: BottomMatches(priors, nw, forgotten, k)
  }

  /** The second loop: how many trailing pairs above the scanned top match. */
  method ScanBottom(priors: seq<Widget>, nw: seq<Widget>, forgotten: set<nat>, top: nat) returns (m: nat)
    requires top <= |priors| && top <= |nw|
    ensures top + m <= |priors| && top + m <= |nw|
    ensures forall k | 0 <= k < m :: BottomMatches(priors, nw, forgotten, k)
    ensures top + m < |priors| && top + m < |nw| ==> !BottomMatches(priors, nw, forgotten, m)
  {
    m := 0;
    while top + m < |priors| && top + m < |nw| && BottomMatches(priors, nw, forgotten, m)
      invariant top + m <= |priors| && top + m <= |nw|
      invariant forall k | 0 <= k < m :: BottomMatches(priors, nw, forgotten, k)
    {
      m := m + 1;
    }
  }

  /** The keyed index of the old middle: every entry is a usable old child
      in [lo, hi) filed under its own key. */
  predicate KeyedIndex(priors: seq<Widget>, forgotten: set<nat>, keyed: map<Key, nat>, lo: int, hi: int) {
    forall k | k in keyed :: lo <= keyed[k] < hi && Usable(priors, forgotten, keyed[k]) && priors[keyed[k]].key == Some(k)
  }

  /** The third loop: the usable old middle children, keyed ones filed by
      key (a later one with the same key replaces an earlier one), unkeyed
      ones deactivated. */
  method CollectKeyed(priors: seq<Widget>, forgotten: set<nat>, lo: nat, hi: nat)
    returns (keyed: map<Key, nat>, deactivated: set<nat>)
    requires lo <= hi <= |priors|
    ensures KeyedIndex(priors, forgotten, keyed, lo, hi)
    ensures forall j | j in deactivated :: lo <= j < hi && Usable(priors, forgotten, j) && priors[j].key.None?
    ensures forall j | lo <= j < hi && Usable(priors, forgotten, j) && priors[j].key.None? :: j in deactivated
    ensures forall j | lo <= j < hi && Usable(priors, forgotten, j) && priors[j].key.Some? :: priors[j].key.value in keyed
    ensures UniqueKeys(priors) ==>
      forall j | lo <= j < hi && Usable(priors, forgotten, j) && priors[j].key.Some? :: keyed[priors[j].key.value] == j
  {
    keyed := map[];
    deactivated := {};
    var j := lo;
    while j < hi
      invariant lo <= j <= hi
      invariant KeyedIndex(priors, forgotten, keyed, lo, j)
      invariant forall x | x in deactivated :: lo <= x < j && Usable(priors, forgotten, x) && priors[x].key.None?
      invariant forall x | lo <= x < j && Usable(priors, forgotten, x) && priors[x].key.None? :: x in deactivated
      invariant forall x | lo <= x < j && Usable(priors, forgotten, x) && priors[x].key.Some? :: priors[x].key.value in keyed
      invariant UniqueKeys(priors) ==>
        forall x | lo <= x < j && Usable(priors, forgotten, x) && priors[x].key.Some? :: keyed[priors[x].key.value] == x
    {
      if j !in forgotten {
        if priors[j].key.Some? {
          keyed := keyed[priors[j].key.value := j];
        } else {
          deactivated := deactivated + {j};
        }
      }
      j := j + 1;
    }
  }

  /** What the fourth loop keeps after filling `slots` for the new widgets
      from `lo` on: kept children come from the index, match their widget
      and have left `rest`, and `rest` is the untouched part of the index. */
  predicate MiddleInv(priors: seq<Widget>, nw: seq<Widget>, forgotten: set<nat>, lo: nat,
                      keyed: map<Key, nat>, oLo: int, oHi: int, slots: seq<NewChild>, rest: map<Key, nat>)
  {
    lo + |slots| <= |nw| &&
    (forall x | 0 <= x < |slots| && slots[x].Updated? ::
      oLo <= slots[x].prior < oHi && Usable(priors, forgotten, slots[x].prior) &&
      CanUpdate(priors[slots[x].prior], nw[lo + x]) &&
      priors[slots[x].prior].key.Some? && priors[slots[x].prior].key.value !in rest) &&
    KeyedIndex(priors, forgotten, rest, oLo, oHi) &&
    (forall k | k in rest :: k in keyed && rest[k] == keyed[k]) &&
    (forall k | k in keyed && k !in rest :: Updated(keyed[k]) in slots) &&
    Injective(slots)
  }

  /** Which slots the index served: a widget it cannot serve is inflated,
      and with unique new keys one it can serve takes the child filed under
      its key. */
  predicate MiddleServed(priors: seq<Widget>, nw: seq<Widget>, lo: nat, keyed: map<Key, nat>, slots: seq<NewChild>)
    requires lo + |slots| <= |nw|
  {
    (forall x | 0 <= x < |slots| && !MiddleClaim(priors, nw, keyed, lo + x) :: slots[x] == Fresh) &&
    (UniqueKeys(nw) ==>
      forall x | 0 <= x < |slots| && MiddleClaim(priors, nw, keyed, lo + x) ::
        slots[x] == Updated(keyed[nw[lo + x].key.value]))
  }

  /** A keyed widget takes the child still filed under its key. */
  lemma MiddleTake(priors: seq<Widget>, nw: seq<Widget>, forgotten: set<nat>, lo: nat,
                   keyed: map<Key, nat>, oLo: int, oHi: int, slots: seq<NewChild>, rest: map<Key, nat>)
    requires MiddleInv(priors, nw, forgotten, lo, keyed, oLo, oHi, slots, rest)
    requires lo + |slots| < |nw|
    requires nw[lo + |slots|].key.Some? && nw[lo + |slots|].key.value in rest
    requires CanUpdate(priors[rest[nw[lo + |slots|].key.value]], nw[lo + |slots|])
    ensures var k := nw[lo + |slots|].key.value;
            MiddleInv(priors, nw, forgotten, lo, keyed, oLo, oHi, slots + [Updated(rest[k])], rest - {k})
  {
    var k := nw[lo + |slots|].key.value;
    var p := rest[k];
    var s2, r2 := slots + [Updated(p)], rest - {k};
    forall x | 0 <= x < |slots| && slots[x].Updated? ensures slots[x].prior != p {
      assert priors[slots[x].prior].key.value !in rest;
    }
    forall x | 0 <= x < |s2| && s2[x].Updated?
      ensures oLo <= s2[x].prior < oHi && Usable(priors, forgotten, s2[x].prior)
      ensures CanUpdate(priors[s2[x].prior], nw[lo + x])
      ensures priors[s2[x].prior].key.Some? && priors[s2[x].prior].key.value !in r2
    {
      if x < |slots| {
        assert s2[x] == slots[x];
      }
    }
    forall k' | k' in keyed && k' !in r2 ensures Updated(keyed[k']) in s2 {
      if k' == k {
        assert s2[|slots|] == Updated(p);
      } else {
        assert Updated(keyed[k']) in slots;
      }
    }
    forall i, j | 0 <= i < j < |s2| && s2[i].Updated? && s2[j].Updated? ensures s2[i].prior != s2[j].prior {
      if j < |slots| {
        assert s2[i] == slots[i] && s2[j] == slots[j];
      } else {
        assert s2[i] == slots[i];
      }
    }
  }

  /** Taking the filed child serves the widget as the index promises. */
  lemma MiddleTakeServed(priors: seq<Widget>, nw: seq<Widget>, lo: nat, keyed: map<Key, nat>,
                         slots: seq<NewChild>, rest: map<Key, nat>)
    requires lo + |slots| < |nw| && MiddleServed(priors, nw, lo, keyed, slots)
    requires forall k | k in rest :: k in keyed && rest[k] == keyed[k]
    requires nw[lo + |slots|].key.Some? && nw[lo + |slots|].key.value in rest
    requires rest[nw[lo + |slots|].key.value] < |priors|
    requires CanUpdate(priors[rest[nw[lo + |slots|].key.value]], nw[lo + |slots|])
    ensures MiddleServed(priors, nw, lo, keyed, slots + [Updated(rest[nw[lo + |slots|].key.value])])
  {
    var s2 := slots + [Updated(rest[nw[lo + |slots|].key.value])];
    assert forall x | 0 <= x < |slots| :: s2[x] == slots[x];
  }

  /** A widget the remaining index cannot serve is inflated. */
  lemma MiddleFresh(priors: seq<Widget>, nw: seq<Widget>, forgotten: set<nat>, lo: nat,
                    keyed: map<Key, nat>, oLo: int, oHi: int, slots: seq<NewChild>, rest: map<Key, nat>)
    requires MiddleInv(priors, nw, forgotten, lo, keyed, oLo, oHi, slots, rest)
    requires lo + |slots| < |nw|
    ensures MiddleInv(priors, nw, forgotten, lo, keyed, oLo, oHi, slots + [Fresh], rest)
  {
    var s2 := slots + [Fresh];
    assert forall x | 0 <= x < |slots| :: s2[x] == slots[x];
  }

  /** Inflating is what the index promises when it cannot serve the widget. */
  lemma MiddleFreshServed(priors: seq<Widget>, nw: seq<Widget>, forgotten: set<nat>, lo: nat,
                          keyed: map<Key, nat>, oLo: int, oHi: int, slots: seq<NewChild>, rest: map<Key, nat>)
    requires KeyedIndex(priors, forgotten, keyed, oLo, oHi)
    requires MiddleInv(priors, nw, forgotten, lo, keyed, oLo, oHi, slots, rest)
    requires lo + |slots| < |nw| && MiddleServed(priors, nw, lo, keyed, slots)
    requires !(nw[lo + |slots|].key.Some? && nw[lo + |slots|].key.value in rest &&
               CanUpdate(priors[rest[nw[lo + |slots|].key.value]], nw[lo + |slots|]))
    ensures MiddleServed(priors, nw, lo, keyed, slots + [Fresh])
  {
    var i := lo + |slots|;
    if UniqueKeys(nw) && MiddleClaim(priors, nw, keyed, i) {
      ClaimedKeyStillFiled(priors, nw, forgotten, lo, i, keyed, rest, slots, oLo, oHi);
    }
    var s2 := slots + [Fresh];
    assert forall x | 0 <= x < |slots| :: s2[x] == slots[x];
  }

  /** The fourth loop over the new middle [lo, hi): a keyed widget takes the
      old child filed under its key when it can update it (removing it from
      the index); every other widget is inflated. */
  method UpdateMiddle(priors: seq<Widget>, nw: seq<Widget>, forgotten: set<nat>, lo: nat, hi: nat,
                      keyed: map<Key, nat>, oLo: int, oHi: int)
    returns (slots: seq<NewChild>, rest: map<Key, nat>)
    requires lo <= hi <= |nw|
    requires KeyedIndex(priors, forgotten, keyed, oLo, oHi)
    ensures |slots| == hi - lo
    ensures forall i | 0 <= i < |slots| && slots[i].Updated? ::
      oLo <= slots[i].prior < oHi && Usable(priors, forgotten, slots[i].prior) &&
      CanUpdate(priors[slots[i].prior], nw[lo + i]) &&
      priors[slots[i].prior].key.Some? && priors[slots[i].prior].key.value !in rest
    ensures KeyedIndex(priors, forgotten, rest, oLo, oHi)
    ensures forall k | k in rest :: k in keyed && rest[k] == keyed[k]
    ensures forall k | k in keyed && k !in rest :: Updated(keyed[k]) in slots
    ensures Injective(slots)
    ensures forall i | 0 <= i < |slots| && !MiddleClaim(priors, nw, keyed, lo + i) :: slots[i] == Fresh
    ensures UniqueKeys(nw) ==>
      forall i | 0 <= i < |slots| && MiddleClaim(priors, nw, keyed, lo + i) ::
        slots[i] == Updated(keyed[nw[lo + i].key.value])
  {
    slots := [];
    rest := keyed;
    var i := lo;
    while i < hi
      invariant lo <= i <= hi && |slots| == i - lo
      invariant MiddleInv(priors, nw, forgotten, lo, keyed, oLo, oHi, slots, rest)
      invariant MiddleServed(priors, nw, lo, keyed, slots)
    {
      var w := nw[i];
      if w.key.Some? && w.key.value in rest && CanUpdate(priors[rest[w.key.value]], w) {
        MiddleTake(priors, nw, forgotten, lo, keyed, oLo, oHi, slots, rest);
        MiddleTakeServed(priors, nw, lo, keyed, slots, rest);
        var k := w.key.value;
        slots := slots + [Updated(rest[k])];
        rest := rest - {k};
      } else {
        MiddleFresh(priors, nw, forgotten, lo, keyed, oLo, oHi, slots, rest);
        MiddleFreshServed(priors, nw, forgotten, lo, keyed, oLo, oHi, slots, rest);
        slots := slots + [Fresh];
      }
      i := i + 1;
    }
  }

  /** With unique new keys, a key the middle has not yet met is still filed:
      whoever claimed an entry carried that entry's key. */
  lemma ClaimedKeyStillFiled(priors: seq<Widget>, nw: seq<Widget>, forgotten: set<nat>, lo: nat, i: nat,
                             keyed: map<Key, nat>, rest: map<Key, nat>, slots: seq<NewChild>, oLo: int, oHi: int)
    requires lo <= i < |nw| && |slots| == i - lo
    requires UniqueKeys(nw) && MiddleClaim(priors, nw, keyed, i)
    requires KeyedIndex(priors, forgotten, keyed, oLo, oHi)
    requires forall x | 0 <= x < |slots| && slots[x].Updated? ::
      Usable(priors, forgotten, slots[x].prior) && CanUpdate(priors[slots[x].prior], nw[lo + x])
    requires forall k | k in keyed && k !in rest :: Updated(keyed[k]) in slots
    ensures nw[i].key.value in rest
  {
    var k := nw[i].key.value;
    forall x | 0 <= x < |slots| && slots[x].Updated?
      ensures slots[x].prior != keyed[k]
    {
      assert nw[lo + x].key == priors[slots[x].prior].key;
    }
  }

  /** `count` consecutive kept children starting at priors index `from`. */
  function Run(from: nat, count: nat): (r: seq<NewChild>)
    ensures |r| == count && forall i | 0 <= i < count :: r[i] == Updated(from + i)
  {
    if count == 0 then [] else Run(from, count - 1) + [Updated(from + count - 1)]
  }

  /** What the four loops of `updateChildren` establish together: a matching
      top run, a matching bottom run of `m` pairs, the keyed index and the
      deactivated unkeyed children of the old middle, and the new middle's
      slots with the index entries left unclaimed. */
  predicate Phases(priors: seq<Widget>, nw: seq<Widget>, forgotten: set<nat>, top: nat, m: nat,
                   keyed: map<Key, nat>, dead: set<nat>, slots: seq<NewChild>, rest: map<Key, nat>)
  {
    top + m <= |priors| && top + m <= |nw| &&
    (forall i | 0 <= i < top :: Usable(priors, forgotten, i) && CanUpdate(priors[i], nw[i])) &&
    (forall k | 0 <= k < m :: BottomMatches(priors, nw, forgotten, k)) &&
    (forall j | j in dead :: top <= j < |priors| - m && Usable(priors, forgotten, j) && priors[j].key.None?) &&
    (forall j | top <= j < |priors| - m && Usable(priors, forgotten, j) && priors[j].key.None? :: j in dead) &&
    (forall j | top <= j < |priors| - m && Usable(priors, forgotten, j) && priors[j].key.Some? :: priors[j].key.value in keyed) &&
    (UniqueKeys(priors) ==>
      forall j | top <= j < |priors| - m && Usable(priors, forgotten, j) && priors[j].key.Some? :: keyed[priors[j].key.value] == j) &&
    |slots| == |nw| - m - top &&
    (forall i | 0 <= i < |slots| && slots[i].Updated? ::
      top <= slots[i].prior < |priors| - m && Usable(priors, forgotten, slots[i].prior) &&
      CanUpdate(priors[slots[i].prior], nw[top + i]) &&
      priors[slots[i].prior].key.Some? && priors[slots[i].prior].key.value !in rest) &&
    KeyedIndex(priors, forgotten, rest, top, |priors| - m) &&
    (forall k | k in rest :: k in keyed && rest[k] == keyed[k]) &&
    (forall k | k in keyed && k !in rest :: Updated(keyed[k]) in slots) &&
    Injective(slots)
  }

  /** Every pair inside a matching run from the top keeps its old child. */
  predicate KeepsTopRun(priors: seq<Widget>, nw: seq<Widget>, forgotten: set<nat>, children: seq<NewChild>)
    requires |children| == |nw|
  {
    forall i | 0 <= i < |nw| && TopRun(priors, nw, forgotten, i + 1) :: children[i] == Updated(i)
  }

  /** Every pair inside a matching run of `t` pairs from the bottom keeps its
      old child, unless the run from the top already reaches it. */
  predicate KeepsBottomRun(priors: seq<Widget>, nw: seq<Widget>, forgotten: set<nat>, children: seq<NewChild>)
    requires |children| == |nw|
  {
    forall t | 1 <= t <= |nw| && BottomRun(priors, nw, forgotten, t) &&
               !TopRun(priors, nw, forgotten, Min(|priors|, |nw|) - t + 1) ::
      children[|nw| - t] == Updated(|priors| - t)
  }

  /** Each new widget keeps any usable keyed old child that can take it. */
  predicate KeepsKeyed(priors: seq<Widget>, nw: seq<Widget>, forgotten: set<nat>, children: seq<NewChild>)
    requires |children| == |nw|
  {
    forall i, j | 0 <= i < |nw| && 0 <= j < |priors| && Usable(priors, forgotten, j) && priors[j].key.Some? &&
                  CanUpdate(priors[j], nw[i]) ::
      children[i] == Updated(j)
  }

  /** The scans stopped at the first failing pair from either end, and the
      middle's slots are the ones its keyed index serves. */
  predicate PhasesStop(priors: seq<Widget>, nw: seq<Widget>, forgotten: set<nat>, top: nat, m: nat,
                       keyed: map<Key, nat>, slots: seq<NewChild>)
  {
    top + m <= |priors| && top + m <= |nw| && |slots| == |nw| - m - top &&
    (top < |priors| && top < |nw| ==> !Usable(priors, forgotten, top) || !CanUpdate(priors[top], nw[top])) &&
    (top + m < |priors| && top + m < |nw| ==> !BottomMatches(priors, nw, forgotten, m)) &&
    (UniqueKeys(nw) ==>
      forall x | 0 <= x < |slots| && MiddleClaim(priors, nw, keyed, top + x) ::
        slots[x] == Updated(keyed[nw[top + x].key.value]))
  }

  /** The four loops of `updateChildren` in order. */
  method RunPhases(priors: seq<Widget>, nw: seq<Widget>, forgotten: set<nat>)
    returns (top: nat, m: nat, keyed: map<Key, nat>, dead: set<nat>, slots: seq<NewChild>, rest: map<Key, nat>)
    ensures Phases(priors, nw, forgotten, top, m, keyed, dead, slots, rest)
    ensures PhasesStop(priors, nw, forgotten, top, m, keyed, slots)
  {
    top := ScanTop(priors, nw, forgotten);
    m := ScanBottom(priors, nw, forgotten, top);
    keyed := map[];
    dead := {};
    if top < |priors| - m {
      keyed, dead := CollectKeyed(priors, forgotten, top, |priors| - m);
    }
    slots, rest := UpdateMiddle(priors, nw, forgotten, top, |nw| - m, keyed, top, |priors| - m);
  }

  /** `RenderObjectElement.updateChildren`: one slot per new widget, each kept
      old child usable and able to take its slot's widget, no old child kept
      twice, and the deactivated children exactly the usable old ones that
      were not kept (given unique sibling keys). Forgotten children are never
      kept nor deactivated. */
  method UpdateChildren(priors: seq<Widget>, nw: seq<Widget>, forgotten: set<nat>)
    returns (children: seq<NewChild>, deactivated: set<nat>)
    ensures KeepsMatching(priors, forgotten, nw, children)
    ensures Injective(children)
    ensures forall j | j in deactivated :: Usable(priors, forgotten, j) && Updated(j) !in children
    ensures UniqueKeys(priors) ==>
      forall j | Usable(priors, forgotten, j) :: j in deactivated || Updated(j) in children
    ensures KeepsTopRun(priors, nw, forgotten, children)
    ensures KeepsBottomRun(priors, nw, forgotten, children)
    ensures UniqueKeys(priors) && UniqueKeys(nw) ==> KeepsKeyed(priors, nw, forgotten, children)
  {
    var top, m, keyed, dead, slots, rest := RunPhases(priors, nw, forgotten);
    children := Run(0, top) + slots + Run(|priors| - m, m);
    deactivated := dead + (set k | k in rest && rest[k] !in forgotten :: rest[k]);
    Assemble(priors, nw, forgotten, top, m, keyed, dead, slots, rest, children, deactivated);
    AssembleReuse(priors, nw, forgotten, top, m, keyed, dead, slots, rest, children);
  }

  lemma AssembleReuse(priors: seq<Widget>, nw: seq<Widget>, forgotten: set<nat>, top: nat, m: nat,
                      keyed: map<Key, nat>, dead: set<nat>, slots: seq<NewChild>, rest: map<Key, nat>,
                      children: seq<NewChild>)
    requires Phases(priors, nw, forgotten, top, m, keyed, dead, slots, rest)
    requires PhasesStop(priors, nw, forgotten, top, m, keyed, slots)
    requires children == Run(0, top) + slots + Run(|priors| - m, m)
    ensures |children| == |nw|
    ensures KeepsTopRun(priors, nw, forgotten, children)
    ensures KeepsBottomRun(priors, nw, forgotten, children)
    ensures UniqueKeys(priors) && UniqueKeys(nw) ==> KeepsKeyed(priors, nw, forgotten, children)
  {
    var head := Run(0, top);
    assert forall i | 0 <= i < top :: children[i] == head[i];
    TopKept(priors, nw, forgotten, top, children);
    BottomKept(priors, nw, forgotten, top, m, slots, children);
    KeyedKept(priors, nw, forgotten, top, m, keyed, slots, children);
  }

  /** Every pair inside a matching run from the top is kept in place: the
      scan stops only at the first pair that fails. */
  lemma TopKept(priors: seq<Widget>, nw: seq<Widget>, forgotten: set<nat>, top: nat, children: seq<NewChild>)
    requires TopRun(priors, nw, forgotten, top)
    requires top < |priors| && top < |nw| ==> !Usable(priors, forgotten, top) || !CanUpdate(priors[top], nw[top])
    requires |children| == |nw| && forall i | 0 <= i < top :: children[i] == Updated(i)
    ensures KeepsTopRun(priors, nw, forgotten, children)
  {
    forall t | top < t <= |nw| ensures !TopRun(priors, nw, forgotten, t) {
      if t <= |priors| {
        assert !(Usable(priors, forgotten, top) && CanUpdate(priors[top], nw[top]));
      }
    }
  }

  /** Every pair inside a matching run from the bottom that the top scan
      did not reach is kept in place. */
  lemma BottomKept(priors: seq<Widget>, nw: seq<Widget>, forgotten: set<nat>, top: nat, m: nat,
                   slots: seq<NewChild>, children: seq<NewChild>)
    requires TopRun(priors, nw, forgotten, top)
    requires top + m <= |priors| && top + m <= |nw| && BottomRun(priors, nw, forgotten, m)
    requires top + m < |priors| && top + m < |nw| ==> !BottomMatches(priors, nw, forgotten, m)
    requires |slots| == |nw| - m - top
    requires children == Run(0, top) + slots + Run(|priors| - m, m)
    ensures KeepsBottomRun(priors, nw, forgotten, children)
  {
    forall t | 1 <= t <= |nw| && m < t
      ensures !BottomRun(priors, nw, forgotten, t) || TopRun(priors, nw, forgotten, Min(|priors|, |nw|) - t + 1)
    {
      if top + m < |priors| && top + m < |nw| {
        assert !BottomMatches(priors, nw, forgotten, m);
      }
    }
    var tail := Run(|priors| - m, m);
    forall x | |nw| - m <= x < |nw| ensures children[x] == Updated(|priors| - |nw| + x) {
      assert children[x] == tail[x - (|nw| - m)];
    }
  }

  /** With unique keys on both sides, an old child that can take a new
      widget is kept in that widget's slot, wherever the two sit: in the
      top run, in the bottom run, or in the middle through the keyed
      index. */
  lemma KeyedKept(priors: seq<Widget>, nw: seq<Widget>, forgotten: set<nat>, top: nat, m: nat,
                  keyed: map<Key, nat>, slots: seq<NewChild>, children: seq<NewChild>)
    requires TopRun(priors, nw, forgotten, top)
    requires top + m <= |priors| && top + m <= |nw| && BottomRun(priors, nw, forgotten, m)
    requires forall j | top <= j < |priors| - m && Usable(priors, forgotten, j) && priors[j].key.Some? :: priors[j].key.value in keyed
    requires UniqueKeys(priors) ==>
      forall j | top <= j < |priors| - m && Usable(priors, forgotten, j) && priors[j].key.Some? :: keyed[priors[j].key.value] == j
    requires |slots| == |nw| - m - top
    requires UniqueKeys(nw) ==>
      forall x | 0 <= x < |slots| && MiddleClaim(priors, nw, keyed, top + x) ::
        slots[x] == Updated(keyed[nw[top + x].key.value])
    requires children == Run(0, top) + slots + Run(|priors| - m, m)
    ensures UniqueKeys(priors) && UniqueKeys(nw) ==> KeepsKeyed(priors, nw, forgotten, children)
  {
    if UniqueKeys(priors) && UniqueKeys(nw) {
      var head, tail := Run(0, top), Run(|priors| - m, m);
      forall i, j | 0 <= i < |nw| && 0 <= j < |priors| && Usable(priors, forgotten, j) && priors[j].key.Some? &&
                    CanUpdate(priors[j], nw[i])
        ensures children[i] == Updated(j)
      {
        if i < top {
          assert children[i] == head[i];
          assert priors[i].key == priors[j].key;
        } else if i >= |nw| - m {
          var q := |nw| - 1 - i;
          assert BottomMatches(priors, nw, forgotten, q);
          assert priors[|priors| - 1 - q].key == priors[j].key;
          assert children[i] == tail[i - (|nw| - m)];
        } else {
          forall x | 0 <= x < top ensures priors[x].key != nw[i].key {
            assert CanUpdate(priors[x], nw[x]);
          }
          forall x | |priors| - m <= x < |priors| ensures priors[x].key != nw[i].key {
            assert BottomMatches(priors, nw, forgotten, |priors| - 1 - x);
          }
          assert top <= j < |priors| - m;
          assert MiddleClaim(priors, nw, keyed, top + (i - top));
          assert children[i] == slots[i - top];
        }
      }
    }
  }

  lemma Assemble(priors: seq<Widget>, nw: seq<Widget>, forgotten: set<nat>, top: nat, m: nat,
                 keyed: map<Key, nat>, dead: set<nat>, slots: seq<NewChild>, rest: map<Key, nat>,
                 children: seq<NewChild>, deactivated: set<nat>)
    requires Phases(priors, nw, forgotten, top, m, keyed, dead, slots, rest)
    requires children == Run(0, top) + slots + Run(|priors| - m, m)
    requires deactivated == dead + (set k | k in rest && rest[k] !in forgotten :: rest[k])
    ensures KeepsMatching(priors, forgotten, nw, children)
    ensures Injective(children)
    ensures forall j | j in deactivated :: Usable(priors, forgotten, j) && Updated(j) !in children
    ensures UniqueKeys(priors) ==>
      forall j | Usable(priors, forgotten, j) :: j in deactivated || Updated(j) in children
  {
    var oBot := |priors| - m;
    var head := Run(0, top);
    var tail := Run(oBot, m);
    ChildrenInRanges(priors, nw, forgotten, top, m, head, slots, tail, rest, children);
    ChildrenInjective(head, slots, tail, top, oBot, children);
    DeactivatedNotKept(priors, forgotten, top, oBot, head, slots, tail, dead, rest, deactivated, children);
    KeptOrDeactivated(priors, forgotten, top, oBot, head, slots, tail, keyed, dead, rest, deactivated, children);
  }

  lemma KeptOrDeactivated(priors: seq<Widget>, forgotten: set<nat>, top: nat, oBot: nat,
                          head: seq<NewChild>, slots: seq<NewChild>, tail: seq<NewChild>,
                          keyed: map<Key, nat>, dead: set<nat>, rest: map<Key, nat>,
                          deactivated: set<nat>, children: seq<NewChild>)
    requires top <= oBot <= |priors|
    requires |head| == top && forall i | 0 <= i < top :: head[i] == Updated(i)
    requires |tail| == |priors| - oBot && forall i | 0 <= i < |tail| :: tail[i] == Updated(oBot + i)
    requires forall j | top <= j < oBot && Usable(priors, forgotten, j) && priors[j].key.None? :: j in dead
    requires forall j | top <= j < oBot && Usable(priors, forgotten, j) && priors[j].key.Some? :: priors[j].key.value in keyed
    requires UniqueKeys(priors) ==>
      forall j | top <= j < oBot && Usable(priors, forgotten, j) && priors[j].key.Some? :: keyed[priors[j].key.value] == j
    requires forall k | k in rest :: k in keyed && rest[k] == keyed[k]
    requires forall k | k in keyed && k !in rest :: Updated(keyed[k]) in slots
    requires deactivated == dead + (set k | k in rest && rest[k] !in forgotten :: rest[k])
    requires children == head + slots + tail
    ensures UniqueKeys(priors) ==>
      forall j | Usable(priors, forgotten, j) :: j in deactivated || Updated(j) in children
  {
    if UniqueKeys(priors) {
      forall j | Usable(priors, forgotten, j) ensures j in deactivated || Updated(j) in children {
        if j < top {
          assert children[j] == head[j];
        } else if j >= oBot {
          assert children[top + |slots| + (j - oBot)] == tail[j - oBot];
        } else if priors[j].key.None? {
          assert j in dead;
        } else {
          var k := priors[j].key.value;
          assert keyed[k] == j;
          if k in rest {
            assert rest[k] == j;
          } else {
            var x :| 0 <= x < |slots| && slots[x] == Updated(j);
            assert children[top + x] == slots[x];
          }
        }
      }
    }
  }

  lemma ChildrenInRanges(priors: seq<Widget>, nw: seq<Widget>, forgotten: set<nat>, top: nat, m: nat,
                         head: seq<NewChild>, slots: seq<NewChild>, tail: seq<NewChild>,
                         rest: map<Key, nat>, children: seq<NewChild>)
    requires top + m <= |priors| && top + m <= |nw|
    requires forall i | 0 <= i < top :: Usable(priors, forgotten, i) && CanUpdate(priors[i], nw[i])
    requires forall k | 0 <= k < m :: BottomMatches(priors, nw, forgotten, k)
    requires |head| == top && forall i | 0 <= i < top :: head[i] == Updated(i)
    requires |tail| == m && forall i | 0 <= i < m :: tail[i] == Updated(|priors| - m + i)
    requires |slots| == |nw| - m - top
    requires forall i | 0 <= i < |slots| && slots[i].Updated? ::
      Usable(priors, forgotten, slots[i].prior) && CanUpdate(priors[slots[i].prior], nw[top + i])
    requires children == head + slots + tail
    ensures KeepsMatching(priors, forgotten, nw, children)
  {
    forall i | 0 <= i < |children| && children[i].Updated?
      ensures Usable(priors, forgotten, children[i].prior) && CanUpdate(priors[children[i].prior], nw[i])
    {
      if i < top {
        assert children[i] == head[i];
      } else if i < top + |slots| {
        assert children[i] == slots[i - top];
      } else {
        var k := |nw| - 1 - i;
        assert children[i] == tail[i - top - |slots|];
        assert BottomMatches(priors, nw, forgotten, k);
      }
    }
  }

  lemma ChildrenInjective(head: seq<NewChild>, slots: seq<NewChild>, tail: seq<NewChild>, top: nat, oBot: nat,
                          children: seq<NewChild>)
    requires |head| == top && forall i | 0 <= i < top :: head[i] == Updated(i)
    requires forall i | 0 <= i < |tail| :: tail[i] == Updated(oBot + i)
    requires top <= oBot
    requires forall i | 0 <= i < |slots| && slots[i].Updated? :: top <= slots[i].prior < oBot
    requires Injective(slots)
    requires children == head + slots + tail
    ensures Injective(children)
  {
    forall i, j | 0 <= i < j < |children| && children[i].Updated? && children[j].Updated?
      ensures children[i].prior != children[j].prior
    {
      var a := top + |slots|;
      if j < top {
        assert children[i] == head[i] && children[j] == head[j];
      } else if i < top {
        assert children[i] == head[i];
        if j < a { assert children[j] == slots[j - top]; } else { assert children[j] == tail[j - a]; }
      } else if j < a {
        assert children[i] == slots[i - top] && children[j] == slots[j - top];
      } else if i < a {
        assert children[i] == slots[i - top] && children[j] == tail[j - a];
      } else {
        assert children[i] == tail[i - a] && children[j] == tail[j - a];
      }
    }
  }

  lemma DeactivatedNotKept(priors: seq<Widget>, forgotten: set<nat>, top: nat, oBot: nat,
                           head: seq<NewChild>, slots: seq<NewChild>, tail: seq<NewChild>,
                           dead: set<nat>, rest: map<Key, nat>, deactivated: set<nat>, children: seq<NewChild>)
    requires |head| == top && forall i | 0 <= i < top :: head[i] == Updated(i)
    requires forall i | 0 <= i < |tail| :: tail[i] == Updated(oBot + i)
    requires forall j | j in dead :: top <= j < oBot && Usable(priors, forgotten, j) && priors[j].key.None?
    requires KeyedIndex(priors, forgotten, rest, top, oBot)
    requires forall i | 0 <= i < |slots| && slots[i].Updated? ::
      Usable(priors, forgotten, slots[i].prior) && priors[slots[i].prior].key.Some? && priors[slots[i].prior].key.value !in rest
    requires deactivated == dead + (set k | k in rest && rest[k] !in forgotten :: rest[k])
    requires children == head + slots + tail
    ensures forall j | j in deactivated :: Usable(priors, forgotten, j) && Updated(j) !in children
  {
    forall j | j in deactivated ensures Usable(priors, forgotten, j) && Updated(j) !in children {
      assert top <= j < oBot && Usable(priors, forgotten, j);
    }
  }

  /** Every kept slot of `updateChildren` is one where `updateChild` keeps
      the priors element rather than deactivating it. */
  lemma UpdateChildrenKeepsViaUpdateChild(priors: seq<Widget>, forgotten: set<nat>, nw: seq<Widget>,
                                          children: seq<NewChild>, i: nat)
    requires KeepsMatching(priors, forgotten, nw, children)
    requires i < |children| && children[i].Updated?
    ensures UpdateChild(Some(priors[children[i].prior]), Some(nw[i])).slot.Kept?
    ensures !UpdateChild(Some(priors[children[i].prior]), Some(nw[i])).deactivatesPrior
  {
  }

  // ---------------------------------------------------------------------------
  // The dirty-element list

  /** The build owner's dirty list, the `_inDirtyList` flags (as the set of
      flagged elements), the resort flag and whether a flush is scheduled. */
  datatype BuildOwner = BuildOwner(dirtyElements: seq<ElementId>, inDirtyList: set<ElementId>,
                                   needsResorting: Option<bool>, scheduledFlush: bool)

  /** The flags mark exactly the listed elements, each listed once. */
  predicate Consistent(o: BuildOwner) {
    (forall i, j | 0 <= i < j < |o.dirtyElements| :: o.dirtyElements[i] != o.dirtyElements[j]) &&
    (set e | e in o.dirtyElements) == o.inDirtyList
  }

  datatype Scheduled = Scheduled(owner: BuildOwner, fired: bool)

  /** `scheduleBuildFor`: an element already listed only asks for a resort;
      otherwise it is appended and flagged, and `onBuildScheduled` fires if
      set and no flush is pending yet. */
  function ScheduleBuildFor(o: BuildOwner, e: ElementId, hasOnBuildScheduled: bool): (r: Scheduled)
    ensures e in o.inDirtyList ==> r == Scheduled(o.(needsResorting := Some(true)), false)
    ensures e !in o.inDirtyList ==>
      r.owner.dirtyElements == o.dirtyElements + [e] && r.owner.inDirtyList == o.inDirtyList + {e} &&
      r.owner.needsResorting == o.needsResorting
    ensures r.fired <==> e !in o.inDirtyList && !o.scheduledFlush && hasOnBuildScheduled
    ensures r.owner.scheduledFlush <==> o.scheduledFlush || r.fired
  {
    if e in o.inDirtyList then Scheduled(o.(needsResorting := Some(true)), false)
    else
      var fire := !o.scheduledFlush && hasOnBuildScheduled;
      Scheduled(o.(dirtyElements := o.dirtyElements + [e], inDirtyList := o.inDirtyList + {e},
                   scheduledFlush := o.scheduledFlush || fire), fire)
  }

  /** Scheduling keeps the list and the flags in step. */
  lemma ScheduleKeepsConsistent(o: BuildOwner, e: ElementId, hasOnBuildScheduled: bool)
    requires Consistent(o)
    ensures Consistent(ScheduleBuildFor(o, e, hasOnBuildScheduled).owner)
  {
    var r := ScheduleBuildFor(o, e, hasOnBuildScheduled).owner;
    if e !in o.inDirtyList {
      assert (set x | x in r.dirtyElements) == (set x | x in o.dirtyElements) + {e};
    }
  }

  /** A run of `scheduleBuildFor` calls and how often the callback fired. */
  function ScheduleAll(o: BuildOwner, es: seq<ElementId>, hasOnBuildScheduled: bool): (r: (BuildOwner, nat))
    decreases |es|
  {
    if es == [] then (o, 0)
    else
      var s := ScheduleBuildFor(o, es[0], hasOnBuildScheduled);
      var rest := ScheduleAll(s.owner, es[1..], hasOnBuildScheduled);
      (rest.0, rest.1 + if s.fired then 1 else 0)
  }

  /** `onBuildScheduled` fires at most once until the flush, and never when
      a flush is already pending. */
  lemma {:induction false} ScheduleFiresAtMostOnce(o: BuildOwner, es: seq<ElementId>, hasOnBuildScheduled: bool)
    ensures ScheduleAll(o, es, hasOnBuildScheduled).1 <= 1
    ensures o.scheduledFlush ==> ScheduleAll(o, es, hasOnBuildScheduled).1 == 0
    ensures ScheduleAll(o, es, hasOnBuildScheduled).1 == 1 ==> ScheduleAll(o, es, hasOnBuildScheduled).0.scheduledFlush
    ensures o.scheduledFlush ==> ScheduleAll(o, es, hasOnBuildScheduled).0.scheduledFlush
    decreases |es|
  {
    if es != [] {
      var s := ScheduleBuildFor(o, es[0], hasOnBuildScheduled);
      ScheduleFiresAtMostOnce(s.owner, es[1..], hasOnBuildScheduled);
    }
  }

  /** The per-element state `markNeedsBuild` reads. */
  datatype Lifecycle = Lifecycle(active: set<ElementId>, dirty: set<ElementId>)
  datatype Marked = Marked(elements: Lifecycle, owner: BuildOwner, fired: bool)

  /** `markNeedsBuild`: nothing for an inactive or already dirty element;
      otherwise the element is made dirty and scheduled once. */
  function MarkNeedsBuild(s: Lifecycle, o: BuildOwner, e: ElementId, hasOnBuildScheduled: bool): (r: Marked)
    ensures e !in s.active || e in s.dirty ==> r == Marked(s, o, false)
    ensures e in s.active && e !in s.dirty ==>
      r.elements == s.(dirty := s.dirty + {e}) && Scheduled(r.owner, r.fired) == ScheduleBuildFor(o, e, hasOnBuildScheduled)
    ensures e in s.active ==> e in r.elements.dirty
  {
    if e !in s.active || e in s.dirty then Marked(s, o, false)
    else
      var sch := ScheduleBuildFor(o, e, hasOnBuildScheduled);
      Marked(s.(dirty := s.dirty + {e}), sch.owner, sch.fired)
  }

  /** Marking an element twice is marking it once. */
  lemma MarkNeedsBuildIdempotent(s: Lifecycle, o: BuildOwner, e: ElementId, h: bool)
    ensures var r := MarkNeedsBuild(s, o, e, h);
            MarkNeedsBuild(r.elements, r.owner, e, h) == Marked(r.elements, r.owner, false)
  {
  }

  /** Listed elements are dirty: marking keeps that, and keeps the list free
      of duplicates. */
  lemma MarkNeedsBuildKeepsList(s: Lifecycle, o: BuildOwner, e: ElementId, h: bool)
    requires Consistent(o) && o.inDirtyList <= s.dirty
    ensures Consistent(MarkNeedsBuild(s, o, e, h).owner)
    ensures MarkNeedsBuild(s, o, e, h).owner.inDirtyList <= MarkNeedsBuild(s, o, e, h).elements.dirty
    ensures |MarkNeedsBuild(s, o, e, h).owner.dirtyElements| <= |o.dirtyElements| + 1
  {
    if e in s.active && e !in s.dirty {
      ScheduleKeepsConsistent(o, e, h);
    }
  }

  /** `buildScope`'s outcome on the list: with no callback and nothing dirty
      it returns at once; otherwise, whatever the rebuilds did, the finally
      block clears every flag, empties the list and resets the flush and
      resort state. */
  function BuildScope(o: BuildOwner, hasCallback: bool): (r: BuildOwner)
    ensures !hasCallback && o.dirtyElements == [] ==> r == o
    ensures hasCallback || o.dirtyElements != [] ==>
      r.dirtyElements == [] && r.inDirtyList == {} && !r.scheduledFlush && r.needsResorting.None?
    ensures Consistent(o) ==> Consistent(r) && r.dirtyElements == [] && r.inDirtyList == {}
  {
    if !hasCallback && o.dirtyElements == [] then o
    else BuildOwner([], {}, None, false)
  }

  /** After a real build scope the next schedule fires the callback again. */
  lemma BuildScopeRearms(o: BuildOwner, e: ElementId)
    requires o.dirtyElements != []
    ensures ScheduleBuildFor(BuildScope(o, false), e, true).fired
    ensures ScheduleBuildFor(BuildScope(o, false), e, true).owner.dirtyElements == [e]
  {
  }

  // ---------------------------------------------------------------------------
  // Global keys

  type Registry = map<Key, ElementId>

  /** `GlobalKey._register`: the key now names the element. */
  function Register(reg: Registry, k: Key, e: ElementId): (r: Registry)
    ensures k in r && r[k] == e
    ensures forall x | x in reg && x != k :: x in r && r[x] == reg[x]
    ensures r.Keys == reg.Keys + {k}
  {
    reg[k := e]
  }

  datatype RegistryError = KeyNotFound

  /** `GlobalKey._unregister`: the entry goes only when it names this
      element; the dictionary indexer throws for a key with no entry. */
  function Unregister(reg: Registry, k: Key, e: ElementId): (r: Result<Registry, RegistryError>)
    ensures r.Failure? <==> k !in reg
    ensures k in reg && reg[k] == e ==> r == Success(reg - {k})
    ensures k in reg && reg[k] != e ==> r == Success(reg)
  {
    if k !in reg then Failure(KeyNotFound)
    else if reg[k] == e then Success(reg - {k})
    else Success(reg)
  }

  /** Registering and unregistering the same element restores the registry;
      a stale element unregistering after another took its key leaves the
      newer entry in place. */
  lemma RegisterUnregister(reg: Registry, k: Key, a: ElementId, b: ElementId)
    ensures k !in reg ==> Unregister(Register(reg, k, a), k, a) == Success(reg)
    ensures a != b ==> Unregister(Register(Register(reg, k, a), k, b), k, a) == Success(reg[k := b])
  {
    if k !in reg {
      assert Register(reg, k, a) - {k} == reg;
    }
    assert Register(Register(reg, k, a), k, b) == reg[k := b];
  }

  // ---------------------------------------------------------------------------
  // Inactive elements

  /** Deactivates an element and everything below it. */
  function DeactivateRecursively(t: ElementTree): (r: ElementTree)
    ensures !r.active && r.id == t.id && r.depth == t.depth && |r.children| == |t.children|
    ensures forall i | 0 <= i < |r.children| :: r.children[i] == DeactivateRecursively(t.children[i])
    decreases t
  {
    ElementNode(t.id, t.depth, false,
                seq(|t.children|, i requires 0 <= i < |t.children| => DeactivateRecursively(t.children[i])))
  }

  predicate NoneActive(t: ElementTree)
    decreases t
  {
    !t.active && forall i | 0 <= i < |t.children| :: NoneActive(t.children[i])
  }

  /** A recursively deactivated subtree has no active element left. */
  lemma {:induction false} DeactivatedSubtreeIsInactive(t: ElementTree)
    ensures NoneActive(DeactivateRecursively(t))
    decreases t
  {
    var r := DeactivateRecursively(t);
    forall i | 0 <= i < |r.children| ensures NoneActive(r.children[i]) {
      DeactivatedSubtreeIsInactive(t.children[i]);
    }
  }

  /** `_InactiveElements`: the lock and the retained elements. */
  datatype InactiveElements = InactiveElements(locked: bool, elements: set<ElementId>)

  datatype Added = Added(inactive: InactiveElements, element: ElementTree)

  /** `_InactiveElements.add`: the element joins the set and, if still
      active, is deactivated with its subtree. */
  function AddInactive(ie: InactiveElements, t: ElementTree): (r: Added)
    requires !ie.locked && t.id !in ie.elements
    ensures r.inactive.elements == ie.elements + {t.id} && !r.inactive.locked
    ensures t.active ==> r.element == DeactivateRecursively(t)
    ensures !t.active ==> r.element == t
  {
    Added(ie.(elements := ie.elements + {t.id}), if t.active then DeactivateRecursively(t) else t)
  }

  /** `_InactiveElements.remove`. */
  function RemoveInactive(ie: InactiveElements, e: ElementId): (r: InactiveElements)
    requires !ie.locked && e in ie.elements
    ensures r.elements == ie.elements - {e} && !r.locked
  {
    ie.(elements := ie.elements - {e})
  }

  /** Retaking an element just added leaves the inactive set as it was. */
  lemma AddThenRemoveInactive(ie: InactiveElements, t: ElementTree)
    requires !ie.locked && t.id !in ie.elements
    ensures RemoveInactive(AddInactive(ie, t).inactive, t.id) == ie
  {
  }

  function Reversed(s: seq<ElementKey>): (r: seq<ElementKey>)
    ensures |r| == |s| && forall i | 0 <= i < |s| :: r[i] == s[|s| - 1 - i]
  {
    if s == [] then [] else Reversed(s[1..]) + [s[0]]
  }

  /** `_unmountAll`'s order: the inactive elements sorted by `_sort` and
      reversed, so deeper elements are unmounted before shallower ones. */
  function UnmountOrder(elements: seq<ElementKey>): (r: seq<ElementKey>)
    ensures multiset(r) == multiset(elements)
    ensures forall i, j | 0 <= i < j < |r| :: r[i].depth >= r[j].depth
  {
    var sorted := SortElements(elements);
    ReversedSameMultiset(sorted);
    ReversedDescends(sorted);
    Reversed(sorted)
  }

  lemma ReversedDescends(s: seq<ElementKey>)
    requires SortedByCompare(s)
    ensures forall i, j | 0 <= i < j < |Reversed(s)| :: Reversed(s)[i].depth >= Reversed(s)[j].depth
  {
    var r := Reversed(s);
    forall i, j | 0 <= i < j < |r| ensures r[i].depth >= r[j].depth {
      assert r[j] == s[|r| - 1 - j] && r[i] == s[|r| - 1 - i];
      assert Rank(r[j]) <= Rank(r[i]);
    }
  }

  lemma {:induction false} ReversedSameMultiset(s: seq<ElementKey>)
    ensures multiset(Reversed(s)) == multiset(s)
  {
    if s != [] {
      ReversedSameMultiset(s[1..]);
      assert s == [s[0]] + s[1..];
    }
  }

  /** `_unmount`'s order within one subtree: children first, the element
      last. */
  function UnmountSubtree(t: ElementTree): (r: seq<ElementId>)
    ensures |r| > 0 && r[|r| - 1] == t.id
    decreases t
  {
    UnmountChildren(t.children) + [t.id]
  }

  function UnmountChildren(cs: seq<ElementTree>): (r: seq<ElementId>)
    decreases cs
  {
    if cs == [] then [] else UnmountSubtree(cs[0]) + UnmountChildren(cs[1..])
  }

  // ---------------------------------------------------------------------------
  // The creator chain

  /** The horizontal ellipsis that ends a truncated chain. */
  const Ellipsis: string := "⋯"

  function Min(a: int, b: int): int { if a < b then a else b }

  /** `debugGetCreatorChain` before joining: the first `limit` names of the
      element and its ancestors, then an ellipsis if ancestors remain. */
  method CreatorChain(names: seq<string>, limit: int) returns (chain: seq<string>)
    ensures var n := Min(if limit < 0 then 0 else limit, |names|);
      n <= |chain| && chain[..n] == names[..n] &&
      (|names| > n ==> chain == names[..n] + [Ellipsis]) &&
      (|names| == n ==> chain == names)
    ensures |chain| <= (if limit < 0 then 0 else limit) + 1
  {
    chain := [];
    var node := 0;
    while |chain| < limit && node < |names|
      invariant node <= |names| && chain == names[..node]
      invariant node <= (if limit < 0 then 0 else limit)
    {
      chain := chain + [names[node]];
      node := node + 1;
    }
    if node < |names| {
      chain := chain + [Ellipsis];
    }
  }
}
