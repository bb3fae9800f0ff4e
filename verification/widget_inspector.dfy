/** The widget inspector service (widgets/widget_inspector.cs): object ids
    handed out per group with reference counts, the selection, the order of
    inspector hits, creation locations and their ids. */
module WidgetInspector {
  import opened Wrappers
  import Viewport

  type Obj = nat
  type Id = nat

  /** The text of an id: "inspector-" and the counter's value. */
  function IdText(id: Id): (r: string)
    ensures |r| > |"inspector-"| && r[..|"inspector-"|] == "inspector-"
  {
    "inspector-" + Viewport.IntToString(id)
  }

  /** Distinct ids have distinct texts: the text after the prefix reads back
      as the id. */
  lemma IdTextInjective(a: Id, b: Id)
    ensures IdText(a) == IdText(b) <==> a == b
  {
    if IdText(a) == IdText(b) {
      var n := |"inspector-"|;
      assert IdText(a)[n..] == Viewport.IntToString(a);
      assert IdText(b)[n..] == Viewport.IntToString(b);
      Viewport.IntToStringReadBack(a);
    }
  }

  /** `_InspectorReferenceData`: the object and how many groups hold it. */
  datatype Reference = Reference(obj: Obj, count: int)

  /** The service's bookkeeping: the groups (each a set of references, named
      here by id), both directions of the id map, and the next id. */
  datatype Service = Service(groups: map<string, set<Id>>, objectToId: map<Obj, Id>,
                             idToReference: map<Id, Reference>, nextId: nat)

  function EmptyService(): Service { Service(map[], map[], map[], 0) }

  /** The groups that hold a reference. */
  function GroupsWith(groups: map<string, set<Id>>, id: Id): set<string> {
    set g | g in groups && id in groups[g]
  }

  /** The id maps are inverse to each other and every id is below the counter. */
  predicate IdsInverse(s: Service) {
    (forall o | o in s.objectToId :: s.objectToId[o] in s.idToReference && s.idToReference[s.objectToId[o]].obj == o) &&
    (forall id | id in s.idToReference ::
       s.idToReference[id].obj in s.objectToId && s.objectToId[s.idToReference[id].obj] == id && id < s.nextId)
  }

  /** Every reference a group holds is live. */
  predicate GroupedAreLive(s: Service) {
    forall g, id | g in s.groups && id in s.groups[g] :: id in s.idToReference
  }

  /** Each live reference counts the groups holding it, and at least one does. */
  predicate CountsGroups(s: Service) {
    forall id | id in s.idToReference ::
      s.idToReference[id].count == |GroupsWith(s.groups, id)| && s.idToReference[id].count >= 1
  }

  /** The service's invariant. */
  predicate Valid(s: Service) {
    IdsInverse(s) && GroupedAreLive(s) && CountsGroups(s)
  }

  lemma EmptyServiceIsValid()
    ensures Valid(EmptyService())
  {
  }

  /** A group after one more reference joins it, created if missing. */
  function Join(groups: map<string, set<Id>>, group: string, id: Id): (r: map<string, set<Id>>)
    ensures r.Keys == groups.Keys + {group} && id in r[group]
    ensures forall g | g in groups && g != group :: r[g] == groups[g]
  {
    groups[group := (if group in groups then groups[group] else {}) + {id}]
  }

  /** Joining a group adds it to the joining reference's groups only. */
  lemma GroupsWithAfterJoin(groups: map<string, set<Id>>, group: string, id: Id, x: Id)
    ensures GroupsWith(Join(groups, group, id), x) == GroupsWith(groups, x) + (if x == id then {group} else {})
  {
    var after := Join(groups, group, id);
    forall g ensures g in GroupsWith(after, x) <==> g in GroupsWith(groups, x) + (if x == id then {group} else {}) {
      if g == group && x != id {
        assert g in after && (x in after[g] <==> g in groups && x in groups[g]);
      }
    }
  }

  datatype Issued = Issued(service: Service, id: Option<Id>)

  /** A new object registered under the next id, held by one group. */
  function AddFresh(s: Service, o: Obj, group: string): Service {
    Service(Join(s.groups, group, s.nextId), s.objectToId[o := s.nextId],
            s.idToReference[s.nextId := Reference(o, 1)], s.nextId + 1)
  }

  /** A live reference joining one more group. */
  function AddHolder(s: Service, id: Id, group: string): Service
    requires id in s.idToReference
  {
    var reference := s.idToReference[id];
    s.(groups := Join(s.groups, group, id), idToReference := s.idToReference[id := reference.(count := reference.count + 1)])
  }

  /** `toId`: no id for null; otherwise the group is created if missing, a
      new object gets the next id with a count of 1, and a known object
      joins the group, counting once more only if it was not already in. */
  function ToId(s: Service, obj: Option<Obj>, group: string): (r: Issued)
    requires obj.Some? && obj.value in s.objectToId ==> s.objectToId[obj.value] in s.idToReference
    ensures obj.None? ==> r == Issued(s, None)
    ensures obj.Some? ==> r.id.Some? && group in r.service.groups && r.id.value in r.service.groups[group]
    ensures obj.Some? && obj.value !in s.objectToId ==>
      r.id == Some(s.nextId) && r.service.nextId == s.nextId + 1 &&
      s.nextId in r.service.idToReference && r.service.idToReference[s.nextId] == Reference(obj.value, 1)
    ensures obj.Some? && obj.value in s.objectToId ==>
      var id := s.objectToId[obj.value];
      r.id == Some(id) && r.service.nextId == s.nextId && r.service.objectToId == s.objectToId &&
      id in r.service.idToReference &&
      r.service.idToReference[id].count ==
        s.idToReference[id].count + (if group in s.groups && id in s.groups[group] then 0 else 1)
  {
    if obj.None? then Issued(s, None)
    else if obj.value !in s.objectToId then Issued(AddFresh(s, obj.value, group), Some(s.nextId))
    else
      var id := s.objectToId[obj.value];
      if group in s.groups && id in s.groups[group] then Issued(s, Some(id))
      else Issued(AddHolder(s, id, group), Some(id))
  }

  lemma AddFreshKeepsValid(s: Service, o: Obj, group: string)
    requires Valid(s) && o !in s.objectToId
    ensures Valid(AddFresh(s, o, group))
  {
    var r := AddFresh(s, o, group);
    NextIdUnheld(s);
    AddFreshKeepsInverse(s, o, group);
    JoinKeepsLive(s, r, group, s.nextId);
    assert r.idToReference.Keys == s.idToReference.Keys + {s.nextId};
    JoinKeepsCounts(s, r, group, s.nextId);
  }

  /** The next id is neither live nor held by any group. */
  lemma NextIdUnheld(s: Service)
    requires Valid(s)
    ensures s.nextId !in s.idToReference && GroupsWith(s.groups, s.nextId) == {}
  {
    forall g | g in s.groups ensures s.nextId !in s.groups[g] { }
  }

  lemma AddFreshKeepsInverse(s: Service, o: Obj, group: string)
    requires IdsInverse(s) && o !in s.objectToId
    ensures IdsInverse(AddFresh(s, o, group))
  {
    assert s.nextId !in s.idToReference;
  }

  lemma AddHolderKeepsValid(s: Service, id: Id, group: string)
    requires Valid(s) && id in s.idToReference && !(group in s.groups && id in s.groups[group])
    ensures Valid(AddHolder(s, id, group))
  {
    JoinKeepsLive(s, AddHolder(s, id, group), group, id);
    JoinKeepsCounts(s, AddHolder(s, id, group), group, id);
  }

  /** A joined group holds only live references when the joining one is live. */
  lemma JoinKeepsLive(s: Service, r: Service, group: string, id: Id)
    requires GroupedAreLive(s) && r.groups == Join(s.groups, group, id)
    requires s.idToReference.Keys + {id} <= r.idToReference.Keys
    ensures GroupedAreLive(r)
  {
    forall g, x | g in r.groups && x in r.groups[g] ensures x in r.idToReference {
      if g != group || x != id {
        assert x in s.groups[g];
      }
    }
  }

  /** Joining a group counts one more for the joining reference only. */
  lemma JoinKeepsCounts(s: Service, r: Service, group: string, id: Id)
    requires CountsGroups(s) && r.groups == Join(s.groups, group, id)
    requires !(group in s.groups && id in s.groups[group])
    requires id !in s.idToReference ==> GroupsWith(s.groups, id) == {}
    requires r.idToReference.Keys == s.idToReference.Keys + {id}
    requires forall x | x in s.idToReference && x != id :: r.idToReference[x] == s.idToReference[x]
    requires r.idToReference[id].count == (if id in s.idToReference then s.idToReference[id].count else 0) + 1
    ensures CountsGroups(r)
  {
    forall x | x in r.idToReference ensures r.idToReference[x].count == |GroupsWith(r.groups, x)| && r.idToReference[x].count >= 1 {
      JoinCountAt(s.groups, group, id, x);
      if x != id {
        assert x in s.idToReference;
      } else if id !in s.idToReference {
        assert |GroupsWith(s.groups, id)| == 0;
      }
    }
  }

  /** Joining a group not yet held adds one to the joining reference's count of
      groups and leaves every other count alone. */
  lemma JoinCountAt(groups: map<string, set<Id>>, group: string, id: Id, x: Id)
    requires !(group in groups && id in groups[group])
    ensures |GroupsWith(Join(groups, group, id), x)| == |GroupsWith(groups, x)| + (if x == id then 1 else 0)
  {
    GroupsWithAfterJoin(groups, group, id, x);
    if x == id {
      assert group !in GroupsWith(groups, x);
    }
  }

  /** `toId` keeps the service valid. */
  lemma ToIdKeepsValid(s: Service, obj: Option<Obj>, group: string)
    requires Valid(s)
    ensures Valid(ToId(s, obj, group).service)
  {
    if obj.Some? {
      if obj.value in s.objectToId {
        var id := s.objectToId[obj.value];
        if !(group in s.groups && id in s.groups[group]) {
          AddHolderKeepsValid(s, id, group);
        }
      } else {
        AddFreshKeepsValid(s, obj.value, group);
      }
    }
  }

  /** Asking again for the same object in the same group changes nothing. */
  lemma ToIdTwiceSameGroup(s: Service, o: Obj, group: string)
    requires Valid(s)
    ensures var r := ToId(s, Some(o), group);
            ToId(r.service, Some(o), group) == r
  {
  }

  datatype InspectorError = IdDoesNotExist

  /** `toObject`: null for null; the object for a live id; an error for an
      unknown one. */
  function ToObject(s: Service, id: Option<Id>): (r: Result<Option<Obj>, InspectorError>)
    ensures id.None? ==> r == Success(None)
    ensures id.Some? ==> (r.Failure? <==> id.value !in s.idToReference)
    ensures id.Some? && r.Success? ==> r.value == Some(s.idToReference[id.value].obj)
  {
    if id.None? then Success(None)
    else if id.value !in s.idToReference then Failure(IdDoesNotExist)
    else Success(Some(s.idToReference[id.value].obj))
  }

  /** An id handed out for an object leads back to that object. */
  lemma ToObjectInvertsToId(s: Service, o: Obj, group: string)
    requires Valid(s)
    ensures var r := ToId(s, Some(o), group);
            ToObject(r.service, r.id) == Success(Some(o))
  {
  }

  /** `disposeGroup`: the group goes, each of its references counts one
      group fewer, and a reference whose count reaches zero leaves both id
      maps. */
  function DisposeGroup(s: Service, name: string): (r: Service)
    requires IdsInverse(s)
    ensures r.groups == s.groups - {name} && r.nextId == s.nextId
    ensures forall id | id in s.idToReference ::
      var held := name in s.groups && id in s.groups[name];
      var dropped := held && s.idToReference[id].count == 1;
      (id in r.idToReference <==> !dropped) &&
      (!dropped ==> r.idToReference[id] == s.idToReference[id].(count := s.idToReference[id].count - (if held then 1 else 0)))
    ensures r.idToReference.Keys <= s.idToReference.Keys
  {
    var refs := if name in s.groups then s.groups[name] else {};
    var gone := set id | id in s.idToReference && id in refs && s.idToReference[id].count == 1;
    Service(s.groups - {name},
            map o | o in s.objectToId && s.objectToId[o] !in gone :: s.objectToId[o],
            map id | id in s.idToReference && id !in gone ::
              if id in refs then s.idToReference[id].(count := s.idToReference[id].count - 1) else s.idToReference[id],
            s.nextId)
  }

  /** Removing a group removes it from each reference's groups. */
  lemma GroupsWithAfterRemove(groups: map<string, set<Id>>, name: string, id: Id)
    ensures GroupsWith(groups - {name}, id) == GroupsWith(groups, id) - {name}
    ensures name in groups && id in groups[name] ==>
      |GroupsWith(groups - {name}, id)| == |GroupsWith(groups, id)| - 1
  {
  }

  lemma DisposeGroupKeepsInverse(s: Service, name: string)
    requires IdsInverse(s)
    ensures IdsInverse(DisposeGroup(s, name))
  {
  }

  lemma DisposeGroupKeepsCounts(s: Service, name: string)
    requires Valid(s)
    ensures CountsGroups(DisposeGroup(s, name))
  {
    var r := DisposeGroup(s, name);
    forall id | id in r.idToReference
      ensures r.idToReference[id].count == |GroupsWith(r.groups, id)| && r.idToReference[id].count >= 1
    {
      GroupsWithAfterRemove(s.groups, name, id);
    }
  }

  lemma DisposeGroupKeepsLive(s: Service, name: string)
    requires Valid(s)
    ensures GroupedAreLive(DisposeGroup(s, name))
  {
    var r := DisposeGroup(s, name);
    forall g, id | g in r.groups && id in r.groups[g] ensures id in r.idToReference {
      GroupsWithAfterRemove(s.groups, name, id);
      assert g in GroupsWith(r.groups, id);
      if name in s.groups && id in s.groups[name] {
        assert |GroupsWith(r.groups, id)| > 0;
      }
    }
  }

  /** Disposing a group keeps the service valid; a reference leaves the
      maps exactly when the disposed group was the last to hold it. */
  lemma DisposeGroupKeepsValid(s: Service, name: string)
    requires Valid(s)
    ensures Valid(DisposeGroup(s, name))
    ensures forall id | id in s.idToReference ::
      id !in DisposeGroup(s, name).idToReference <==> GroupsWith(s.groups, id) == {name}
  {
    DisposeGroupKeepsInverse(s, name);
    DisposeGroupKeepsCounts(s, name);
    DisposeGroupKeepsLive(s, name);
    forall id | id in s.idToReference
      ensures id !in DisposeGroup(s, name).idToReference <==> GroupsWith(s.groups, id) == {name}
    {
      var w := GroupsWith(s.groups, id);
      if name in s.groups && id in s.groups[name] {
        assert name in w;
        if |w| == 1 {
          assert w - {name} == {} by {
            GroupsWithAfterRemove(s.groups, name, id);
          }
        }
      } else {
        assert name !in w;
      }
    }
  }

  // ---------------------------------------------------------------------------
  // Selection

  type Element = nat

  /** `InspectorSelection`: the candidates, the index into them, and the
      current render object and element. */
  datatype Selection = Selection(candidates: seq<Obj>, index: int, current: Option<Obj>, currentElement: Option<Element>)

  datatype SelectionError = IndexOutOfRange

  /** `_computeCurrent`: the candidate at the index and its creator element,
      or nothing past the end; a negative index is out of range for the
      list indexer. */
  function ComputeCurrent(sel: Selection, creator: Obj -> Element): (r: Result<Selection, SelectionError>)
    ensures r.Failure? <==> sel.index < 0 && sel.index < |sel.candidates|
    ensures r.Success? && sel.index < |sel.candidates| ==>
      r.value.current == Some(sel.candidates[sel.index]) && r.value.currentElement == Some(creator(sel.candidates[sel.index]))
    ensures r.Success? && sel.index >= |sel.candidates| ==> r.value.current.None? && r.value.currentElement.None?
    ensures r.Success? ==> r.value.candidates == sel.candidates && r.value.index == sel.index
  {
    if sel.index < |sel.candidates| then
      if sel.index < 0 then Failure(IndexOutOfRange)
      else
        var c := sel.candidates[sel.index];
        Success(sel.(current := Some(c), currentElement := Some(creator(c))))
    else Success(sel.(current := None, currentElement := None))
  }

  /** The `candidates` setter: the index goes back to 0 and the current
      selection becomes the first candidate, if any. */
  function SetCandidates(sel: Selection, candidates: seq<Obj>, creator: Obj -> Element): (r: Selection)
    ensures r.candidates == candidates && r.index == 0
    ensures |candidates| > 0 ==> r.current == Some(candidates[0]) && r.currentElement == Some(creator(candidates[0]))
    ensures candidates == [] ==> r.current.None? && r.currentElement.None?
  {
    ComputeCurrent(sel.(candidates := candidates, index := 0), creator).value
  }

  /** `clear`: no candidates and nothing selected. */
  function ClearSelection(sel: Selection, creator: Obj -> Element): (r: Selection)
    ensures r.candidates == [] && r.index == 0 && r.current.None? && r.currentElement.None?
  {
    SetCandidates(sel, [], creator)
  }

  /** The `index` setter. */
  function SetIndex(sel: Selection, index: int, creator: Obj -> Element): (r: Result<Selection, SelectionError>)
    ensures r.Failure? <==> index < 0 && index < |sel.candidates|
    ensures r.Success? ==> r.value.index == index && r.value.candidates == sel.candidates
    ensures r.Success? ==> (r.value.current.Some? <==> index < |sel.candidates|)
  {
    ComputeCurrent(sel.(index := index), creator)
  }

  /** What `setSelection` is handed. */
  datatype Target = ElementTarget(element: Element) | RenderTarget(obj: Obj) | OtherTarget

  datatype SelectionChange = SelectionChange(selection: Selection, changed: bool)

  /** `setSelection`: an element or render object other than the current
      one becomes current (with its render object, resp. creator element);
      the same one, or any other kind of object, changes nothing. The
      selection-changed callback runs exactly when something changed. */
  function SetSelection(sel: Selection, target: Target, findRenderObject: Element -> Option<Obj>,
                        creator: Obj -> Element): (r: SelectionChange)
    ensures target.OtherTarget? ==> r == SelectionChange(sel, false)
    ensures target.ElementTarget? ==>
      (r.changed <==> sel.currentElement != Some(target.element)) &&
      (r.changed ==> r.selection.currentElement == Some(target.element) &&
                     r.selection.current == findRenderObject(target.element))
    ensures target.RenderTarget? ==>
      (r.changed <==> sel.current != Some(target.obj)) &&
      (r.changed ==> r.selection.current == Some(target.obj) &&
                     r.selection.currentElement == Some(creator(target.obj)))
    ensures !r.changed ==> r.selection == sel
    ensures r.selection.candidates == sel.candidates && r.selection.index == sel.index
  {
    match target
    case ElementTarget(e) =>
      if sel.currentElement == Some(e) then SelectionChange(sel, false)
      else SelectionChange(sel.(currentElement := Some(e), current := findRenderObject(e)), true)
    case RenderTarget(o) =>
      if sel.current == Some(o) then SelectionChange(sel, false)
      else SelectionChange(sel.(current := Some(o), currentElement := Some(creator(o))), true)
    case OtherTarget => SelectionChange(sel, false)
  }

  /** Selecting the same thing twice reports a change only the first time. */
  lemma SetSelectionTwice(sel: Selection, target: Target, findRenderObject: Element -> Option<Obj>,
                          creator: Obj -> Element)
    ensures var r := SetSelection(sel, target, findRenderObject, creator);
            !SetSelection(r.selection, target, findRenderObject, creator).changed
  {
  }

  // ---------------------------------------------------------------------------
  // Hit order

  predicate SortedByArea(s: seq<Obj>, area: Obj -> real) {
    forall i, j | 0 <= i < j < |s| :: area(s[i]) <= area(s[j])
  }

  function InsertByArea(x: Obj, s: seq<Obj>, area: Obj -> real): (r: seq<Obj>)
    requires SortedByArea(s, area)
    ensures multiset(r) == multiset(s) + multiset{x}
    ensures SortedByArea(r, area)
  {
    if s == [] then [x]
    else if area(x) <= area(s[0]) then [x] + s
    else
      var t := InsertByArea(x, s[1..], area);
      assert s == [s[0]] + s[1..];
      InsertAfterSmaller(x, s, t, area);
      [s[0]] + t
  }

  lemma InsertAfterSmaller(x: Obj, s: seq<Obj>, t: seq<Obj>, area: Obj -> real)
    requires |s| > 0 && SortedByArea(s, area) && area(s[0]) < area(x)
    requires multiset(t) == multiset(s[1..]) + multiset{x} && SortedByArea(t, area)
    ensures SortedByArea([s[0]] + t, area)
  {
    forall k | 0 <= k < |t| ensures area(s[0]) <= area(t[k]) {
      assert t[k] in multiset(t);
      if t[k] != x {
        assert t[k] in multiset(s[1..]);
        var j :| 0 <= j < |s[1..]| && s[1..][j] == t[k];
        assert s[j + 1] == t[k];
      }
    }
    var r := [s[0]] + t;
    forall i, j | 0 <= i < j < |r| ensures area(r[i]) <= area(r[j]) {
      if i > 0 {
        assert r[i] == t[i - 1] && r[j] == t[j - 1];
      } else {
        assert r[j] == t[j - 1];
      }
    }
  }

  /** `regularHits.Sort(CompareByArea)`: smallest area first (the order of
      equal areas is not modelled). */
  function SortByArea(s: seq<Obj>, area: Obj -> real): (r: seq<Obj>)
    ensures multiset(r) == multiset(s)
    ensures SortedByArea(r, area)
  {
    if s == [] then []
    else
      assert s == [s[0]] + s[1..];
      InsertByArea(s[0], SortByArea(s[1..], area), area)
  }

  predicate NoDuplicates(s: seq<Obj>) {
    forall i, j | 0 <= i < j < |s| :: s[i] != s[j]
  }

  /** The end of `hitTest`: the edge hits, then every regular hit not seen
      yet, in order of increasing area. */
  method OrderHits(edgeHits: seq<Obj>, regularHits: seq<Obj>, area: Obj -> real) returns (hits: seq<Obj>)
    requires NoDuplicates(edgeHits)
    ensures |edgeHits| <= |hits| && hits[..|edgeHits|] == edgeHits
    ensures NoDuplicates(hits)
    ensures forall o | o in regularHits || o in edgeHits :: o in hits
    ensures forall o | o in hits :: o in regularHits || o in edgeHits
    ensures SortedByArea(hits[|edgeHits|..], area)
  {
    var sorted := SortByArea(regularHits, area);
    hits := edgeHits;
    var i := 0;
    while i < |sorted|
      invariant Progress(edgeHits, sorted, i, hits, area)
    {
      ProgressStep(edgeHits, sorted, i, hits, area);
      if sorted[i] !in hits {
        hits := hits + [sorted[i]];
      }
      i := i + 1;
    }
    ProgressDone(edgeHits, regularHits, sorted, hits, area);
  }

  /** Once the loop has seen every sorted hit, the hits hold exactly the
      edge and regular hits. */
  lemma ProgressDone(edgeHits: seq<Obj>, regularHits: seq<Obj>, sorted: seq<Obj>, hits: seq<Obj>, area: Obj -> real)
    requires Progress(edgeHits, sorted, |sorted|, hits, area) && multiset(sorted) == multiset(regularHits)
    ensures forall o | o in regularHits || o in edgeHits :: o in hits
    ensures forall o | o in hits :: o in regularHits || o in edgeHits
  {
    forall o | o in regularHits ensures o in hits {
      assert o in multiset(sorted);
    }
    forall o | o in hits ensures o in regularHits || o in edgeHits {
      if o !in edgeHits {
        var k :| 0 <= k < |hits| && hits[k] == o;
        assert forall j | 0 <= j < |edgeHits| :: hits[j] == edgeHits[j];
        assert o in multiset(sorted);
      }
    }
  }

  /** The loop of `OrderHits` after `i` of the sorted regular hits: the edge
      hits lead, nothing repeats, the first `i` are in, only sorted hits
      follow the edge hits and they are ordered up to the next candidate. */
  ghost predicate Progress(edgeHits: seq<Obj>, sorted: seq<Obj>, i: int, hits: seq<Obj>, area: Obj -> real) {
    0 <= i <= |sorted| && SortedByArea(sorted, area) &&
    |edgeHits| <= |hits| && hits[..|edgeHits|] == edgeHits && NoDuplicates(hits) &&
    (forall j | 0 <= j < i :: sorted[j] in hits) &&
    (forall k | |edgeHits| <= k < |hits| :: hits[k] in sorted) &&
    SortedByArea(hits[|edgeHits|..], area) &&
    (i < |sorted| ==> forall k | |edgeHits| <= k < |hits| :: area(hits[k]) <= area(sorted[i]))
  }

  lemma ProgressStep(edgeHits: seq<Obj>, sorted: seq<Obj>, i: int, hits: seq<Obj>, area: Obj -> real)
    requires Progress(edgeHits, sorted, i, hits, area) && i < |sorted|
    ensures Progress(edgeHits, sorted, i + 1, if sorted[i] in hits then hits else hits + [sorted[i]], area)
  {
    var o := sorted[i];
    var e := |edgeHits|;
    if o !in hits {
      var h := hits + [o];
      TailExtends(hits, e, o, area);
      assert h[..e] == hits[..e];
      forall a, b | 0 <= a < b < |h| ensures h[a] != h[b] {
        if b == |h| - 1 {
          assert h[a] == hits[a];
        }
      }
    }
  }

  lemma TailExtends(hits: seq<Obj>, e: nat, o: Obj, area: Obj -> real)
    requires e <= |hits| && SortedByArea(hits[e..], area)
    requires forall k | e <= k < |hits| :: area(hits[k]) <= area(o)
    ensures SortedByArea((hits + [o])[e..], area)
  {
    var t := (hits + [o])[e..];
    forall i, j | 0 <= i < j < |t| ensures area(t[i]) <= area(t[j]) {
      assert t[i] == (hits + [o])[e + i];
      if j == |t| - 1 {
        assert t[j] == o;
      } else {
        assert hits[e..][i] == t[i] && hits[e..][j] == t[j];
      }
    }
  }

  // ---------------------------------------------------------------------------
  // Creation locations

  /** `_Location`: file, line, column, an optional name and optional
      parameter locations. */
  datatype Location = Location(file: Option<string>, line: int, column: int, name: Option<string>,
                               parameterLocations: Parameters)

  /** The parameter locations, which may be missing (null). */
  datatype Parameters = NoParameters | Parameters(locations: seq<Location>)

  datatype Json = JNull | JString(s: string) | JInt(i: int) | JList(items: seq<Json>) | JObject(fields: map<string, Json>)

  function OptString(s: Option<string>): Json {
    if s.Some? then JString(s.value) else JNull
  }

  /** `_Location.toJsonMap`: file, line and column always; name and the
      parameter locations only when present. */
  function LocationToJson(l: Location): (j: Json)
    ensures j.JObject? && {"file", "line", "column"} <= j.fields.Keys
    ensures "name" in j.fields <==> l.name.Some?
    ensures "parameterLocations" in j.fields <==> l.parameterLocations.Parameters?
    ensures j.fields.Keys <= {"file", "line", "column", "name", "parameterLocations"}
    decreases l
  {
    var base := map["file" := OptString(l.file), "line" := JInt(l.line), "column" := JInt(l.column)];
    var named := if l.name.Some? then base["name" := JString(l.name.value)] else base;
    var ps := l.parameterLocations;
    if ps.Parameters? then
      JObject(named["parameterLocations" := JList(seq(|ps.locations|, i requires 0 <= i < |ps.locations| => LocationToJson(ps.locations[i])))])
    else JObject(named)
  }

  /** Reads a location back from its map. */
  function LocationFromJson(j: Json): (r: Option<Location>)
    decreases j
  {
    if !j.JObject? || !({"file", "line", "column"} <= j.fields.Keys) then None
    else
      var f := j.fields;
      var file := if f["file"].JString? then Some(f["file"].s) else None;
      var name := if "name" in f && f["name"].JString? then Some(f["name"].s) else None;
      if !f["line"].JInt? || !f["column"].JInt? then None
      else if "parameterLocations" in f && f["parameterLocations"].JList? then
        var items := f["parameterLocations"].items;
        var ps := LocationsFromJson(items);
        if ps.None? then None else Some(Location(file, f["line"].i, f["column"].i, name, Parameters(ps.value)))
      else if "parameterLocations" in f then None
      else Some(Location(file, f["line"].i, f["column"].i, name, NoParameters))
  }

  function LocationsFromJson(items: seq<Json>): (r: Option<seq<Location>>)
    ensures r.Some? ==> |r.value| == |items|
    decreases items
  {
    if items == [] then Some([])
    else
      var head := LocationFromJson(items[0]);
      var tail := LocationsFromJson(items[1..]);
      if head.None? || tail.None? then None else Some([head.value] + tail.value)
  }

  /** A location's map reads back as the same location. */
  lemma {:induction false} LocationJsonRoundTrip(l: Location)
    ensures LocationFromJson(LocationToJson(l)) == Some(l)
    decreases l
  {
    if l.parameterLocations.Parameters? {
      var ps := l.parameterLocations.locations;
      var items := seq(|ps|, i requires 0 <= i < |ps| => LocationToJson(ps[i]));
      forall i | 0 <= i < |ps| ensures LocationFromJson(items[i]) == Some(ps[i]) {
        assert ps[i] in ps;
        LocationJsonRoundTrip(ps[i]);
      }
      LocationsRoundTrip(ps, items);
    }
  }

  /** A list whose entries each read back reads back as a whole. */
  lemma {:induction false} LocationsRoundTrip(ps: seq<Location>, items: seq<Json>)
    requires |items| == |ps| && forall i | 0 <= i < |ps| :: LocationFromJson(items[i]) == Some(ps[i])
    ensures LocationsFromJson(items) == Some(ps)
    decreases ps
  {
    if ps != [] {
      LocationsRoundTrip(ps[1..], items[1..]);
      assert ps == [ps[0]] + ps[1..];
    }
  }

  /** `_locationToId` and `_locations`. */
  datatype LocationIds = LocationIds(locationToId: map<Location, int>, locations: seq<Location>)

  /** The two tables agree: every id indexes its own location. */
  predicate LocationTablesAgree(t: LocationIds) {
    forall l | l in t.locationToId :: 0 <= t.locationToId[l] < |t.locations| && t.locations[t.locationToId[l]] == l
  }

  datatype LocationError = KeyNotFound

  /** `_toLocationId` as written: the dictionary indexer runs before the
      "not found" branch and throws for a location never seen; the `int`
      compared against null is always set, so the insertion is never
      reached. */
  function ToLocationIdAsWritten(t: LocationIds, l: Location): (r: Result<(LocationIds, int), LocationError>)
    ensures r.Failure? <==> l !in t.locationToId
    ensures r.Success? ==> r.value == (t, t.locationToId[l])
  {
    if l !in t.locationToId then Failure(KeyNotFound) else Success((t, t.locationToId[l]))
  }

  /** The very first location asked for fails, and no call ever records one. */
  lemma ToLocationIdAsWrittenNeverRecords(l: Location, t: LocationIds)
    ensures ToLocationIdAsWritten(LocationIds(map[], []), l).Failure?
    ensures ToLocationIdAsWritten(t, l).Success? ==> ToLocationIdAsWritten(t, l).value.0 == t
  {
  }

  /** `_toLocationId` as intended: a known location keeps its id; a new one
      gets the next index and is appended. */
  function ToLocationId(t: LocationIds, l: Location): (r: (LocationIds, int))
    requires LocationTablesAgree(t)
    ensures LocationTablesAgree(r.0)
    ensures 0 <= r.1 < |r.0.locations| && r.0.locations[r.1] == l
    ensures l in t.locationToId ==> r == (t, t.locationToId[l])
    ensures l !in t.locationToId ==> r.1 == |t.locations| && r.0.locations == t.locations + [l]
  {
    if l in t.locationToId then (t, t.locationToId[l])
    else
      var id := |t.locations|;
      (LocationIds(t.locationToId[l := id], t.locations + [l]), id)
  }

  /** Asking twice gives the same id and leaves the tables alone. */
  lemma ToLocationIdStable(t: LocationIds, l: Location)
    requires LocationTablesAgree(t)
    ensures var r := ToLocationId(t, l);
            ToLocationId(r.0, l) == r
  {
  }
}
