/** Layers (rendering/layer.cs): a `ContainerLayer`'s doubly linked child
    list, the pre-order child walk, the add-to-scene flag roll-up and the
    annotation search. */
module Layers {
  import opened Wrappers

  type LayerId = nat

  // ---------------------------------------------------------------------------
  // The child list: `_firstChild`, `_lastChild` and each child's
  // `_nextSibling` / `_previousSibling`.

  datatype Links = Links(first: Option<LayerId>, last: Option<LayerId>,
                         next: map<LayerId, LayerId>, prev: map<LayerId, LayerId>)

  function EmptyLinks(): Links { Links(None, None, map[], map[]) }

  predicate Distinct(s: seq<LayerId>) {
    forall i, j | 0 <= i < j < |s| :: s[i] != s[j]
  }

  /** The links spell out the sequence s: first and last are its ends, each
      element's next and previous siblings are its neighbours, and only
      elements of s other than the last (the first) carry a next (previous)
      link. */
  predicate Represents(l: Links, s: seq<LayerId>) {
    Distinct(s) && Ends(l, s) && NextChain(l, s) && PrevChain(l, s) && NextKeys(l, s) && PrevKeys(l, s)
  }

  predicate Ends(l: Links, s: seq<LayerId>) {
    (l.first.None? <==> |s| == 0) && (l.last.None? <==> |s| == 0) &&
    (|s| > 0 ==> l.first == Some(s[0]) && l.last == Some(s[|s| - 1]))
  }

  predicate NextChain(l: Links, s: seq<LayerId>) {
    forall i {:trigger Next(l, s[i])} | 0 <= i < |s| - 1 :: Next(l, s[i]) == Some(s[i + 1])
  }

  predicate PrevChain(l: Links, s: seq<LayerId>) {
    forall i {:trigger Prev(l, s[i])} | 0 < i < |s| :: Prev(l, s[i]) == Some(s[i - 1])
  }

  predicate NextKeys(l: Links, s: seq<LayerId>) {
    forall x | x in l.next :: x in s && x != s[|s| - 1]
  }

  predicate PrevKeys(l: Links, s: seq<LayerId>) {
    forall x | x in l.prev :: x in s && x != s[0]
  }

  function Next(l: Links, x: LayerId): Option<LayerId> {
    if x in l.next then Some(l.next[x]) else None
  }

  function Prev(l: Links, x: LayerId): Option<LayerId> {
    if x in l.prev then Some(l.prev[x]) else None
  }

  /** In a represented list every child's siblings are its neighbours in s,
      and nothing outside s has a sibling. */
  lemma Neighbours(l: Links, s: seq<LayerId>, k: nat)
    requires Represents(l, s) && k < |s|
    ensures Next(l, s[k]) == if k < |s| - 1 then Some(s[k + 1]) else None
    ensures Prev(l, s[k]) == if k > 0 then Some(s[k - 1]) else None
  {
  }

  lemma Outsider(l: Links, s: seq<LayerId>, x: LayerId)
    requires Represents(l, s) && x !in s
    ensures Next(l, x).None? && Prev(l, x).None?
  {
  }

  /** `append(child)`: links the child after the prior last child, makes it the
      last child, and the first when the list was empty. */
  function Append(l: Links, c: LayerId): (r: Links)
    ensures r.last == Some(c)
    ensures r.first == if l.first.None? then Some(c) else l.first
  {
    Links(if l.first.None? then Some(c) else l.first, Some(c),
          if l.last.Some? then l.next[l.last.value := c] else l.next,
          if l.last.Some? then l.prev[c := l.last.value] else l.prev)
  }

  lemma AppendRepresents(l: Links, s: seq<LayerId>, c: LayerId)
    requires Represents(l, s) && c !in s
    ensures Represents(Append(l, c), s + [c])
  {
    var r := Append(l, c);
    var t := s + [c];
    forall i | 0 <= i < |t| - 1 ensures Next(r, t[i]) == Some(t[i + 1]) {
      if i < |s| - 1 {
        assert t[i] == s[i] && t[i + 1] == s[i + 1] && s[i] != s[|s| - 1];
        assert Next(l, s[i]) == Some(s[i + 1]);
      }
    }
    forall i | 0 < i < |t| ensures Prev(r, t[i]) == Some(t[i - 1]) {
      if i < |s| {
        assert t[i] == s[i] && t[i - 1] == s[i - 1];
        assert Prev(l, s[i]) == Some(s[i - 1]);
      }
    }
  }

  /** `_removeChild(child)`: bridges the child's neighbours over it (or moves
      first/last past it) and clears the child's own links. */
  function RemoveChild(l: Links, c: LayerId): (r: Links)
    ensures c !in r.next && c !in r.prev
  {
    var p := Prev(l, c);
    var n := Next(l, c);
    var next1 := if p.Some? then (if n.Some? then l.next[p.value := n.value] else l.next - {p.value}) else l.next;
    var prev1 := if n.Some? then (if p.Some? then l.prev[n.value := p.value] else l.prev - {n.value}) else l.prev;
    Links(if p.None? then n else l.first, if n.None? then p else l.last, next1 - {c}, prev1 - {c})
  }

  lemma WithoutAt(s: seq<LayerId>, k: nat, i: nat)
    requires k < |s| && i < |s| - 1
    ensures Without(s, k)[i] == s[Skip(k, i)]
  {
  }

  /** The sequence without its element at index k. */
  function Without(s: seq<LayerId>, k: nat): (t: seq<LayerId>)
    requires k < |s|
    ensures |t| == |s| - 1
    ensures forall i | 0 <= i < k :: t[i] == s[i]
    ensures forall i | k <= i < |t| :: t[i] == s[i + 1]
  {
    s[..k] + s[k + 1..]
  }

  /** Removing a child leaves exactly the other children, in their order. */
  lemma RemoveChildRepresents(l: Links, s: seq<LayerId>, k: nat)
    requires Represents(l, s) && k < |s|
    ensures Represents(RemoveChild(l, s[k]), Without(s, k))
  {
    var r := RemoveChild(l, s[k]);
    var t := Without(s, k);
    Neighbours(l, s, k);
    assert Distinct(t) by {
      forall i, j | 0 <= i < j < |t| ensures t[i] != t[j] {
        var i' := if i < k then i else i + 1;
        var j' := if j < k then j else j + 1;
        assert t[i] == s[i'] && t[j] == s[j'];
      }
    }
    RemoveNextChain(l, s, k);
    RemovePrevChain(l, s, k);
    RemoveKeys(l, s, k);
  }

  /** The sibling links after `_removeChild(c)`, one node at a time. */
  lemma NextAfterRemove(l: Links, c: LayerId, x: LayerId)
    ensures Next(RemoveChild(l, c), x) ==
      if x == c then None else if Prev(l, c) == Some(x) then Next(l, c) else Next(l, x)
  {
  }

  lemma PrevAfterRemove(l: Links, c: LayerId, x: LayerId)
    ensures Prev(RemoveChild(l, c), x) ==
      if x == c then None else if Next(l, c) == Some(x) then Prev(l, c) else Prev(l, x)
  {
  }

  /** Index in s of the element at index i of Without(s, k). */
  function Skip(k: nat, i: nat): nat {
    if i < k then i else i + 1
  }

  lemma RemoveNextChain(l: Links, s: seq<LayerId>, k: nat)
    requires Represents(l, s) && k < |s|
    ensures NextChain(RemoveChild(l, s[k]), Without(s, k))
  {
    var c := s[k];
    var r := RemoveChild(l, c);
    var t := Without(s, k);
    Neighbours(l, s, k);
    forall i | 0 <= i < |t| - 1 ensures Next(r, t[i]) == Some(t[i + 1]) {
      var a := Skip(k, i);
      assert t[i] == s[a] && t[i + 1] == s[Skip(k, i + 1)];
      NextAfterRemove(l, c, s[a]);
      if a == k - 1 {
        assert Skip(k, i + 1) == k + 1;
      } else {
        assert s[a] != c && (k > 0 ==> s[a] != s[k - 1]);
        assert Skip(k, i + 1) == a + 1;
        Neighbours(l, s, a);
      }
    }
  }

  lemma RemovePrevChain(l: Links, s: seq<LayerId>, k: nat)
    requires Represents(l, s) && k < |s|
    ensures PrevChain(RemoveChild(l, s[k]), Without(s, k))
  {
    var c := s[k];
    var r := RemoveChild(l, c);
    var t := Without(s, k);
    Neighbours(l, s, k);
    forall i | 0 < i < |t| ensures Prev(r, t[i]) == Some(t[i - 1]) {
      var a := Skip(k, i);
      assert t[i] == s[a] && t[i - 1] == s[Skip(k, i - 1)];
      PrevAfterRemove(l, c, s[a]);
      if a == k + 1 {
        assert Skip(k, i - 1) == k - 1;
      } else {
        assert s[a] != c && (k < |s| - 1 ==> s[a] != s[k + 1]);
        assert Skip(k, i - 1) == a - 1;
        Neighbours(l, s, a);
      }
    }
  }

  lemma RemoveKeys(l: Links, s: seq<LayerId>, k: nat)
    requires Represents(l, s) && k < |s|
    ensures NextKeys(RemoveChild(l, s[k]), Without(s, k))
    ensures PrevKeys(RemoveChild(l, s[k]), Without(s, k))
  {
    var r := RemoveChild(l, s[k]);
    Neighbours(l, s, k);
    forall x | x in r.next
      ensures x in Without(s, k) && x != Without(s, k)[|s| - 2]
    {
      assert Next(r, x).Some?;
      RemoveNextKey(l, s, k, x);
    }
    forall x | x in r.prev
      ensures x in Without(s, k) && x != Without(s, k)[0]
    {
      assert Prev(r, x).Some?;
      RemovePrevKey(l, s, k, x);
    }
  }

  /** The neighbours of the k-th element of a represented list. */
  predicate LinkedAt(l: Links, s: seq<LayerId>, k: nat)
    requires k < |s|
  {
    Prev(l, s[k]) == (if k > 0 then Some(s[k - 1]) else None) &&
    Next(l, s[k]) == (if k < |s| - 1 then Some(s[k + 1]) else None)
  }

  lemma RemoveNextKey(l: Links, s: seq<LayerId>, k: nat, x: LayerId)
    requires Distinct(s) && NextKeys(l, s) && k < |s| && LinkedAt(l, s, k)
    requires Next(RemoveChild(l, s[k]), x).Some?
    ensures |s| >= 2 && x in Without(s, k) && x != Without(s, k)[|s| - 2]
  {
    var c := s[k];
    NextAfterRemove(l, c, x);
    var j :| 0 <= j < |s| && s[j] == x;
    assert j != k && (k < |s| - 1 ==> j != |s| - 1);
    assert k == |s| - 1 ==> j != k - 1;
    var i := if j < k then j else j - 1;
    WithoutAt(s, k, i);
    assert Without(s, k)[i] == x;
  }

  lemma RemovePrevKey(l: Links, s: seq<LayerId>, k: nat, x: LayerId)
    requires Distinct(s) && PrevKeys(l, s) && k < |s| && LinkedAt(l, s, k)
    requires Prev(RemoveChild(l, s[k]), x).Some?
    ensures |s| >= 2 && x in Without(s, k) && x != Without(s, k)[0]
  {
    var c := s[k];
    var t := Without(s, k);
    PrevAfterRemove(l, c, x);
    var j :| 0 <= j < |s| && s[j] == x;
    assert j != k && (k > 0 ==> j != 0);
    assert k == 0 ==> j != 1;
    assert t[if j < k then j else j - 1] == x;
  }

  /** `removeAllChildren`: no first or last child, and no former child keeps a
      sibling link. */
  function RemoveAllChildren(l: Links): (r: Links)
    ensures Represents(r, [])
    ensures forall x :: Next(r, x).None? && Prev(r, x).None?
  {
    EmptyLinks()
  }

  /** `replaceWith(newLayer)` on a child `prior`: the new layer takes over the
      prior one's neighbours (and its place as first or last child), and the prior
      layer's links are cleared. */
  function ReplaceWith(l: Links, prior: LayerId, n: LayerId): (r: Links)
  {
    var p := Prev(l, prior);
    var q := Next(l, prior);
    var next1 := (if q.Some? then l.next[n := q.value] else l.next) - {prior};
    var prev1 := (if p.Some? then l.prev[n := p.value] else l.prev) - {prior};
    Links(if l.first == Some(prior) then Some(n) else l.first,
          if l.last == Some(prior) then Some(n) else l.last,
          if p.Some? then next1[p.value := n] else next1,
          if q.Some? then prev1[q.value := n] else prev1)
  }

  /** The new layer sits exactly where the prior one was. */
  lemma ReplaceWithRepresents(l: Links, s: seq<LayerId>, k: nat, n: LayerId)
    requires Represents(l, s) && k < |s| && n !in s
    ensures Represents(ReplaceWith(l, s[k], n), s[k := n])
  {
    var t := s[k := n];
    Neighbours(l, s, k);
    Outsider(l, s, n);
    assert Distinct(t);
    ReplaceNextChain(l, s, k, n);
    ReplacePrevChain(l, s, k, n);
    ReplaceKeys(l, s, k, n);
  }

  /** The sibling links after `replaceWith`, one node at a time. */
  lemma NextAfterReplace(l: Links, prior: LayerId, n: LayerId, x: LayerId)
    ensures Next(ReplaceWith(l, prior, n), x) ==
      if Prev(l, prior) == Some(x) then Some(n)
      else if x == prior then None
      else if x == n && Next(l, prior).Some? then Next(l, prior)
      else Next(l, x)
  {
  }

  lemma PrevAfterReplace(l: Links, prior: LayerId, n: LayerId, x: LayerId)
    ensures Prev(ReplaceWith(l, prior, n), x) ==
      if Next(l, prior) == Some(x) then Some(n)
      else if x == prior then None
      else if x == n && Prev(l, prior).Some? then Prev(l, prior)
      else Prev(l, x)
  {
  }

  lemma ReplaceNextChain(l: Links, s: seq<LayerId>, k: nat, n: LayerId)
    requires Represents(l, s) && k < |s| && n !in s
    ensures NextChain(ReplaceWith(l, s[k], n), s[k := n])
  {
    var r := ReplaceWith(l, s[k], n);
    var t := s[k := n];
    Neighbours(l, s, k);
    forall i | 0 <= i < |t| - 1 ensures Next(r, t[i]) == Some(t[i + 1]) {
      NextAfterReplace(l, s[k], n, t[i]);
      if i != k && i != k - 1 {
        assert t[i] == s[i] && t[i + 1] == s[i + 1] && s[i] != s[k];
        assert k > 0 ==> s[i] != s[k - 1];
        Neighbours(l, s, i);
      }
    }
  }

  lemma ReplacePrevChain(l: Links, s: seq<LayerId>, k: nat, n: LayerId)
    requires Represents(l, s) && k < |s| && n !in s
    ensures PrevChain(ReplaceWith(l, s[k], n), s[k := n])
  {
    var r := ReplaceWith(l, s[k], n);
    var t := s[k := n];
    Neighbours(l, s, k);
    forall i | 0 < i < |t| ensures Prev(r, t[i]) == Some(t[i - 1]) {
      PrevAfterReplace(l, s[k], n, t[i]);
      if i != k && i != k + 1 {
        assert t[i] == s[i] && t[i - 1] == s[i - 1] && s[i] != s[k];
        assert k < |s| - 1 ==> s[i] != s[k + 1];
        Neighbours(l, s, i);
      }
    }
  }

  lemma ReplaceKeys(l: Links, s: seq<LayerId>, k: nat, n: LayerId)
    requires Represents(l, s) && k < |s| && n !in s
    ensures NextKeys(ReplaceWith(l, s[k], n), s[k := n])
    ensures PrevKeys(ReplaceWith(l, s[k], n), s[k := n])
  {
    var r := ReplaceWith(l, s[k], n);
    var t := s[k := n];
    Neighbours(l, s, k);
    Outsider(l, s, n);
    forall x | x in r.next ensures x in t && x != t[|t| - 1] {
      assert Next(r, x).Some?;
      NextAfterReplace(l, s[k], n, x);
      if x == n {
        assert t[k] == x && k < |s| - 1;
      } else {
        var j :| 0 <= j < |s| && s[j] == x;
        assert j != k && j != |s| - 1;
        assert t[j] == x;
      }
    }
    forall x | x in r.prev ensures x in t && x != t[0] {
      assert Prev(r, x).Some?;
      PrevAfterReplace(l, s[k], n, x);
      if x == n {
        assert t[k] == x && k > 0;
      } else {
        var j :| 0 <= j < |s| && s[j] == x;
        assert j != k && j != 0;
        assert t[j] == x;
      }
    }
  }

  /** Reads the sibling sequence back by following `nextSibling` from the
      first child, at most `fuel` steps. */
  function Walk(l: Links, from: Option<LayerId>, fuel: nat): seq<LayerId>
    decreases fuel
  {
    if from.None? || fuel == 0 then []
    else [from.value] + Walk(l, Next(l, from.value), fuel - 1)
  }

  /** Following the links from the first child visits the represented
      sequence, which is how every iteration over the children proceeds. */
  lemma {:induction false} WalkFollowsRepresents(l: Links, s: seq<LayerId>, k: nat)
    requires Represents(l, s) && k <= |s|
    ensures Walk(l, if k < |s| then Some(s[k]) else None, |s| - k) == s[k..]
    decreases |s| - k
  {
    if k < |s| {
      if k < |s| - 1 {
        WalkFollowsRepresents(l, s, k + 1);
      }
      assert s[k..] == [s[k]] + s[k + 1..];
    }
  }

  // ---------------------------------------------------------------------------
  // Layer trees

  datatype LayerTree = Leaf(id: LayerId) | Container(id: LayerId, children: seq<LayerTree>)

  /** The ids strictly below a layer. */
  function Descendants(t: LayerTree): set<LayerId>
    decreases t, 1
  {
    if t.Leaf? then {} else ChildrenIds(t.children)
  }

  function ChildrenIds(cs: seq<LayerTree>): set<LayerId>
    decreases cs, 0
  {
    if cs == [] then {} else {cs[0].id} + Descendants(cs[0]) + ChildrenIds(cs[1..])
  }

  function Count(t: LayerTree): nat
    decreases t, 1
  {
    if t.Leaf? then 0 else CountChildren(t.children)
  }

  function CountChildren(cs: seq<LayerTree>): nat
    decreases cs, 0
  {
    if cs == [] then 0 else 1 + Count(cs[0]) + CountChildren(cs[1..])
  }

  /** `depthFirstIterateChildren`: each child, followed (for a container) by
      its own walk. */
  function DepthFirstIterateChildren(t: LayerTree): (r: seq<LayerId>)
    ensures |r| == Count(t)
    ensures forall x | x in r :: x in Descendants(t)
    decreases t, 1
  {
    if t.Leaf? then [] else IterateFrom(t.children)
  }

  function IterateFrom(cs: seq<LayerTree>): (r: seq<LayerId>)
    ensures |r| == CountChildren(cs)
    ensures forall x | x in r :: x in ChildrenIds(cs)
    ensures cs != [] ==> r == [cs[0].id] + DepthFirstIterateChildren(cs[0]) + IterateFrom(cs[1..])
    decreases cs, 0
  {
    if cs == [] then []
    else
      var a := DepthFirstIterateChildren(cs[0]);
      var b := IterateFrom(cs[1..]);
      [cs[0].id] + a + b
  }

  /** Every layer below the root is visited. */
  lemma {:induction false} IterateVisitsAll(t: LayerTree, x: LayerId)
    requires x in Descendants(t)
    ensures x in DepthFirstIterateChildren(t)
    decreases t, 1
  {
    IterateFromVisitsAll(t.children, x);
  }

  lemma {:induction false} IterateFromVisitsAll(cs: seq<LayerTree>, x: LayerId)
    requires x in ChildrenIds(cs)
    ensures x in IterateFrom(cs)
    decreases cs, 0
  {
    var a := DepthFirstIterateChildren(cs[0]);
    var b := IterateFrom(cs[1..]);
    assert IterateFrom(cs) == [cs[0].id] + a + b;
    if x == cs[0].id {
      assert x in [cs[0].id];
    } else if x in Descendants(cs[0]) {
      IterateVisitsAll(cs[0], x);
      assert x in a;
    } else {
      IterateFromVisitsAll(cs[1..], x);
      assert x in b;
    }
  }

  // ---------------------------------------------------------------------------
  // updateSubtreeNeedsAddToScene

  datatype SceneLayer = SceneLayer(needsAddToScene: bool, alwaysNeedsAddToScene: bool, children: seq<SceneLayer>)

  /** Some layer of the subtree is flagged or always needs adding. */
  predicate AnyNeedsAdd(t: SceneLayer)
    decreases t
  {
    t.needsAddToScene || t.alwaysNeedsAddToScene ||
    exists i | 0 <= i < |t.children| :: AnyNeedsAdd(t.children[i])
  }

  /** `updateSubtreeNeedsAddToScene`: the own flag ORed with
      `alwaysNeedsAddToScene`, then with each (updated) child's flag. */
  function UpdateSubtreeNeedsAddToScene(t: SceneLayer): (r: SceneLayer)
    ensures |r.children| == |t.children| && r.alwaysNeedsAddToScene == t.alwaysNeedsAddToScene
    ensures forall i | 0 <= i < |t.children| :: r.children[i] == UpdateSubtreeNeedsAddToScene(t.children[i])
    ensures r.needsAddToScene == (t.needsAddToScene || t.alwaysNeedsAddToScene ||
                                  exists i | 0 <= i < |r.children| :: r.children[i].needsAddToScene)
    decreases t, 1
  {
    var cs := UpdateAll(t.children);
    SceneLayer(t.needsAddToScene || t.alwaysNeedsAddToScene || AnyFlag(cs), t.alwaysNeedsAddToScene, cs)
  }

  function UpdateAll(cs: seq<SceneLayer>): (r: seq<SceneLayer>)
    ensures |r| == |cs|
    ensures forall i | 0 <= i < |cs| :: r[i] == UpdateSubtreeNeedsAddToScene(cs[i])
    decreases cs, 0
  {
    if cs == [] then [] else [UpdateSubtreeNeedsAddToScene(cs[0])] + UpdateAll(cs[1..])
  }

  predicate AnyFlag(cs: seq<SceneLayer>) {
    exists i | 0 <= i < |cs| :: cs[i].needsAddToScene
  }

  /** After the roll-up a layer is flagged exactly when something in its
      subtree was flagged or always needs adding. */
  lemma {:induction false} UpdateFlagIffSubtree(t: SceneLayer)
    ensures UpdateSubtreeNeedsAddToScene(t).needsAddToScene <==> AnyNeedsAdd(t)
    decreases t
  {
    var r := UpdateSubtreeNeedsAddToScene(t);
    forall i | 0 <= i < |t.children|
      ensures r.children[i].needsAddToScene <==> AnyNeedsAdd(t.children[i])
    {
      assert t.children[i] in t.children;
      UpdateFlagIffSubtree(t.children[i]);
    }
  }

  // ---------------------------------------------------------------------------
  // findAnnotations

  /** A layer as the annotation search sees it.  `hit` says whether the query
      position, in the region's coordinates, is inside it (or it has no size);
      `matches` whether its annotation has the requested type. */
  datatype AnnotationLayer<A> =
    | Plain
    | Group(children: seq<AnnotationLayer<A>>)
    | Region(value: A, hit: bool, matches: bool, isOpaque: bool, children: seq<AnnotationLayer<A>>)

  /** The result of a search: whether it was absorbed, and the entries. */
  datatype Search<A> = Search(absorbed: bool, entries: seq<A>)

  /** Some matching opaque region under the position can absorb the search. */
  predicate CanAbsorb<A>(l: AnnotationLayer<A>)
    decreases l
  {
    match l
    case Plain => false
    case Group(cs) => exists i | 0 <= i < |cs| :: CanAbsorb(cs[i])
    case Region(_, hit, matches, isOpaque, cs) =>
      (hit && matches && isOpaque) || exists i | 0 <= i < |cs| :: CanAbsorb(cs[i])
  }

  /** `findAnnotations(result, position, onlyFirst)`: leaves add nothing; a
      container asks its children from last to first and stops at the first
      that absorbs, or once there is an entry when `onlyFirst`; an annotated
      region searches its children, then adds its own value when the position
      is inside and the type matches, absorbing when it is isOpaque. */
  function FindAnnotations<A>(l: AnnotationLayer<A>, entries: seq<A>, onlyFirst: bool): (r: Search<A>)
    ensures |entries| <= |r.entries| && r.entries[..|entries|] == entries
    ensures onlyFirst && |entries| > 0 ==> r.entries == entries
    ensures onlyFirst ==> |r.entries| <= |entries| + 1
    ensures r.absorbed ==> CanAbsorb(l)
    decreases l, 1
  {
    match l
    case Plain => Search(false, entries)
    case Group(cs) => FindInChildren(cs, |cs|, entries, onlyFirst)
    case Region(value, hit, matches, isOpaque, cs) =>
      var base := FindInChildren(cs, |cs|, entries, onlyFirst);
      if |base.entries| > 0 && onlyFirst then base
      else if !hit then base
      else if matches then Search(base.absorbed || isOpaque, base.entries + [value])
      else base
  }

  /** The container loop over children[..k], from child k-1 down to child 0. */
  function FindInChildren<A>(cs: seq<AnnotationLayer<A>>, k: nat, entries: seq<A>, onlyFirst: bool): (r: Search<A>)
    requires k <= |cs|
    ensures |entries| <= |r.entries| && r.entries[..|entries|] == entries
    ensures onlyFirst && |entries| > 0 ==> r.entries == entries
    ensures onlyFirst ==> |r.entries| <= |entries| + 1
    ensures r.absorbed ==> exists i | 0 <= i < k :: CanAbsorb(cs[i])
    decreases cs, 0, k
  {
    if k == 0 then Search(false, entries)
    else
      assert cs[k - 1] in cs;
      var r := FindAnnotations(cs[k - 1], entries, onlyFirst);
      if r.absorbed then r
      else if onlyFirst && |r.entries| > 0 then r
      else
        var rest := FindInChildren(cs, k - 1, r.entries, onlyFirst);
        assert rest.entries[..|entries|] == r.entries[..|entries|];
        rest
  }

  /** Without anything able to absorb, a full search collects every matching
      region under the position, children last to first and each region after
      its own children. */
  function AllAnnotations<A>(l: AnnotationLayer<A>): seq<A>
    decreases l, 1
  {
    match l
    case Plain => []
    case Group(cs) => AllInChildren(cs, |cs|)
    case Region(value, hit, matches, _, cs) => AllInChildren(cs, |cs|) + (if hit && matches then [value] else [])
  }

  function AllInChildren<A>(cs: seq<AnnotationLayer<A>>, k: nat): seq<A>
    requires k <= |cs|
    decreases cs, 0, k
  {
    if k == 0 then [] else (assert cs[k - 1] in cs; AllAnnotations(cs[k - 1])) + AllInChildren(cs, k - 1)
  }

  lemma {:induction false} FullSearchCollectsAll<A>(l: AnnotationLayer<A>, entries: seq<A>)
    requires !CanAbsorb(l)
    ensures FindAnnotations(l, entries, false) == Search(false, entries + AllAnnotations(l))
    decreases l, 1
  {
    match l
    case Plain =>
    case Group(cs) => FullSearchChildren(cs, |cs|, entries);
    case Region(value, hit, matches, isOpaque, cs) => FullSearchChildren(cs, |cs|, entries);
  }

  lemma {:induction false} FullSearchChildren<A>(cs: seq<AnnotationLayer<A>>, k: nat, entries: seq<A>)
    requires k <= |cs| && forall i | 0 <= i < |cs| :: !CanAbsorb(cs[i])
    ensures FindInChildren(cs, k, entries, false) == Search(false, entries + AllInChildren(cs, k))
    decreases cs, 0, k
  {
    if k > 0 {
      assert cs[k - 1] in cs;
      FullSearchCollectsAll(cs[k - 1], entries);
      FullSearchChildren(cs, k - 1, entries + AllAnnotations(cs[k - 1]));
    }
  }
}
