/** Render-tree bookkeeping (rendering/object.cs): relayout-boundary choice,
    propagation of the layout, paint and compositing dirty flags, the
    compositing-bits update, the depth-ordered layout flush and the chain
    behind `getTransformTo`.  Render objects are node identities; the tree is
    a parent map with depths, and every node is taken to be attached to the
    one pipeline owner. */
module RenderObjects {
  import opened Wrappers

  type Node = nat

  /** The render tree: each node's RenderObject parent (absent at a root), the
      depths that order it, and which nodes are repaint boundaries. */
  datatype RenderTree = RenderTree(parent: map<Node, Node>, depth: map<Node, nat>,
                                   repaintBoundaries: set<Node>)

  /** Parents are strictly shallower than their children, so walks up the tree end. */
  predicate WellFormed(t: RenderTree) {
    forall n | n in t.parent :: n in t.depth && t.parent[n] in t.depth && t.depth[t.parent[n]] < t.depth[n]
  }

  function ParentOf(t: RenderTree, n: Node): Option<Node> {
    if n in t.parent then Some(t.parent[n]) else None
  }

  /** Each node of p is the parent of the one before it. */
  predicate IsParentChain(t: RenderTree, p: seq<Node>) {
    forall i | 0 <= i < |p| - 1 :: ParentOf(t, p[i]) == Some(p[i + 1])
  }

  /** The nodes from n up to the root, n first. */
  function PathUp(t: RenderTree, n: Node): (p: seq<Node>)
    requires WellFormed(t) && n in t.depth
    ensures |p| > 0 && p[0] == n && p[|p| - 1] !in t.parent
    ensures IsParentChain(t, p)
    decreases t.depth[n]
  {
    if n in t.parent then
      var rest := PathUp(t, t.parent[n]);
      assert forall i | 1 <= i < |rest| :: ([n] + rest)[i] == rest[i - 1];
      [n] + rest
    else [n]
  }

  // ---------------------------------------------------------------------------
  // layout()

  /** The boundary `layout` picks: the node itself when its parent does not use
      its size, it is sized by its parent, the constraints are tight or it has
      no RenderObject parent; otherwise its parent's boundary. */
  function ChooseRelayoutBoundary(n: Node, parentUsesSize: bool, sizedByParent: bool,
                                  constraintsTight: bool, parentBoundary: Option<Node>): (b: Option<Node>)
    ensures b == Some(n) <==> !parentUsesSize || sizedByParent || constraintsTight || parentBoundary.None?
                              || parentBoundary == Some(n)
    ensures b != Some(n) ==> b == parentBoundary
  {
    if !parentUsesSize || sizedByParent || constraintsTight || parentBoundary.None? then Some(n)
    else parentBoundary
  }

  /** What `layout` remembers about a node between calls. */
  datatype LayoutState<C> = LayoutState(needsLayout: bool, constraints: Option<C>, boundary: Option<Node>)

  /** The outcome of one `layout` call: the new state, whether the node was
      laid out, and whether its children's boundaries were cleaned. */
  datatype LayoutOutcome<C> = LayoutOutcome(state: LayoutState<C>, laidOut: bool, cleanedChildren: bool)

  /** `layout(constraints, parentUsesSize)`: returns early when the node is
      clean and neither its constraints nor its boundary changed; otherwise it
      records both, cleans its children's boundaries when a previously set
      boundary moved, and ends clean. */
  function Layout<C(==)>(s: LayoutState<C>, n: Node, constraints: C, parentUsesSize: bool,
                         sizedByParent: bool, constraintsTight: bool,
                         parentBoundary: Option<Node>): (r: LayoutOutcome<C>)
    ensures var b := ChooseRelayoutBoundary(n, parentUsesSize, sizedByParent, constraintsTight, parentBoundary);
      (!r.laidOut <==> !s.needsLayout && s.constraints == Some(constraints) && s.boundary == b) &&
      (!r.laidOut ==> r.state == s && !r.cleanedChildren) &&
      (r.laidOut ==> r.state == LayoutState(false, Some(constraints), b)) &&
      (r.cleanedChildren <==> r.laidOut && s.boundary.Some? && s.boundary != b)
  {
    var b := ChooseRelayoutBoundary(n, parentUsesSize, sizedByParent, constraintsTight, parentBoundary);
    if !s.needsLayout && s.constraints == Some(constraints) && s.boundary == b then
      LayoutOutcome(s, false, false)
    else
      LayoutOutcome(LayoutState(false, Some(constraints), b), true, s.boundary.Some? && s.boundary != b)
  }

  /** Laying out twice with the same arguments does nothing the second time. */
  lemma LayoutSettles<C>(s: LayoutState<C>, n: Node, constraints: C, parentUsesSize: bool,
                             sizedByParent: bool, constraintsTight: bool, parentBoundary: Option<Node>)
    ensures var r := Layout(s, n, constraints, parentUsesSize, sizedByParent, constraintsTight, parentBoundary);
      !Layout(r.state, n, constraints, parentUsesSize, sizedByParent, constraintsTight, parentBoundary).laidOut
  {
  }

  // ---------------------------------------------------------------------------
  // markNeedsLayout()

  /** The layout flags of the whole tree: which nodes are dirty, each laid-out
      node's relayout boundary, and the owner's `_nodesNeedingLayout` list. */
  datatype LayoutMarks = LayoutMarks(needsLayout: set<Node>, boundary: map<Node, Node>, queue: seq<Node>)

  /** What `layout` guarantees of the boundaries it records: a node is its own
      boundary, or it has a parent with the same boundary. */
  predicate BoundariesConsistent(t: RenderTree, s: LayoutMarks) {
    forall m | m in s.boundary ::
      m in t.depth &&
      (s.boundary[m] == m || (m in t.parent && t.parent[m] in s.boundary && s.boundary[t.parent[m]] == s.boundary[m]))
  }

  /** Every dirty laid-out node has a dirty relayout boundary waiting in the
      owner's list, so the next flush reaches it. */
  predicate DirtyReachesQueue(s: LayoutMarks) {
    forall m | m in s.needsLayout && m in s.boundary ::
      s.boundary[m] in s.needsLayout && s.boundary[m] in s.queue
  }

  /** `markNeedsLayout`: a no-op on a dirty node; a node that is not its own
      boundary is marked and marks its parent; a boundary is marked and
      enqueued.  (The node is marked after its ancestors here; the walk never
      looks at the node again, so the final state is the same.) */
  function MarkNeedsLayout(t: RenderTree, s: LayoutMarks, n: Node): (r: LayoutMarks)
    requires WellFormed(t) && BoundariesConsistent(t, s) && n in s.boundary
    ensures r.boundary == s.boundary
    ensures s.needsLayout <= r.needsLayout && n in r.needsLayout
    ensures n in s.needsLayout ==> r == s
    // only the walk from n to its boundary is marked, and at most the boundary is enqueued
    ensures forall m | m in r.needsLayout && m !in s.needsLayout :: m in s.boundary && s.boundary[m] == s.boundary[n]
    ensures r.queue == s.queue || r.queue == s.queue + [s.boundary[n]]
    ensures s.boundary[n] == n && n !in s.needsLayout ==> r.queue == s.queue + [n]
    ensures DirtyReachesQueue(s) ==> DirtyReachesQueue(r) && s.boundary[n] in r.needsLayout
    decreases t.depth[n]
  {
    if n in s.needsLayout then s
    else if s.boundary[n] != n then
      var r := MarkNeedsLayout(t, s, t.parent[n]);
      r.(needsLayout := r.needsLayout + {n})
    else
      s.(needsLayout := s.needsLayout + {n}, queue := s.queue + [n])
  }

  // ---------------------------------------------------------------------------
  // markNeedsPaint()

  /** The nearest repaint boundary at or above n, if any. */
  function NearestRepaintBoundary(t: RenderTree, n: Node): (b: Option<Node>)
    requires WellFormed(t) && n in t.depth
    ensures b.Some? ==> b.value in t.repaintBoundaries
    ensures n in t.repaintBoundaries ==> b == Some(n)
    decreases t.depth[n]
  {
    if n in t.repaintBoundaries then Some(n)
    else if n in t.parent then NearestRepaintBoundary(t, t.parent[n])
    else None
  }

  /** The nodes from n up to and including its nearest repaint boundary (up to
      the root when there is none). */
  function PaintPath(t: RenderTree, n: Node): (p: set<Node>)
    requires WellFormed(t) && n in t.depth
    ensures n in p
    ensures forall m | m in p :: m in t.depth && NearestRepaintBoundary(t, m) == NearestRepaintBoundary(t, n)
    decreases t.depth[n]
  {
    if n in t.repaintBoundaries || n !in t.parent then {n}
    else {n} + PaintPath(t, t.parent[n])
  }

  /** The paint flags: dirty nodes, the owner's `_nodesNeedingPaint`, and how
      many visual updates were requested. */
  datatype PaintMarks = PaintMarks(needsPaint: set<Node>, queue: seq<Node>, visualUpdates: nat)

  /** Every dirty node under a repaint boundary has that boundary dirty and
      waiting in the owner's list. */
  predicate PaintReachesQueue(t: RenderTree, s: PaintMarks)
    requires WellFormed(t)
  {
    forall m | m in s.needsPaint && m in t.depth ::
      var b := NearestRepaintBoundary(t, m);
      b.Some? ==> b.value in s.needsPaint && b.value in s.queue
  }

  /** `markNeedsPaint`: a no-op on a dirty node; otherwise marks the node and,
      at a repaint boundary, enqueues it; below one, marks the parent; at a
      root without one, only requests a visual update. */
  function MarkNeedsPaint(t: RenderTree, s: PaintMarks, n: Node): (r: PaintMarks)
    requires WellFormed(t) && n in t.depth
    ensures n in s.needsPaint ==> r == s
    ensures s.needsPaint <= r.needsPaint && n in r.needsPaint
    ensures r.needsPaint - s.needsPaint <= PaintPath(t, n)
    ensures PaintPath(t, n) !! s.needsPaint ==> r.needsPaint == s.needsPaint + PaintPath(t, n)
    ensures r.queue == s.queue ||
            (NearestRepaintBoundary(t, n).Some? && r.queue == s.queue + [NearestRepaintBoundary(t, n).value])
    ensures PaintPath(t, n) !! s.needsPaint && NearestRepaintBoundary(t, n).Some? ==>
            r.queue == s.queue + [NearestRepaintBoundary(t, n).value]
    ensures r.visualUpdates <= s.visualUpdates + 1
    ensures PaintReachesQueue(t, s) ==> PaintReachesQueue(t, r)
    decreases t.depth[n]
  {
    if n in s.needsPaint then s
    else if n in t.repaintBoundaries then
      s.(needsPaint := s.needsPaint + {n}, queue := s.queue + [n], visualUpdates := s.visualUpdates + 1)
    else if n in t.parent then
      var r := MarkNeedsPaint(t, s, t.parent[n]);
      r.(needsPaint := r.needsPaint + {n})
    else
      s.(needsPaint := s.needsPaint + {n}, visualUpdates := s.visualUpdates + 1)
  }

  // ---------------------------------------------------------------------------
  // markNeedsCompositingBitsUpdate()

  /** The nodes flagged `_needsCompositingBitsUpdate` and the owner's
      `_nodesNeedingCompositingBitsUpdate`. */
  datatype CompositingMarks = CompositingMarks(flagged: set<Node>, queue: seq<Node>)

  /** Flags travel upward except across a repaint boundary: a flagged node
      whose parent it would propagate to has a flagged parent. */
  predicate FlagsClosedUpward(t: RenderTree, s: CompositingMarks) {
    forall m | m in s.flagged && m in t.parent ::
      m !in t.repaintBoundaries && t.parent[m] !in t.repaintBoundaries ==> t.parent[m] in s.flagged
  }

  /** `markNeedsCompositingBitsUpdate`: a no-op on a flagged node; otherwise
      flags it, stops at a flagged parent, continues to the parent while
      neither is a repaint boundary, and otherwise enqueues the node. */
  function MarkNeedsCompositingBitsUpdate(t: RenderTree, s: CompositingMarks, n: Node): (r: CompositingMarks)
    requires WellFormed(t) && n in t.depth
    ensures n in s.flagged ==> r == s
    ensures s.flagged <= r.flagged && n in r.flagged
    ensures forall m | m in r.flagged && m !in s.flagged :: m in PathUp(t, n)
    ensures |s.queue| <= |r.queue| <= |s.queue| + 1 && r.queue[..|s.queue|] == s.queue
    ensures (n in t.parent && n !in s.flagged && t.parent[n] !in s.flagged &&
             n !in t.repaintBoundaries && t.parent[n] !in t.repaintBoundaries) ==> t.parent[n] in r.flagged
    ensures FlagsClosedUpward(t, s) ==> FlagsClosedUpward(t, r)
    decreases t.depth[n]
  {
    if n in s.flagged then s
    else if n in t.parent && t.parent[n] in s.flagged then s.(flagged := s.flagged + {n})
    else if n in t.parent && n !in t.repaintBoundaries && t.parent[n] !in t.repaintBoundaries then
      var r := MarkNeedsCompositingBitsUpdate(t, s, t.parent[n]);
      r.(flagged := r.flagged + {n})
    else s.(flagged := s.flagged + {n}, queue := s.queue + [n])
  }

  // ---------------------------------------------------------------------------
  // _updateCompositingBits()

  /** A subtree as `_updateCompositingBits` sees it. */
  datatype RenderNode = RenderNode(id: Node, isRepaintBoundary: bool, alwaysNeedsCompositing: bool,
                                   flagged: bool, needsCompositing: bool, children: seq<RenderNode>)

  predicate AnyChildComposites(cs: seq<RenderNode>) {
    exists i | 0 <= i < |cs| :: cs[i].needsCompositing
  }

  /** The value `_updateCompositingBits` settles on for a node. */
  predicate LocallyConsistent(n: RenderNode) {
    n.needsCompositing == (AnyChildComposites(n.children) || n.isRepaintBoundary || n.alwaysNeedsCompositing)
  }

  /** Every node that is not flagged holds its settled value, and every repaint
      boundary composites (the constructor starts it that way). */
  predicate Settled(n: RenderNode)
    decreases n
  {
    (n.flagged || LocallyConsistent(n)) &&
    (n.isRepaintBoundary ==> n.needsCompositing) &&
    forall i | 0 <= i < |n.children| :: Settled(n.children[i])
  }

  /** `_updateCompositingBits`: an unflagged node is left alone; a flagged one
      updates its children first, then recomputes its own bit and clears its
      flag.  The second result holds the nodes whose bit changed; each of
      them gets `markNeedsPaint`. */
  function UpdateCompositingBits(n: RenderNode): (r: (RenderNode, set<Node>))
    ensures !n.flagged ==> r == (n, {})
    ensures n.flagged ==> !r.0.flagged && LocallyConsistent(r.0)
    ensures r.0.id == n.id && r.0.isRepaintBoundary == n.isRepaintBoundary
    ensures r.0.alwaysNeedsCompositing == n.alwaysNeedsCompositing && |r.0.children| == |n.children|
    ensures n.flagged && r.0.needsCompositing != n.needsCompositing ==> n.id in r.1
    decreases n, 1
  {
    if !n.flagged then (n, {})
    else
      var (cs, repainted) := UpdateChildren(n.children);
      var value := AnyChildComposites(cs) || n.isRepaintBoundary || n.alwaysNeedsCompositing;
      (n.(flagged := false, needsCompositing := value, children := cs),
       repainted + (if value != n.needsCompositing then {n.id} else {}))
  }

  /** Visits the children in order, as `visitChildren` does. */
  function UpdateChildren(cs: seq<RenderNode>): (r: (seq<RenderNode>, set<Node>))
    ensures |r.0| == |cs|
    ensures forall i | 0 <= i < |cs| :: r.0[i] == UpdateCompositingBits(cs[i]).0
    decreases cs, 0
  {
    if cs == [] then ([], {})
    else
      var (head, a) := UpdateCompositingBits(cs[0]);
      var (tail, b) := UpdateChildren(cs[1..]);
      ([head] + tail, a + b)
  }

  /** The update keeps a settled tree settled and leaves its root holding the
      settled value. */
  lemma {:induction false} UpdateKeepsSettled(n: RenderNode)
    requires Settled(n)
    ensures Settled(UpdateCompositingBits(n).0)
    ensures LocallyConsistent(UpdateCompositingBits(n).0) && !UpdateCompositingBits(n).0.flagged
    decreases n
  {
    if n.flagged {
      var r := UpdateCompositingBits(n).0;
      forall i | 0 <= i < |n.children| ensures Settled(r.children[i]) {
        assert n.children[i] in n.children;
        UpdateKeepsSettled(n.children[i]);
      }
    }
  }

  // ---------------------------------------------------------------------------
  // PipelineOwner

  /** A node's depth (0 for a node the map does not know). */
  function Depth(depth: map<Node, nat>, n: Node): nat {
    if n in depth then depth[n] else 0
  }

  predicate SortedByDepth(depth: map<Node, nat>, s: seq<Node>) {
    forall i, j | 0 <= i < j < |s| :: Depth(depth, s[i]) <= Depth(depth, s[j])
  }

  /** Inserts x before the first deeper node. */
  function InsertByDepth(depth: map<Node, nat>, x: Node, s: seq<Node>): (r: seq<Node>)
    requires SortedByDepth(depth, s)
    ensures |r| > 0 && (r[0] == x || (s != [] && r[0] == s[0]))
    ensures SortedByDepth(depth, r)
  {
    if s == [] || Depth(depth, x) <= Depth(depth, s[0]) then [x] + s
    else
      var rest := InsertByDepth(depth, x, s[1..]);
      assert s == [s[0]] + s[1..];
      var r := [s[0]] + rest;
      assert SortedByDepth(depth, r) by {
        forall i, j | 0 <= i < j < |r| ensures Depth(depth, r[i]) <= Depth(depth, r[j]) {
          if i == 0 {
            assert Depth(depth, s[0]) <= Depth(depth, rest[0]);
            assert r[j] == rest[j - 1];
          } else {
            assert r[i] == rest[i - 1] && r[j] == rest[j - 1];
          }
        }
      }
      r
  }

  lemma {:induction false} InsertByDepthPermutes(depth: map<Node, nat>, x: Node, s: seq<Node>)
    requires SortedByDepth(depth, s)
    ensures multiset(InsertByDepth(depth, x, s)) == multiset(s) + multiset{x}
  {
    if s != [] && Depth(depth, x) > Depth(depth, s[0]) {
      InsertByDepthPermutes(depth, x, s[1..]);
      assert s == [s[0]] + s[1..];
    }
  }

  /** The order `flushLayout` lays the dirty list out in: by non-decreasing
      depth, parents before children.  `List.Sort` is not stable, so among
      equal depths this is one admissible order. */
  function FlushOrder(depth: map<Node, nat>, dirty: seq<Node>): (r: seq<Node>)
    ensures SortedByDepth(depth, r)
  {
    if dirty == [] then [] else InsertByDepth(depth, dirty[0], FlushOrder(depth, dirty[1..]))
  }

  /** The flush order is a permutation of the dirty list. */
  lemma {:induction false} FlushOrderPermutes(depth: map<Node, nat>, dirty: seq<Node>)
    ensures multiset(FlushOrder(depth, dirty)) == multiset(dirty)
  {
    if dirty != [] {
      FlushOrderPermutes(depth, dirty[1..]);
      InsertByDepthPermutes(depth, dirty[0], FlushOrder(depth, dirty[1..]));
      assert dirty == [dirty[0]] + dirty[1..];
    }
  }

  /** The sorted list without the nodes that are no longer dirty. */
  function KeepDirty(depth: map<Node, nat>, s: seq<Node>, keep: set<Node>): (r: seq<Node>)
    requires SortedByDepth(depth, s)
    ensures forall i | 0 <= i < |r| :: r[i] in keep && r[i] in s
    ensures forall i | 0 <= i < |s| :: s[i] in keep ==> s[i] in r
    ensures SortedByDepth(depth, r)
    ensures s != [] ==> forall i | 0 <= i < |r| :: Depth(depth, s[0]) <= Depth(depth, r[i])
  {
    if s == [] then []
    else
      var rest := KeepDirty(depth, s[1..], keep);
      assert forall i | 0 <= i < |rest| :: rest[i] in s[1..];
      assert |s| > 1 ==> Depth(depth, s[0]) <= Depth(depth, s[1]);
      if s[0] in keep then
        SortedCons(depth, s[0], rest);
        [s[0]] + rest
      else rest
  }

  /** A node no deeper than any node of a sorted list can go in front of it. */
  lemma SortedCons(depth: map<Node, nat>, x: Node, s: seq<Node>)
    requires SortedByDepth(depth, s)
    requires forall i | 0 <= i < |s| :: Depth(depth, x) <= Depth(depth, s[i])
    ensures SortedByDepth(depth, [x] + s)
  {
    var r := [x] + s;
    forall i, j | 0 <= i < j < |r|
      ensures Depth(depth, r[i]) <= Depth(depth, r[j])
    {
      assert r[j] == s[j - 1];
      if i > 0 { assert r[i] == s[i - 1]; }
    }
  }

  /** One round of `flushLayout`: the dirty list in depth order, keeping the
      nodes still dirty when their turn comes (laying a node out cleans only
      that node). */
  function FlushLayoutRound(depth: map<Node, nat>, dirty: seq<Node>, needsLayout: set<Node>): (r: seq<Node>)
    ensures forall i | 0 <= i < |r| :: r[i] in needsLayout && r[i] in dirty
    ensures forall i | 0 <= i < |dirty| :: dirty[i] in needsLayout ==> dirty[i] in r
    ensures SortedByDepth(depth, r)
  {
    var order := FlushOrder(depth, dirty);
    FlushOrderPermutes(depth, dirty);
    assert forall i | 0 <= i < |dirty| :: dirty[i] in multiset(order);
    assert forall i | 0 <= i < |order| :: order[i] in multiset(dirty);
    KeepDirty(depth, order, needsLayout)
  }

  /** Setting `rootNode`: the new root and the nodes detached and attached. */
  datatype RootChange = RootChange(root: Option<Node>, detached: Option<Node>, attached: Option<Node>)

  /** The `rootNode` setter: the same value is a no-op; otherwise the old root
      is detached and the new one attached. */
  function SetRootNode(current: Option<Node>, value: Option<Node>): (r: RootChange)
    ensures r.root == value
    ensures value == current ==> r.detached.None? && r.attached.None?
    ensures value != current ==> r.detached == current && r.attached == value
  {
    if current == value then RootChange(current, None, None)
    else RootChange(value, current, value)
  }

  // ---------------------------------------------------------------------------
  // getTransformTo()

  datatype TransformError = NotAnAncestor

  /** The nodes from n up to (not including) target, or to the top when no
      target is given; Failure when target is not an ancestor. */
  function WalkUpTo(t: RenderTree, n: Node, target: Option<Node>): (r: Result<seq<Node>, TransformError>)
    requires WellFormed(t) && n in t.depth
    ensures r.Success? ==> (|r.value| == 0 <==> target == Some(n))
    ensures r.Success? && |r.value| > 0 ==> r.value[0] == n
    ensures r.Success? ==> IsParentChain(t, r.value)
    ensures r.Success? && |r.value| > 0 ==>
      ParentOf(t, r.value[|r.value| - 1]) == target
    decreases t.depth[n]
  {
    if target == Some(n) then Success([])
    else if n !in t.parent then (if target.None? then Success([n]) else Failure(NotAnAncestor))
    else
      match WalkUpTo(t, t.parent[n], target)
      case Success(rest) =>
        assert forall i | 1 <= i < |rest| :: ([n] + rest)[i] == rest[i - 1];
        Success([n] + rest)
      case Failure(e) => Failure(e)
  }

  /** The (parent, child) pairs of a chain, from its top downward. */
  function ChainPairs(chain: seq<Node>): (r: seq<(Node, Node)>)
    ensures |r| == if |chain| < 2 then 0 else |chain| - 1
    ensures forall i | 0 <= i < |r| :: r[i] == (chain[|chain| - 1 - i], chain[|chain| - 2 - i])
  {
    if |chain| < 2 then [] else ChainPairs(chain[1..]) + [(chain[1], chain[0])]
  }

  /** `getTransformTo(ancestor)`: the (parent, child) pairs whose
      `applyPaintTransform` is applied, from the top of the chain downward.
      Without an ancestor the chain runs to the owner's root node (or to the
      top when the root is not a render object) and that root takes no part. */
  function TransformPairs(t: RenderTree, n: Node, ancestor: Option<Node>, root: Option<Node>)
    : (r: Result<seq<(Node, Node)>, TransformError>)
    requires WellFormed(t) && n in t.depth
    ensures r.Success? ==> LinkedPairs(t, r.value)
    ensures r.Success? && ancestor.Some? && ancestor != Some(n) ==>
      |r.value| > 0 && r.value[0].0 == ancestor.value && r.value[|r.value| - 1].1 == n
  {
    var target := if ancestor.Some? then ancestor else root;
    match WalkUpTo(t, n, target)
    case Failure(e) => Failure(e)
    case Success(walk) =>
      if ancestor.Some? then
        var chain := walk + [ancestor.value];
        ExtendChain(t, walk, ancestor.value);
        PairsOfParentChain(t, chain);
        PairsEnds(walk, ancestor.value);
        Success(ChainPairs(chain))
      else
        PairsOfParentChain(t, walk);
        Success(ChainPairs(walk))
  }

  /** With the ancestor added on top, the first pair starts at the ancestor and
      the last ends at the bottom of the walk. */
  lemma PairsEnds(walk: seq<Node>, a: Node)
    ensures var r := ChainPairs(walk + [a]);
      |walk| > 0 ==> |r| > 0 && r[0].0 == a && r[|r| - 1].1 == walk[0]
  {
    var chain := walk + [a];
    var r := ChainPairs(chain);
    if |walk| > 0 {
      assert r[0] == (chain[|chain| - 1], chain[|chain| - 2]);
      assert r[|r| - 1] == (chain[1], chain[0]);
    }
  }

  /** A chain stays a parent chain when the parent of its last node is added. */
  lemma ExtendChain(t: RenderTree, p: seq<Node>, a: Node)
    requires IsParentChain(t, p)
    requires |p| > 0 ==> ParentOf(t, p[|p| - 1]) == Some(a)
    ensures IsParentChain(t, p + [a])
  {
    var q := p + [a];
    forall i | 0 <= i < |q| - 1
      ensures ParentOf(t, q[i]) == Some(q[i + 1])
    {
      assert q[i] == p[i];
      if i + 1 < |p| { assert q[i + 1] == p[i + 1]; }
    }
  }

  /** Each pair is a (parent, child) link of the tree, and each pair's child is
      the next pair's parent. */
  predicate LinkedPairs(t: RenderTree, r: seq<(Node, Node)>) {
    (forall i | 0 <= i < |r| :: ParentOf(t, r[i].1) == Some(r[i].0)) &&
    (forall i | 0 < i < |r| :: r[i].0 == r[i - 1].1)
  }

  /** The pairs of a parent chain link each parent to its child, and each
      pair's child is the next pair's parent. */
  lemma PairsOfParentChain(t: RenderTree, chain: seq<Node>)
    requires IsParentChain(t, chain)
    ensures LinkedPairs(t, ChainPairs(chain))
  {
    var r := ChainPairs(chain);
    forall i | 0 <= i < |r|
      ensures ParentOf(t, r[i].1) == Some(r[i].0)
    {
      var k := |chain| - 2 - i;
      assert r[i] == (chain[k + 1], chain[k]);
    }
  }
}
