/** Basic widgets (widgets/basic.cs): `Positioned` and its directional
    forms, the parent data that `Positioned` and `Flexible` apply, the flex
    text-direction rule, the intrinsic-width step, the key wrapping of
    `RepaintBoundary` and `KeyedSubtree`, and `LayoutUtils`. */
module Basic {
  import opened Wrappers

  datatype TextDirection = Ltr | Rtl

  /** The six optional edges and extents of a `Positioned`. */
  datatype Positioned = Positioned(left: Option<real>, top: Option<real>, right: Option<real>,
                                   bottom: Option<real>, width: Option<real>, height: Option<real>)

  /** The constructor's assertions: an axis may not fix both edges and the
      extent at once. */
  predicate PositionedAdmits(left: Option<real>, top: Option<real>, right: Option<real>,
                             bottom: Option<real>, width: Option<real>, height: Option<real>) {
    (left.None? || right.None? || width.None?) && (top.None? || bottom.None? || height.None?)
  }

  /** The `Positioned` constructor. */
  function MakePositioned(left: Option<real>, top: Option<real>, right: Option<real>,
                          bottom: Option<real>, width: Option<real>, height: Option<real>): (p: Positioned)
    requires PositionedAdmits(left, top, right, bottom, width, height)
    ensures PositionedAdmits(p.left, p.top, p.right, p.bottom, p.width, p.height)
    ensures p.left == left && p.top == top && p.right == right && p.bottom == bottom
    ensures p.width == width && p.height == height
  {
    Positioned(left, top, right, bottom, width, height)
  }

  /** Which horizontal edges `start` and `end` become: left/right for
      left-to-right, right/left for right-to-left, neither without a
      direction. */
  function HorizontalEdges(textDirection: Option<TextDirection>, start: Option<real>, end: Option<real>): (r: (Option<real>, Option<real>))
    ensures textDirection == Some(Ltr) ==> r == (start, end)
    ensures textDirection == Some(Rtl) ==> r == (end, start)
    ensures textDirection.None? ==> r == (None, None)
  {
    match textDirection
    case Some(Rtl) => (end, start)
    case Some(Ltr) => (start, end)
    case None => (None, None)
  }

  /** `Positioned.directional`: the `Positioned` constructor's assertions
      apply to the edges `start` and `end` become, so without a direction
      all three horizontal values may be given. */
  function Directional(textDirection: Option<TextDirection>, start: Option<real>, top: Option<real>,
                       end: Option<real>, bottom: Option<real>, width: Option<real>, height: Option<real>): (p: Positioned)
    requires PositionedAdmits(HorizontalEdges(textDirection, start, end).0, top,
                              HorizontalEdges(textDirection, start, end).1, bottom, width, height)
    ensures textDirection == Some(Ltr) ==> p.left == start && p.right == end
    ensures textDirection == Some(Rtl) ==> p.left == end && p.right == start
    ensures textDirection.None? ==> p.left.None? && p.right.None?
    ensures p.top == top && p.bottom == bottom && p.width == width && p.height == height
  {
    var edges := HorizontalEdges(textDirection, start, end);
    MakePositioned(edges.0, top, edges.1, bottom, width, height)
  }

  /** Given a direction, the mapped edges admit exactly what the raw
      `start` and `end` admit; without one, only the vertical axis is
      constrained. */
  lemma DirectionalAdmits(textDirection: Option<TextDirection>, start: Option<real>, top: Option<real>,
                          end: Option<real>, bottom: Option<real>, width: Option<real>, height: Option<real>)
    ensures textDirection.Some? ==>
              (PositionedAdmits(HorizontalEdges(textDirection, start, end).0, top,
                                HorizontalEdges(textDirection, start, end).1, bottom, width, height)
               <==> PositionedAdmits(start, top, end, bottom, width, height))
    ensures textDirection.None? ==>
              (PositionedAdmits(HorizontalEdges(textDirection, start, end).0, top,
                                HorizontalEdges(textDirection, start, end).1, bottom, width, height)
               <==> (top.None? || bottom.None? || height.None?))
  {
  }

  /** Right-to-left is left-to-right with `start` and `end` exchanged. */
  lemma DirectionalMirrors(start: Option<real>, top: Option<real>, end: Option<real>,
                           bottom: Option<real>, width: Option<real>, height: Option<real>)
    requires PositionedAdmits(start, top, end, bottom, width, height)
    ensures Directional(Some(Rtl), start, top, end, bottom, width, height) ==
            Directional(Some(Ltr), end, top, start, bottom, width, height)
  {
  }

  /** `PositionedDirectional` as declared: the constructor accepts a height
      but never stores it, so the field stays null. */
  datatype PositionedDirectional = PositionedDirectional(start: Option<real>, top: Option<real>, end: Option<real>,
                                                         bottom: Option<real>, width: Option<real>, height: Option<real>)

  /** The constructor as written: every argument is stored except `height`. */
  function MakePositionedDirectionalAsWritten(start: Option<real>, top: Option<real>, end: Option<real>,
                                             bottom: Option<real>, width: Option<real>, height: Option<real>): (w: PositionedDirectional)
    ensures w.start == start && w.top == top && w.end == end && w.bottom == bottom && w.width == width
    ensures w.height.None?
  {
    PositionedDirectional(start, top, end, bottom, width, None)
  }

  /** The constructor as intended: every argument is stored. */
  function MakePositionedDirectional(start: Option<real>, top: Option<real>, end: Option<real>,
                                     bottom: Option<real>, width: Option<real>, height: Option<real>): (w: PositionedDirectional)
    ensures w == PositionedDirectional(start, top, end, bottom, width, height)
  {
    PositionedDirectional(start, top, end, bottom, width, height)
  }

  /** `PositionedDirectional.build`: `Positioned.directional` over the
      stored fields and the ambient direction. */
  function BuildPositionedDirectional(w: PositionedDirectional, ambient: TextDirection): (p: Positioned)
    requires PositionedAdmits(w.start, w.top, w.end, w.bottom, w.width, w.height)
    ensures p == Directional(Some(ambient), w.start, w.top, w.end, w.bottom, w.width, w.height)
    ensures p.height == w.height
  {
    Directional(Some(ambient), w.start, w.top, w.end, w.bottom, w.width, w.height)
  }

  /** As written, a height handed to `PositionedDirectional` never reaches
      the `Positioned` it builds: a height of 10 comes out as none. */
  lemma PositionedDirectionalDropsHeight(ambient: TextDirection)
    ensures var w := MakePositionedDirectionalAsWritten(Some(0.0), None, None, None, None, Some(10.0));
            BuildPositionedDirectional(w, ambient).height == None
  {
  }

  /** Built from the corrected constructor, the widget positions exactly as
      `Positioned.directional` over its arguments, height included. */
  lemma PositionedDirectionalKeepsHeight(start: Option<real>, top: Option<real>, end: Option<real>,
                                         bottom: Option<real>, width: Option<real>, height: Option<real>,
                                         ambient: TextDirection)
    requires PositionedAdmits(start, top, end, bottom, width, height)
    ensures var w := MakePositionedDirectional(start, top, end, bottom, width, height);
            BuildPositionedDirectional(w, ambient) == Directional(Some(ambient), start, top, end, bottom, width, height) &&
            BuildPositionedDirectional(w, ambient).height == height
  {
  }

  // ---------------------------------------------------------------------------
  // Parent data

  /** `StackParentData`'s six positioning fields. */
  datatype StackParentData = StackParentData(left: Option<real>, top: Option<real>, right: Option<real>,
                                             bottom: Option<real>, width: Option<real>, height: Option<real>)

  datatype Applied<D> = Applied(data: D, needsLayout: bool)

  function AsStackData(p: Positioned): StackParentData {
    StackParentData(p.left, p.top, p.right, p.bottom, p.width, p.height)
  }

  /** `Positioned.applyParentData`: every field is copied, and the parent is
      asked to lay out again exactly when some field differed. */
  function ApplyPositioned(data: StackParentData, p: Positioned): (r: Applied<StackParentData>)
    ensures r.data == AsStackData(p)
    ensures r.needsLayout <==> data != AsStackData(p)
  {
    var changed := data.left != p.left || data.top != p.top || data.right != p.right ||
                   data.bottom != p.bottom || data.width != p.width || data.height != p.height;
    Applied(AsStackData(p), changed)
  }

  /** Applying the same widget again asks for no layout. */
  lemma ApplyPositionedIdempotent(data: StackParentData, p: Positioned)
    ensures ApplyPositioned(ApplyPositioned(data, p).data, p) == Applied(ApplyPositioned(data, p).data, false)
  {
  }

  datatype FlexFit = Tight | Loose

  datatype FlexParentData = FlexParentData(flex: int, fit: FlexFit)

  /** `Flexible.applyParentData`: flex and fit are copied; layout is asked
      for exactly when either differed. */
  function ApplyFlexible(data: FlexParentData, flex: int, fit: FlexFit): (r: Applied<FlexParentData>)
    ensures r.data == FlexParentData(flex, fit)
    ensures r.needsLayout <==> data.flex != flex || data.fit != fit
  {
    var changed := data.flex != flex || data.fit != fit;
    Applied(FlexParentData(flex, fit), changed)
  }

  /** Applying the same widget again asks for no layout. */
  lemma ApplyFlexibleIdempotent(data: FlexParentData, flex: int, fit: FlexFit)
    ensures ApplyFlexible(ApplyFlexible(data, flex, fit).data, flex, fit).needsLayout == false
  {
  }

  // ---------------------------------------------------------------------------
  // Flex text direction

  datatype Axis = Horizontal | Vertical
  datatype CrossAxisAlignment = CrossStart | CrossEnd | CrossCenter | CrossStretch | CrossBaseline

  /** `Flex._needTextDirection`: always for a row; for a column only when
      the cross alignment is start or end. */
  function NeedTextDirection(direction: Axis, cross: CrossAxisAlignment): (r: bool)
    ensures r <==> direction == Horizontal || cross in {CrossStart, CrossEnd}
  {
    match direction
    case Horizontal => true
    case Vertical => cross == CrossStart || cross == CrossEnd
  }

  /** `Flex.getEffectiveTextDirection`: the widget's own direction, else the
      ambient one when a direction is needed, else left-to-right. */
  function EffectiveTextDirection(textDirection: Option<TextDirection>, direction: Axis,
                                  cross: CrossAxisAlignment, ambient: TextDirection): (r: TextDirection)
    ensures textDirection.Some? ==> r == textDirection.value
    ensures textDirection.None? && NeedTextDirection(direction, cross) ==> r == ambient
    ensures textDirection.None? && !NeedTextDirection(direction, cross) ==> r == Ltr
  {
    if textDirection.Some? then textDirection.value
    else if NeedTextDirection(direction, cross) then ambient
    else Ltr
  }

  /** A column centred on its cross axis ignores the ambient direction. */
  lemma CenteredColumnIgnoresAmbient(cross: CrossAxisAlignment, a: TextDirection, b: TextDirection)
    requires cross !in {CrossStart, CrossEnd}
    ensures EffectiveTextDirection(None, Vertical, cross, a) == EffectiveTextDirection(None, Vertical, cross, b) == Ltr
  {
  }

  // ---------------------------------------------------------------------------
  // IntrinsicWidth

  /** `IntrinsicWidth._stepWidth`/`_stepHeight`: a zero step means none. */
  function EffectiveStep(step: Option<real>): (r: Option<real>)
    ensures r.Some? ==> r.value != 0.0 && step == r
    ensures r.None? <==> step.None? || step == Some(0.0)
  {
    if step == Some(0.0) then None else step
  }

  /** A non-negative step becomes one the render object can apply: absent or
      strictly positive. */
  lemma EffectiveStepIsPositive(step: Option<real>)
    requires step.Some? ==> step.value >= 0.0
    ensures EffectiveStep(step).Some? ==> EffectiveStep(step).value > 0.0
  {
  }

  // ---------------------------------------------------------------------------
  // Key wrapping

  /** The key a wrapper gets: a value key around the child's key, or around
      the child's index. */
  datatype WrapperKey = OfChildKey(key: nat) | OfIndex(index: int)

  /** `RepaintBoundary.wrap` and `KeyedSubtree.wrap`. */
  function WrapKey(childKey: Option<nat>, index: int): (k: WrapperKey)
    ensures childKey.Some? ==> k == OfChildKey(childKey.value)
    ensures childKey.None? ==> k == OfIndex(index)
  {
    if childKey.Some? then OfChildKey(childKey.value) else OfIndex(index)
  }

  /** The keys of a wrapped list: one per child, the child at list index
      `i` wrapped with index `base + i`. */
  function WrapAllFrom(childKeys: seq<Option<nat>>, base: int): (r: seq<WrapperKey>)
    ensures |r| == |childKeys|
    ensures forall i | 0 <= i < |r| :: r[i] == WrapKey(childKeys[i], base + i)
    decreases |childKeys|
  {
    if childKeys == [] then [] else [WrapKey(childKeys[0], base)] + WrapAllFrom(childKeys[1..], base + 1)
  }

  /** `RepaintBoundary.wrapAll`: indices from 0. */
  function WrapAll(childKeys: seq<Option<nat>>): (r: seq<WrapperKey>)
    ensures |r| == |childKeys| && forall i | 0 <= i < |r| :: r[i] == WrapKey(childKeys[i], i)
  {
    WrapAllFrom(childKeys, 0)
  }

  /** `KeyedSubtree.ensureUniqueKeysForList`: nothing for no list, else the
      wrapped list numbered from `baseIndex`. */
  function EnsureUniqueKeysForList(items: Option<seq<Option<nat>>>, baseIndex: int): (r: Option<seq<WrapperKey>>)
    ensures items.None? <==> r.None?
    ensures items.Some? ==> |r.value| == |items.value|
    ensures items.Some? ==> forall i | 0 <= i < |r.value| :: r.value[i] == WrapKey(items.value[i], baseIndex + i)
  {
    if items.None? then None else Some(WrapAllFrom(items.value, baseIndex))
  }

  predicate DistinctKeys<K(==)>(ks: seq<K>) {
    forall i, j | 0 <= i < j < |ks| :: ks[i] != ks[j]
  }

  /** Children whose present keys are distinct get distinct wrapper keys:
      keyed children keep their keys apart and unkeyed ones are told apart
      by index. */
  lemma WrappedKeysAreUnique(childKeys: seq<Option<nat>>, base: int)
    requires forall i, j | 0 <= i < j < |childKeys| && childKeys[i].Some? :: childKeys[i] != childKeys[j]
    ensures DistinctKeys(WrapAllFrom(childKeys, base))
  {
    var r := WrapAllFrom(childKeys, base);
    forall i, j | 0 <= i < j < |r| ensures r[i] != r[j] {
      assert r[i] == WrapKey(childKeys[i], base + i) && r[j] == WrapKey(childKeys[j], base + j);
    }
  }

  // ---------------------------------------------------------------------------
  // LayoutUtils

  datatype AxisDirection = Up | Right | Down | Left

  /** `AxisUtils.textDirectionToAxisDirection` (left-to-right reads right). */
  function TextDirectionToAxisDirection(d: TextDirection): AxisDirection {
    if d == Ltr then Right else Left
  }

  /** `AxisUtils.flipAxisDirection`. */
  function FlipAxisDirection(d: AxisDirection): (r: AxisDirection)
    ensures r != d && AxisOf(r) == AxisOf(d)
  {
    match d
    case Up => Down
    case Down => Up
    case Left => Right
    case Right => Left
  }

  function AxisOf(d: AxisDirection): Axis {
    if d in {Up, Down} then Vertical else Horizontal
  }

  /** `LayoutUtils.getAxisDirectionFromAxisReverseAndDirectionality`: a
      vertical axis reads down (up when reversed); a horizontal one follows
      the ambient text direction, flipped when reversed. */
  function AxisDirectionFrom(axis: Axis, reverse: bool, ambient: TextDirection): (r: AxisDirection)
    ensures AxisOf(r) == axis
    ensures axis == Vertical ==> r == (if reverse then Up else Down)
    ensures axis == Horizontal && !reverse ==> r == TextDirectionToAxisDirection(ambient)
  {
    match axis
    case Horizontal =>
      var d := TextDirectionToAxisDirection(ambient);
      if reverse then FlipAxisDirection(d) else d
    case Vertical => if reverse then Up else Down
  }

  /** A text direction names a horizontal axis direction, the two
      directions name opposite ones, and right-to-left reads left. */
  lemma TextDirectionAxisMirrors(d: TextDirection)
    ensures AxisOf(TextDirectionToAxisDirection(d)) == Horizontal
    ensures TextDirectionToAxisDirection(Rtl) == FlipAxisDirection(TextDirectionToAxisDirection(Ltr))
    ensures TextDirectionToAxisDirection(d) == Right <==> d == Ltr
  {
  }

  /** Flipping twice is the identity. */
  lemma FlipIsInvolution(d: AxisDirection)
    ensures FlipAxisDirection(FlipAxisDirection(d)) == d
  {
  }

  /** Reversing flips the direction on either axis. */
  lemma ReverseFlipsAxisDirection(axis: Axis, reverse: bool, ambient: TextDirection)
    ensures AxisDirectionFrom(axis, !reverse, ambient) == FlipAxisDirection(AxisDirectionFrom(axis, reverse, ambient))
  {
  }
}
