/** Proxy boxes (rendering/proxy_box.cs): the hit-test rules of the behaviour,
    ignore, absorb and offstage boxes, the limited box's constraints, the
    intrinsic width step, the opacity box's compositing rule and the custom
    clipper's reclip rule. */
module ProxyBox {
  import opened Wrappers
  import opened Box

  type RenderId = nat

  /** What a `hitTest` call answers and which entries it appends to the
      result, in order. */
  datatype Probe = Probe(hit: bool, added: seq<RenderId>)

  /** Nothing hit and nothing recorded. */
  function Miss(): Probe { Probe(false, []) }

  /** `RenderBox.hitTest`: inside its size, a box that hits through a child or
      itself records itself after the children's entries. */
  function BoxHitTest(me: RenderId, inside: bool, children: Probe, self: bool): (r: Probe)
    ensures r.hit <==> inside && (children.hit || self)
    ensures !inside ==> r == Miss()
    ensures inside ==> |children.added| <= |r.added| && r.added[..|children.added|] == children.added
    ensures r.hit ==> |r.added| > 0 && r.added[|r.added| - 1] == me
  {
    if inside then
      if children.hit || self then Probe(true, children.added + [me]) else children
    else Miss()
  }

  datatype HitTestBehavior = DeferToChild | Opaque | Translucent

  /** `hitTestSelf` of a behaviour box. */
  function BehaviorHitTestSelf(behavior: HitTestBehavior): (r: bool)
    ensures r <==> behavior == Opaque
  {
    behavior.Opaque?
  }

  /** `RenderProxyBoxWithHitTestBehavior.hitTest`: no hit outside the size;
      inside, the box hits through its child or when opaque, and records
      itself when it hits or is translucent. */
  function BehaviorHitTest(me: RenderId, behavior: HitTestBehavior, inside: bool, child: Probe): (r: Probe)
    ensures !inside ==> r == Miss()
    ensures r.hit <==> inside && (child.hit || behavior == Opaque)
    ensures inside ==> |child.added| <= |r.added| && r.added[..|child.added|] == child.added
    ensures inside ==> (|r.added| == |child.added| + 1 <==> r.hit || behavior == Translucent)
    ensures |r.added| > |child.added| ==> r.added[|r.added| - 1] == me
  {
    if inside then
      var hitTarget := child.hit || BehaviorHitTestSelf(behavior);
      Probe(hitTarget, if hitTarget || behavior == Translucent then child.added + [me] else child.added)
    else Miss()
  }

  /** A translucent box reports the same hit as one that defers to its child,
      but always records itself when the position is inside. */
  lemma TranslucentDiffersOnlyInRecording(me: RenderId, inside: bool, child: Probe)
    ensures BehaviorHitTest(me, Translucent, inside, child).hit == BehaviorHitTest(me, DeferToChild, inside, child).hit
    ensures inside ==> BehaviorHitTest(me, Translucent, inside, child).added == child.added + [me]
  {
  }

  /** An opaque or deferring box records itself exactly as a plain box with
      the same `hitTestSelf` does. */
  lemma BehaviorRefinesBoxHitTest(me: RenderId, behavior: HitTestBehavior, inside: bool, child: Probe)
    requires behavior != Translucent
    ensures BehaviorHitTest(me, behavior, inside, child) == BoxHitTest(me, inside, child, BehaviorHitTestSelf(behavior))
  {
  }

  /** `RenderIgnorePointer.hitTest`: an ignoring box never hits and does not
      even ask its child. */
  function IgnorePointerHitTest(me: RenderId, ignoring: bool, inside: bool, child: Probe): (r: Probe)
    ensures ignoring ==> r == Miss()
    ensures !ignoring ==> r == BoxHitTest(me, inside, child, false)
  {
    if ignoring then Miss() else BoxHitTest(me, inside, child, false)
  }

  /** `RenderAbsorbPointer.hitTest`: an absorbing box answers whether the
      position is inside without recursing or recording anything. */
  function AbsorbPointerHitTest(me: RenderId, absorbing: bool, inside: bool, child: Probe): (r: Probe)
    ensures absorbing ==> r.hit == inside && r.added == []
    ensures !absorbing ==> r == BoxHitTest(me, inside, child, false)
  {
    if absorbing then Probe(inside, []) else BoxHitTest(me, inside, child, false)
  }

  /** What a proxy box answers on behalf of its child: the four intrinsic
      dimensions, the baseline, whether it is sized by its parent, its hit
      test, and whether it paints. */
  datatype ProxyAnswers = ProxyAnswers(minIntrinsicWidth: real, maxIntrinsicWidth: real,
                                       minIntrinsicHeight: real, maxIntrinsicHeight: real,
                                       baseline: Option<real>, sizedByParent: bool,
                                       hitTest: Probe, paints: bool)

  /** `RenderOffstage`: while offstage, zero intrinsics, no baseline, sized by
      its parent, no hit and no painting; otherwise exactly the proxy's
      answers (a plain proxy box is not sized by its parent). */
  function Offstage(offstage: bool, proxy: ProxyAnswers): (r: ProxyAnswers)
    requires !proxy.sizedByParent
    ensures offstage ==> r.minIntrinsicWidth == 0.0 && r.maxIntrinsicWidth == 0.0 &&
                         r.minIntrinsicHeight == 0.0 && r.maxIntrinsicHeight == 0.0
    ensures offstage ==> r.baseline.None? && r.sizedByParent && !r.hitTest.hit && r.hitTest.added == [] && !r.paints
    ensures !offstage ==> r == proxy
    ensures r.sizedByParent <==> offstage
  {
    if offstage then ProxyAnswers(0.0, 0.0, 0.0, 0.0, None, true, Miss(), false)
    else proxy
  }

  /** `RenderOffstage.performResize`: an offstage box takes the smallest size
      its constraints allow. */
  function OffstageSize(c: BoxConstraints): (s: Size)
    requires IsNormalized(c)
    ensures IsSatisfiedBy(c, s)
    ensures forall t: Size :: IsSatisfiedBy(c, t) ==> Le(s.width, t.width) && Le(s.height, t.height)
  {
    Smallest(c)
  }

  /** `RenderLimitedBox._limitConstraints`: minima are kept, a bounded maximum
      is kept, and an unbounded one is replaced by the limit clamped into the
      constraints. */
  function LimitConstraints(c: BoxConstraints, maxWidth: Ext, maxHeight: Ext): (r: BoxConstraints)
    requires IsNormalized(c)
    ensures r.minWidth == c.minWidth && r.minHeight == c.minHeight
    ensures HasBoundedWidth(c) ==> r.maxWidth == c.maxWidth
    ensures HasBoundedHeight(c) ==> r.maxHeight == c.maxHeight
    ensures !HasBoundedWidth(c) && Le(c.minWidth, maxWidth) ==> r.maxWidth == maxWidth
    ensures !HasBoundedHeight(c) && Le(c.minHeight, maxHeight) ==> r.maxHeight == maxHeight
    ensures !HasBoundedWidth(c) && Lt(maxWidth, c.minWidth) ==> r.maxWidth == c.minWidth
    ensures !HasBoundedHeight(c) && Lt(maxHeight, c.minHeight) ==> r.maxHeight == c.minHeight
    ensures IsNormalized(r)
  {
    BoxConstraints(c.minWidth,
                   if HasBoundedWidth(c) then c.maxWidth else ConstrainWidth(c, maxWidth),
                   c.minHeight,
                   if HasBoundedHeight(c) then c.maxHeight else ConstrainHeight(c, maxHeight))
  }

  /** The limited constraints only ever narrow what the incoming ones admit. */
  lemma LimitConstraintsNarrows(c: BoxConstraints, maxWidth: Ext, maxHeight: Ext, s: Size)
    requires IsNormalized(c) && IsSatisfiedBy(LimitConstraints(c, maxWidth, maxHeight), s)
    ensures IsSatisfiedBy(c, s)
  {
  }

  /** The least integer not below x (`ceil`). */
  function Ceil(x: real): (n: int)
    ensures x <= n as real < x + 1.0
  {
    -((-x).Floor)
  }

  lemma MulMonotone(a: real, b: real, c: real)
    requires a <= b && c > 0.0
    ensures a * c <= b * c
  {
  }

  lemma MulStrictMonotone(a: real, b: real, c: real)
    requires a < b && c > 0.0
    ensures a * c < b * c
  {
  }

  /** `RenderIntrinsicWidth._applyStep`: without a step the input itself;
      otherwise the least multiple of the (positive) step not below it. */
  function ApplyStep(input: real, step: Option<real>): (r: real)
    requires step.Some? ==> step.value > 0.0
    ensures step.None? ==> r == input
    ensures step.Some? ==> input <= r < input + step.value
    ensures step.Some? ==> (r / step.value).Floor as real == r / step.value
  {
    if step.None? then input
    else
      var k := Ceil(input / step.value);
      StepBounds(input, step.value, k);
      k as real * step.value
  }

  /** k steps, for k the ceiling of input / step, reach input but not one
      step beyond it. */
  lemma StepBounds(input: real, step: real, k: int)
    requires step > 0.0 && input / step <= k as real < input / step + 1.0
    ensures input <= (k as real) * step && (k as real) * step < input + step
    ensures ((k as real) * step) / step == k as real
  {
    var q := input / step;
    MulMonotone(q, k as real, step);
    MulStrictMonotone(k as real, q + 1.0, step);
    assert q * step == input;
    assert (q + 1.0) * step == q * step + step;
    assert (k as real) * step < (q + 1.0) * step;
    assert (k as real) * step < input + step;
  }

  /** Stepping is idempotent: a multiple of the step is already a step. */
  lemma ApplyStepIdempotent(input: real, step: real)
    requires step > 0.0
    ensures ApplyStep(ApplyStep(input, Some(step)), Some(step)) == ApplyStep(input, Some(step))
  {
    var r := ApplyStep(input, Some(step));
    var k := (r / step).Floor;
    assert Ceil(r / step) == k;
    assert r / step * step == r;
  }

  /** `RenderOpacity.alwaysNeedsCompositing` for an alpha in 0..255: only a
      partially transparent child needs its own layer. */
  function OpacityNeedsCompositing(hasChild: bool, alpha: int): (r: bool)
    requires 0 <= alpha <= 255
    ensures r <==> hasChild && 0 < alpha < 255
  {
    hasChild && alpha != 0 && alpha != 255
  }

  /** The marks an opacity change requests: compositing bits and paint. */
  datatype OpacityMarks = OpacityMarks(compositingBits: bool, paint: bool)

  /** The `opacity` setter: nothing for an unchanged opacity; otherwise a
      repaint, and a compositing-bits update exactly when the compositing need
      flips. */
  function SetOpacity(hasChild: bool, opacity: real, alpha: int, newOpacity: real, newAlpha: int): (r: OpacityMarks)
    requires 0 <= alpha <= 255 && 0 <= newAlpha <= 255
    ensures opacity == newOpacity ==> r == OpacityMarks(false, false)
    ensures opacity != newOpacity ==> r.paint
    ensures r.compositingBits ==> hasChild && opacity != newOpacity
    ensures hasChild && opacity != newOpacity ==>
      (r.compositingBits <==> (0 < alpha < 255) != (0 < newAlpha < 255))
  {
    if opacity == newOpacity then OpacityMarks(false, false)
    else OpacityMarks(OpacityNeedsCompositing(hasChild, alpha) != OpacityNeedsCompositing(hasChild, newAlpha), true)
  }

  /** A custom clipper: its runtime type and identity. */
  datatype Clipper = Clipper(typeId: nat, id: nat)

  /** The `clipper` setter on `_RenderCustomClip`: an identical clipper does
      nothing; otherwise the clip is marked dirty when one side is missing,
      the types differ, or the new clipper asks to reclip against the prior
      one (`reclip`). */
  function ClipperNeedsReclip(prior: Option<Clipper>, next: Option<Clipper>, reclip: bool): (r: bool)
    ensures prior == next ==> !r
    ensures prior != next && (prior.None? || next.None?) ==> r
    ensures prior.Some? && next.Some? && prior != next ==>
      (r <==> prior.value.typeId != next.value.typeId || reclip)
  {
    if prior == next then false
    else next.None? || prior.None? || next.value.typeId != prior.value.typeId || reclip
  }
}
