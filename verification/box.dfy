/** Box constraints (rendering/box.cs): four bounds on width and height, over
    the reals extended with +infinity, and the interval operations on them.
    NaN bounds are not modelled. */
module Box {
  import opened Wrappers

  /** A bound or a length: a finite real or +infinity (`float.PositiveInfinity`). */
  datatype Ext = Fin(r: real) | Inf

  predicate Le(a: Ext, b: Ext) {
    b.Inf? || (a.Fin? && a.r <= b.r)
  }

  predicate Lt(a: Ext, b: Ext) { !Le(b, a) }

  function Zero(): Ext { Fin(0.0) }

  function Max(a: Ext, b: Ext): (m: Ext)
    ensures Le(a, m) && Le(b, m) && (m == a || m == b)
  {
    if Le(a, b) then b else a
  }

  /** `x - d` for a finite amount d: infinity stays infinite. */
  function Minus(a: Ext, d: real): (m: Ext)
    ensures m.Inf? <==> a.Inf?
  {
    if a.Inf? then Inf else Fin(a.r - d)
  }

  /** The `clamp(lo, hi)` extension used throughout: below lo gives lo, else
      above hi gives hi, else the value itself. */
  function Clamp(x: Ext, lo: Ext, hi: Ext): (r: Ext)
    ensures Le(lo, hi) ==> Le(lo, r) && Le(r, hi)
    ensures Le(lo, x) && Le(x, hi) ==> r == x
    ensures r == x || r == lo || r == hi
  {
    if Lt(x, lo) then lo else if Lt(hi, x) then hi else x
  }

  /** Clamping is monotone in the clamped value. */
  lemma ClampMonotone(x: Ext, y: Ext, lo: Ext, hi: Ext)
    requires Le(lo, hi) && Le(x, y)
    ensures Le(Clamp(x, lo, hi), Clamp(y, lo, hi))
  {
  }

  datatype Size = Size(width: Ext, height: Ext)

  datatype BoxConstraints = BoxConstraints(minWidth: Ext, maxWidth: Ext, minHeight: Ext, maxHeight: Ext)

  /** The constructor's defaults: 0 to infinity on both axes. */
  function Unconstrained(): BoxConstraints { BoxConstraints(Zero(), Inf, Zero(), Inf) }

  predicate HasTightWidth(c: BoxConstraints) { Le(c.maxWidth, c.minWidth) }
  predicate HasTightHeight(c: BoxConstraints) { Le(c.maxHeight, c.minHeight) }
  predicate IsTight(c: BoxConstraints) { HasTightWidth(c) && HasTightHeight(c) }
  predicate HasBoundedWidth(c: BoxConstraints) { c.maxWidth.Fin? }
  predicate HasBoundedHeight(c: BoxConstraints) { c.maxHeight.Fin? }
  predicate HasInfiniteWidth(c: BoxConstraints) { c.minWidth.Inf? }
  predicate HasInfiniteHeight(c: BoxConstraints) { c.minHeight.Inf? }

  /** `isNormalized`: both minima non-negative and below their maxima. */
  predicate IsNormalized(c: BoxConstraints) {
    Le(Zero(), c.minWidth) && Le(c.minWidth, c.maxWidth) &&
    Le(Zero(), c.minHeight) && Le(c.minHeight, c.maxHeight)
  }

  /** `isSatisfiedBy`: the size lies within both ranges. */
  predicate IsSatisfiedBy(c: BoxConstraints, s: Size) {
    Le(c.minWidth, s.width) && Le(s.width, c.maxWidth) &&
    Le(c.minHeight, s.height) && Le(s.height, c.maxHeight)
  }

  /** `tight(size)`: exactly that size is allowed. */
  function Tight(s: Size): (c: BoxConstraints)
    ensures IsTight(c)
    ensures forall t: Size :: IsSatisfiedBy(c, t) <==> t == s
  {
    BoxConstraints(s.width, s.width, s.height, s.height)
  }

  /** `tightFor(width, height)`: tight on a given axis, 0 to infinity on an
      omitted one. */
  function TightFor(width: Option<real>, height: Option<real>): (c: BoxConstraints)
    ensures width.Some? ==> c.minWidth == c.maxWidth == Fin(width.value)
    ensures width.None? ==> c.minWidth == Zero() && c.maxWidth == Inf
    ensures height.Some? ==> c.minHeight == c.maxHeight == Fin(height.value)
    ensures height.None? ==> c.minHeight == Zero() && c.maxHeight == Inf
  {
    BoxConstraints(
      if width.Some? then Fin(width.value) else Zero(),
      if width.Some? then Fin(width.value) else Inf,
      if height.Some? then Fin(height.value) else Zero(),
      if height.Some? then Fin(height.value) else Inf)
  }

  /** `tightForFinite`: like `tightFor`, with infinity standing for "omitted". */
  function TightForFinite(width: Ext, height: Ext): (c: BoxConstraints)
    ensures c == TightFor(if width.Fin? then Some(width.r) else None,
                          if height.Fin? then Some(height.r) else None)
  {
    BoxConstraints(
      if width.Fin? then width else Zero(), width,
      if height.Fin? then height else Zero(), height)
  }

  /** `loose(size)`: anything from zero up to the size. */
  function Loose(s: Size): (c: BoxConstraints)
    ensures forall t: Size :: IsSatisfiedBy(c, t) <==>
      Le(Zero(), t.width) && Le(t.width, s.width) && Le(Zero(), t.height) && Le(t.height, s.height)
  {
    BoxConstraints(Zero(), s.width, Zero(), s.height)
  }

  /** `expand(width, height)`: tight at the given length, or at infinity. */
  function Expand(width: Option<real>, height: Option<real>): (c: BoxConstraints)
    ensures IsTight(c)
    ensures c.minWidth == (if width.Some? then Fin(width.value) else Inf)
    ensures c.minHeight == (if height.Some? then Fin(height.value) else Inf)
  {
    var w := if width.Some? then Fin(width.value) else Inf;
    var h := if height.Some? then Fin(height.value) else Inf;
    BoxConstraints(w, w, h, h)
  }

  /** `copyWith`: each bound replaced when given. */
  function CopyWith(c: BoxConstraints, minWidth: Option<Ext>, maxWidth: Option<Ext>,
                    minHeight: Option<Ext>, maxHeight: Option<Ext>): (r: BoxConstraints)
    ensures minWidth.None? && maxWidth.None? && minHeight.None? && maxHeight.None? ==> r == c
    ensures minWidth.Some? ==> r.minWidth == minWidth.value
    ensures maxWidth.Some? ==> r.maxWidth == maxWidth.value
    ensures minHeight.Some? ==> r.minHeight == minHeight.value
    ensures maxHeight.Some? ==> r.maxHeight == maxHeight.value
  {
    BoxConstraints(minWidth.GetOr(c.minWidth), maxWidth.GetOr(c.maxWidth),
                   minHeight.GetOr(c.minHeight), maxHeight.GetOr(c.maxHeight))
  }

  /** `deflate(edges)`: shrinks both ranges by the insets' total horizontal and
      vertical extent, never below zero and never leaving max below min. */
  function Deflate(c: BoxConstraints, horizontal: real, vertical: real): (r: BoxConstraints)
    requires IsNormalized(c)
    ensures IsNormalized(r)
    ensures r.maxWidth.Inf? <==> c.maxWidth.Inf?
    ensures r.maxHeight.Inf? <==> c.maxHeight.Inf?
  {
    var minW := Max(Zero(), Minus(c.minWidth, horizontal));
    var minH := Max(Zero(), Minus(c.minHeight, vertical));
    BoxConstraints(minW, Max(minW, Minus(c.maxWidth, horizontal)),
                   minH, Max(minH, Minus(c.maxHeight, vertical)))
  }

  /** `loosen`: minima dropped to zero, maxima kept. */
  function Loosen(c: BoxConstraints): (r: BoxConstraints)
    requires IsNormalized(c)
    ensures r.minWidth == Zero() && r.minHeight == Zero()
    ensures r.maxWidth == c.maxWidth && r.maxHeight == c.maxHeight
    ensures IsNormalized(r)
  {
    BoxConstraints(Zero(), c.maxWidth, Zero(), c.maxHeight)
  }

  /** Loosening only admits more sizes. */
  lemma LoosenAdmitsMore(c: BoxConstraints, s: Size)
    requires IsNormalized(c) && IsSatisfiedBy(c, s)
    ensures IsSatisfiedBy(Loosen(c), s)
  {
  }

  /** `enforce(d)`: every bound clamped into d's range on its axis. */
  function Enforce(c: BoxConstraints, d: BoxConstraints): (r: BoxConstraints)
    ensures Le(d.minWidth, d.maxWidth) ==>
      Le(d.minWidth, r.minWidth) && Le(r.minWidth, d.maxWidth) &&
      Le(d.minWidth, r.maxWidth) && Le(r.maxWidth, d.maxWidth)
    ensures Le(d.minHeight, d.maxHeight) ==>
      Le(d.minHeight, r.minHeight) && Le(r.minHeight, d.maxHeight) &&
      Le(d.minHeight, r.maxHeight) && Le(r.maxHeight, d.maxHeight)
  {
    BoxConstraints(
      Clamp(c.minWidth, d.minWidth, d.maxWidth), Clamp(c.maxWidth, d.minWidth, d.maxWidth),
      Clamp(c.minHeight, d.minHeight, d.maxHeight), Clamp(c.maxHeight, d.minHeight, d.maxHeight))
  }

  /** Enforcing normalized constraints on normalized ones keeps them
      normalized, and any size they then admit is admitted by both. */
  lemma EnforceNormalized(c: BoxConstraints, d: BoxConstraints, s: Size)
    requires IsNormalized(c) && IsNormalized(d)
    ensures IsNormalized(Enforce(c, d))
    ensures IsSatisfiedBy(Enforce(c, d), s) ==> IsSatisfiedBy(d, s)
  {
    ClampMonotone(c.minWidth, c.maxWidth, d.minWidth, d.maxWidth);
    ClampMonotone(c.minHeight, c.maxHeight, d.minHeight, d.maxHeight);
  }

  /** Constraints already inside d are left alone by `enforce(d)`. */
  lemma EnforceInside(c: BoxConstraints, d: BoxConstraints)
    requires Le(d.minWidth, c.minWidth) && Le(c.maxWidth, d.maxWidth) && Le(c.minWidth, c.maxWidth)
    requires Le(d.minHeight, c.minHeight) && Le(c.maxHeight, d.maxHeight) && Le(c.minHeight, c.maxHeight)
    ensures Enforce(c, d) == c
  {
  }

  /** `tighten(width, height)`: a given length, clamped into the current range,
      becomes both bounds on its axis; the other axis is untouched. */
  function Tighten(c: BoxConstraints, width: Option<Ext>, height: Option<Ext>): (r: BoxConstraints)
    ensures width.Some? ==> r.minWidth == r.maxWidth == Clamp(width.value, c.minWidth, c.maxWidth)
    ensures width.None? ==> r.minWidth == c.minWidth && r.maxWidth == c.maxWidth
    ensures height.Some? ==> r.minHeight == r.maxHeight == Clamp(height.value, c.minHeight, c.maxHeight)
    ensures height.None? ==> r.minHeight == c.minHeight && r.maxHeight == c.maxHeight
    ensures IsNormalized(c) ==> IsNormalized(r)
  {
    BoxConstraints(
      if width.None? then c.minWidth else Clamp(width.value, c.minWidth, c.maxWidth),
      if width.None? then c.maxWidth else Clamp(width.value, c.minWidth, c.maxWidth),
      if height.None? then c.minHeight else Clamp(height.value, c.minHeight, c.maxHeight),
      if height.None? then c.maxHeight else Clamp(height.value, c.minHeight, c.maxHeight))
  }

  /** `flipped`: the width and height ranges swapped. */
  function Flipped(c: BoxConstraints): (r: BoxConstraints)
    ensures forall s: Size :: IsSatisfiedBy(r, s) <==> IsSatisfiedBy(c, Size(s.height, s.width))
  {
    BoxConstraints(c.minHeight, c.maxHeight, c.minWidth, c.maxWidth)
  }

  lemma FlippedInvolution(c: BoxConstraints)
    ensures Flipped(Flipped(c)) == c
    ensures IsNormalized(Flipped(c)) <==> IsNormalized(c)
  {
  }

  /** `widthConstraints()`: the width range with the default height range. */
  function WidthConstraints(c: BoxConstraints): (r: BoxConstraints)
    ensures forall s: Size :: IsSatisfiedBy(r, s) <==>
      Le(c.minWidth, s.width) && Le(s.width, c.maxWidth) && Le(Zero(), s.height)
  {
    BoxConstraints(c.minWidth, c.maxWidth, Zero(), Inf)
  }

  function HeightConstraints(c: BoxConstraints): (r: BoxConstraints)
    ensures forall s: Size :: IsSatisfiedBy(r, s) <==>
      Le(c.minHeight, s.height) && Le(s.height, c.maxHeight) && Le(Zero(), s.width)
  {
    BoxConstraints(Zero(), Inf, c.minHeight, c.maxHeight)
  }

  /** `constrainWidth`: the nearest width the constraints allow. */
  function ConstrainWidth(c: BoxConstraints, width: Ext): (w: Ext)
    requires IsNormalized(c)
    ensures Le(c.minWidth, w) && Le(w, c.maxWidth)
    ensures Le(c.minWidth, width) && Le(width, c.maxWidth) ==> w == width
  {
    Clamp(width, c.minWidth, c.maxWidth)
  }

  function ConstrainHeight(c: BoxConstraints, height: Ext): (h: Ext)
    requires IsNormalized(c)
    ensures Le(c.minHeight, h) && Le(h, c.maxHeight)
    ensures Le(c.minHeight, height) && Le(height, c.maxHeight) ==> h == height
  {
    Clamp(height, c.minHeight, c.maxHeight)
  }

  /** `constrain(size)`: the result satisfies the constraints, and a size that
      already does is returned unchanged. */
  function Constrain(c: BoxConstraints, s: Size): (r: Size)
    requires IsNormalized(c)
    ensures IsSatisfiedBy(c, r)
    ensures IsSatisfiedBy(c, s) ==> r == s
  {
    Size(ConstrainWidth(c, s.width), ConstrainHeight(c, s.height))
  }

  lemma ConstrainIdempotent(c: BoxConstraints, s: Size)
    requires IsNormalized(c)
    ensures Constrain(c, Constrain(c, s)) == Constrain(c, s)
  {
  }

  /** `biggest` and `smallest`: the constrained infinite and zero sizes. */
  function Biggest(c: BoxConstraints): (s: Size)
    requires IsNormalized(c)
    ensures IsSatisfiedBy(c, s)
    ensures forall t: Size :: IsSatisfiedBy(c, t) ==> Le(t.width, s.width) && Le(t.height, s.height)
  {
    Constrain(c, Size(Inf, Inf))
  }

  function Smallest(c: BoxConstraints): (s: Size)
    requires IsNormalized(c)
    ensures IsSatisfiedBy(c, s)
    ensures forall t: Size :: IsSatisfiedBy(c, t) ==> Le(s.width, t.width) && Le(s.height, t.height)
  {
    Constrain(c, Size(Zero(), Zero()))
  }

  /** Tight constraints admit exactly one size, their smallest. */
  lemma TightAdmitsOnlySmallest(c: BoxConstraints, s: Size)
    requires IsNormalized(c) && IsTight(c)
    ensures IsSatisfiedBy(c, s) <==> s == Smallest(c)
  {
  }

  /** `normalize()`: the identity on normalized constraints; otherwise
      negative minima become zero and each max is raised to its min. */
  function Normalize(c: BoxConstraints): (r: BoxConstraints)
    ensures IsNormalized(r)
    ensures IsNormalized(c) ==> r == c
    ensures Le(Zero(), c.minWidth) ==> r.minWidth == c.minWidth
    ensures Le(Zero(), c.minHeight) ==> r.minHeight == c.minHeight
  {
    if IsNormalized(c) then c
    else
      var minW := if Le(Zero(), c.minWidth) then c.minWidth else Zero();
      var minH := if Le(Zero(), c.minHeight) then c.minHeight else Zero();
      BoxConstraints(minW, if Lt(c.maxWidth, minW) then minW else c.maxWidth,
                     minH, if Lt(c.maxHeight, minH) then minH else c.maxHeight)
  }

  lemma NormalizeIdempotent(c: BoxConstraints)
    ensures Normalize(Normalize(c)) == Normalize(c)
  {
  }

  // ---------------------------------------------------------------------------
  // constrainSizeAndAttemptToPreserveAspectRatio, on finite positive sizes.

  /** `x * f` and `x / f` for a positive finite factor. */
  function Scale(a: Ext, f: real): (m: Ext)
    requires f > 0.0
  {
    if a.Inf? then Inf else Fin(a.r * f)
  }

  /** The four adjustment steps: to maxWidth, maxHeight, minWidth, minHeight,
      each rescaling the other side by the aspect ratio. */
  function AspectSteps(c: BoxConstraints, width: Ext, height: Ext, aspect: real): Size
    requires aspect > 0.0
  {
    var (w1, h1) := if Lt(c.maxWidth, width) then (c.maxWidth, Scale(c.maxWidth, 1.0 / aspect)) else (width, height);
    var (w2, h2) := if Lt(c.maxHeight, h1) then (Scale(c.maxHeight, aspect), c.maxHeight) else (w1, h1);
    var (w3, h3) := if Lt(w2, c.minWidth) then (c.minWidth, Scale(c.minWidth, 1.0 / aspect)) else (w2, h2);
    var (w4, h4) := if Lt(h3, c.minHeight) then (Scale(c.minHeight, aspect), c.minHeight) else (w3, h3);
    Size(w4, h4)
  }

  /** `constrainSizeAndAttemptToPreserveAspectRatio`: tight constraints give
      their smallest size; otherwise the size is rescaled step by step and
      finally constrained, so the result always satisfies the constraints. */
  function ConstrainPreservingAspect(c: BoxConstraints, width: real, height: real): (r: Size)
    requires IsNormalized(c) && width > 0.0 && height > 0.0
    ensures IsSatisfiedBy(c, r)
    ensures IsTight(c) ==> r == Smallest(c)
    ensures IsSatisfiedBy(c, Size(Fin(width), Fin(height))) ==> r == Size(Fin(width), Fin(height))
  {
    if IsTight(c) then Smallest(c)
    else Constrain(c, AspectSteps(c, Fin(width), Fin(height), width / height))
  }
}
