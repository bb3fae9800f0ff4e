/** Viewports (rendering/viewport.cs): the order in which a viewport paints
    and hit-tests its slivers around the center sliver, the index and label
    of its children, the scroll offset of a child, and the out-of-band scroll
    extents gathered during layout.

    Slivers are named by their index in the child list (0 = first child);
    `childAfter` and `childBefore` are index plus and minus one. */
module Viewport {
  import opened Wrappers

  /** The indices lo, lo+1, ..., hi-1. */
  function Ascending(lo: int, hi: int): (r: seq<int>)
    requires lo <= hi
    ensures |r| == hi - lo
    ensures forall k | 0 <= k < |r| :: r[k] == lo + k
    decreases hi - lo
  {
    if lo == hi then [] else [lo] + Ascending(lo + 1, hi)
  }

  /** The indices hi-1, hi-2, ..., lo. */
  function Descending(lo: int, hi: int): (r: seq<int>)
    requires lo <= hi
    ensures |r| == hi - lo
    ensures forall k | 0 <= k < |r| :: r[k] == hi - 1 - k
    decreases hi - lo
  {
    if lo == hi then [] else [hi - 1] + Descending(lo, hi - 1)
  }

  function Reversed(s: seq<int>): (r: seq<int>)
    ensures |r| == |s|
    ensures forall k | 0 <= k < |s| :: r[k] == s[|s| - 1 - k]
  {
    if s == [] then [] else Reversed(s[1..]) + [s[0]]
  }

  lemma AscendingStep(lo: int, hi: int)
    requires lo <= hi
    ensures Ascending(lo, hi) + [hi] == Ascending(lo, hi + 1)
  {
  }

  lemma DescendingStep(lo: int, hi: int)
    requires lo < hi
    ensures Descending(lo + 1, hi) + [lo] == Descending(lo, hi)
  {
  }

  lemma AppendAssoc(a: seq<int>, b: seq<int>, x: int)
    ensures a + b + [x] == a + (b + [x])
  {
  }

  /** Every child index of an n-child list exactly once. */
  predicate IsOrderOf(r: seq<int>, n: nat) {
    |r| == n &&
    (forall k | 0 <= k < |r| :: 0 <= r[k] < n) &&
    (forall k, l | 0 <= k < l < |r| :: r[k] != r[l])
  }

  /** `childrenInPaintOrder`: the children before the center, first to last,
      then from the last child back down to the center. */
  method ChildrenInPaintOrder(n: nat, center: nat) returns (order: seq<int>)
    requires n == 0 || center < n
    ensures n > 0 ==> order == Ascending(0, center) + Descending(center, n)
    ensures n == 0 ==> order == []
    ensures IsOrderOf(order, n)
  {
    order := [];
    if n == 0 {
      return;
    }
    var child := 0;
    while child != center
      invariant 0 <= child <= center
      invariant order == Ascending(0, child)
    {
      AscendingStep(0, child);
      order := order + [child];
      child := child + 1;
    }
    child := n - 1;
    while true
      invariant center <= child < n
      invariant order == Ascending(0, center) + Descending(child + 1, n)
      decreases child
    {
      DescendingStep(child, n);
      AppendAssoc(Ascending(0, center), Descending(child + 1, n), child);
      order := order + [child];
      if child == center {
        return;
      }
      child := child - 1;
    }
  }

  /** `childrenInHitTestOrder`: the center and every child after it, then the
      children before the center from nearest to first. */
  method ChildrenInHitTestOrder(n: nat, center: nat) returns (order: seq<int>)
    requires n == 0 || center < n
    ensures n > 0 ==> order == Ascending(center, n) + Descending(0, center)
    ensures n == 0 ==> order == []
  {
    order := [];
    if n == 0 {
      return;
    }
    var child := center;
    while child < n
      invariant center <= child <= n
      invariant order == Ascending(center, child)
    {
      AscendingStep(center, child);
      order := order + [child];
      child := child + 1;
    }
    child := center - 1;
    while child >= 0
      invariant -1 <= child < center
      invariant order == Ascending(center, n) + Descending(child + 1, center)
      decreases child
    {
      DescendingStep(child, center);
      AppendAssoc(Ascending(center, n), Descending(child + 1, center), child);
      order := order + [child];
      child := child - 1;
    }
  }

  /** A viewport hit-tests its slivers in exactly the reverse of its paint
      order, so the sliver painted on top is asked first. */
  lemma HitTestOrderReversesPaintOrder(n: nat, center: nat)
    requires center < n
    ensures Ascending(center, n) + Descending(0, center) == Reversed(Ascending(0, center) + Descending(center, n))
  {
    var p := Ascending(0, center) + Descending(center, n);
    var h := Ascending(center, n) + Descending(0, center);
    var rp := Reversed(p);
    forall k | 0 <= k < n ensures h[k] == rp[k] {
      if k < n - center {
        assert h[k] == center + k;
        assert p[n - 1 - k] == Descending(center, n)[n - 1 - k - center];
      } else {
        assert h[k] == Descending(0, center)[k - (n - center)];
        assert p[n - 1 - k] == Ascending(0, center)[n - 1 - k];
      }
    }
  }

  /** `indexOfFirstChild`: walking back from the center to the first child,
      one step per child, gives minus the number of children before the
      center. */
  method IndexOfFirstChild(center: nat) returns (count: int)
    ensures count == -(center as int)
  {
    count := 0;
    var child := center;
    while child != 0
      invariant 0 <= child <= center
      invariant count == child - center
    {
      count := count - 1;
      child := child - 1;
    }
  }

  /** Decimal digits of a natural number. */
  function Digits(n: nat): (r: string)
    ensures |r| > 0
    ensures forall k | 0 <= k < |r| :: '0' <= r[k] <= '9'
  {
    if n < 10 then [(48 + n) as char] else Digits(n / 10) + [(48 + n % 10) as char]
  }

  /** `int.ToString()`. */
  function IntToString(i: int): (r: string)
    ensures |r| > 0
    ensures r[0] == '-' <==> i < 0
  {
    if i < 0 then "-" + Digits(-i) else Digits(i)
  }

  /** The number a string of decimal digits spells. */
  function DigitsValue(s: string): nat
    requires forall k | 0 <= k < |s| :: '0' <= s[k] <= '9'
  {
    if s == [] then 0 else 10 * DigitsValue(s[..|s| - 1]) + (s[|s| - 1] as int - 48)
  }

  /** Reading the digits back gives the number. */
  lemma {:induction false} DigitsReadBack(n: nat)
    ensures DigitsValue(Digits(n)) == n
  {
    if n >= 10 {
      var d := Digits(n);
      assert d[..|d| - 1] == Digits(n / 10);
      DigitsReadBack(n / 10);
    }
  }

  /** The number `IntToString` spells: an optional minus sign, then digits. */
  function ParseInt(s: string): int
    requires |s| > 0 && forall k | (if s[0] == '-' then 1 else 0) <= k < |s| :: '0' <= s[k] <= '9'
  {
    if s[0] == '-' then -(DigitsValue(s[1..]) as int) else DigitsValue(s)
  }

  /** The text of an integer reads back as that integer, so distinct
      integers have distinct texts. */
  lemma IntToStringReadBack(i: int)
    ensures ParseInt(IntToString(i)) == i
    ensures forall j: int :: IntToString(j) == IntToString(i) ==> j == i
  {
    forall j: int | true ensures ParseInt(IntToString(j)) == j {
      if j < 0 {
        DigitsReadBack(-j);
        assert IntToString(j)[1..] == Digits(-j);
      } else {
        DigitsReadBack(j);
      }
    }
  }

  /** `labelForChild`: the center child has its own label; every other child
      is "child " and its index. */
  function LabelForChild(index: int): (r: string)
    ensures index == 0 <==> r == "center child"
    ensures index != 0 ==> |r| > 6 && r[..6] == "child " && r[6..] == IntToString(index)
  {
    if index == 0 then "center child"
    else
      var r := "child " + IntToString(index);
      assert r[1] != "center child"[1];
      r
  }

  /** The shrink-wrapping viewport's `labelForChild`. */
  function ShrinkWrappingLabelForChild(index: int): (r: string)
    ensures |r| > 6 && r[..6] == "child " && r[6..] == IntToString(index)
  {
    "child " + IntToString(index)
  }

  /** The viewport constructor: without an explicit center the first child
      (if any) becomes the center. */
  function DefaultCenter(center: Option<nat>, n: nat): (r: Option<nat>)
    ensures center.Some? ==> r == center
    ensures center.None? ==> (r.Some? <==> n > 0) && (r.Some? ==> r.value == 0)
  {
    if center.None? && n > 0 then Some(0) else center
  }

  /** The shrink-wrapping viewport paints first to last and hit-tests last
      to first. */
  method ShrinkWrappingOrders(n: nat) returns (paint: seq<int>, hitTest: seq<int>)
    ensures paint == Ascending(0, n) && hitTest == Descending(0, n)
    ensures hitTest == Reversed(paint)
    ensures IsOrderOf(paint, n)
  {
    paint := [];
    var child := 0;
    while child < n
      invariant 0 <= child <= n && paint == Ascending(0, child)
    {
      paint := paint + [child];
      child := child + 1;
      assert paint == Ascending(0, child);
    }
    hitTest := [];
    child := n - 1;
    while child >= 0
      invariant -1 <= child < n && hitTest == Descending(child + 1, n)
      decreases child
    {
      hitTest := hitTest + [child];
      child := child - 1;
    }
  }

  // ---------------------------------------------------------------------------
  // Scroll offsets

  datatype GrowthDirection = Forward | Reverse

  /** The growth direction the viewport gives a sliver: forward from the
      center on, reverse before it. */
  function GrowthOf(index: nat, center: nat): GrowthDirection {
    if index >= center then Forward else Reverse
  }

  /** The sum of extents[lo..hi]. */
  function Sum(extents: seq<real>, lo: nat, hi: nat): real
    requires lo <= hi <= |extents|
    decreases hi - lo
  {
    if lo == hi then 0.0 else extents[lo] + Sum(extents, lo + 1, hi)
  }

  lemma {:induction false} SumSplit(extents: seq<real>, lo: nat, mid: nat, hi: nat)
    requires lo <= mid <= hi <= |extents|
    ensures Sum(extents, lo, hi) == Sum(extents, lo, mid) + Sum(extents, mid, hi)
    decreases mid - lo
  {
    if lo < mid {
      SumSplit(extents, lo + 1, mid, hi);
    }
  }

  /** `RenderViewport.scrollOffsetOf`: a forward sliver is reached by adding
      the scroll extents from the center up to it; a reverse one by
      subtracting those from just before the center down to just after it. */
  method ScrollOffsetOf(extents: seq<real>, center: nat, child: nat, within: real) returns (offset: real)
    requires center < |extents| && child < |extents|
    ensures child >= center ==> offset == Sum(extents, center, child) + within
    ensures child < center ==> offset == -Sum(extents, child + 1, center) - within
  {
    if GrowthOf(child, center) == Forward {
      var toChild := 0.0;
      var current := center;
      while current != child
        invariant center <= current <= child
        invariant toChild == Sum(extents, center, current)
      {
        SumSplit(extents, center, current, current + 1);
        toChild := toChild + extents[current];
        current := current + 1;
      }
      offset := toChild + within;
    } else {
      var toChild := 0.0;
      var current := center - 1;
      while current != child
        invariant child <= current < center
        invariant toChild == -Sum(extents, current + 1, center)
      {
        SumSplit(extents, current, current + 1, center);
        toChild := toChild - extents[current];
        current := current - 1;
      }
      offset := toChild - within;
    }
  }

  /** With non-negative extents, forward slivers further from the center sit
      at larger scroll offsets. */
  lemma ForwardOffsetsAscend(extents: seq<real>, center: nat, a: nat, b: nat)
    requires center <= a <= b <= |extents|
    requires forall k | 0 <= k < |extents| :: extents[k] >= 0.0
    ensures Sum(extents, center, a) <= Sum(extents, center, b)
  {
    SumSplit(extents, center, a, b);
    SumNonNegative(extents, a, b);
  }

  lemma {:induction false} SumNonNegative(extents: seq<real>, lo: nat, hi: nat)
    requires lo <= hi <= |extents|
    requires forall k | 0 <= k < |extents| :: extents[k] >= 0.0
    ensures Sum(extents, lo, hi) >= 0.0
    decreases hi - lo
  {
    if lo < hi {
      SumNonNegative(extents, lo + 1, hi);
    }
  }

  /** The shrink-wrapping viewport's `scrollOffsetOf`: the extents of every
      child before it. */
  method ShrinkWrappingScrollOffsetOf(extents: seq<real>, child: nat, within: real) returns (offset: real)
    requires child < |extents|
    ensures offset == Sum(extents, 0, child) + within
  {
    var toChild := 0.0;
    var current := 0;
    while current != child
      invariant 0 <= current <= child
      invariant toChild == Sum(extents, 0, current)
    {
      SumSplit(extents, 0, current, current + 1);
      toChild := toChild + extents[current];
      current := current + 1;
    }
    offset := toChild + within;
  }

  // ---------------------------------------------------------------------------
  // Out-of-band data

  datatype SliverGeometry = SliverGeometry(scrollExtent: real, hasVisualOverflow: bool)

  datatype ScrollExtents = ScrollExtents(minScrollExtent: real, maxScrollExtent: real, hasVisualOverflow: bool)

  /** `updateOutOfBandData`: a forward sliver extends the maximum scroll
      extent, a reverse one lowers the minimum, and any overflow sticks. */
  function UpdateOutOfBandData(e: ScrollExtents, growth: GrowthDirection, g: SliverGeometry): (r: ScrollExtents)
    ensures growth == Forward ==> r.maxScrollExtent == e.maxScrollExtent + g.scrollExtent && r.minScrollExtent == e.minScrollExtent
    ensures growth == Reverse ==> r.minScrollExtent == e.minScrollExtent - g.scrollExtent && r.maxScrollExtent == e.maxScrollExtent
    ensures r.hasVisualOverflow <==> e.hasVisualOverflow || g.hasVisualOverflow
  {
    var e1 := if growth == Forward then e.(maxScrollExtent := e.maxScrollExtent + g.scrollExtent)
              else e.(minScrollExtent := e.minScrollExtent - g.scrollExtent);
    if g.hasVisualOverflow then e1.(hasVisualOverflow := true) else e1
  }

  /** Feeding the slivers laid out in one pass in order. */
  function UpdateAllOutOfBand(e: ScrollExtents, slivers: seq<(GrowthDirection, SliverGeometry)>): ScrollExtents
    decreases |slivers|
  {
    if slivers == [] then e
    else UpdateAllOutOfBand(UpdateOutOfBandData(e, slivers[0].0, slivers[0].1), slivers[1..])
  }

  /** The summed extent of the slivers growing in one direction. */
  function ExtentIn(slivers: seq<(GrowthDirection, SliverGeometry)>, growth: GrowthDirection): real
    decreases |slivers|
  {
    if slivers == [] then 0.0
    else (if slivers[0].0 == growth then slivers[0].1.scrollExtent else 0.0) + ExtentIn(slivers[1..], growth)
  }

  /** After a pass, the maximum scroll extent grew by exactly the forward
      slivers' extents and the minimum shrank by exactly the reverse ones'. */
  lemma {:induction false} OutOfBandTotals(e: ScrollExtents, slivers: seq<(GrowthDirection, SliverGeometry)>)
    ensures UpdateAllOutOfBand(e, slivers).maxScrollExtent == e.maxScrollExtent + ExtentIn(slivers, Forward)
    ensures UpdateAllOutOfBand(e, slivers).minScrollExtent == e.minScrollExtent - ExtentIn(slivers, Reverse)
    decreases |slivers|
  {
    if slivers != [] {
      OutOfBandTotals(UpdateOutOfBandData(e, slivers[0].0, slivers[0].1), slivers[1..]);
    }
  }
}
