/** Colours, the `Paint` data buffer, canvas argument validation and the
    shadow wire format of the low-level painting layer (ui/painting.cs). */
module Painting {
  import opened Wrappers
  import CSharpInt

  const Two8: int := 0x100
  const Two16: int := 0x1_0000
  const Two24: int := 0x100_0000
  const Two32: int := 0x1_0000_0000

  /** An unsigned 32-bit word. */
  type U32 = x: int | 0 <= x < 0x1_0000_0000

  /** `x & 0xff` on a two's-complement integer: the low byte. */
  function LowByte(x: int): (b: int)
    ensures 0 <= b < Two8
    ensures 0 <= x < Two8 ==> b == x
  {
    x % Two8
  }

  // ---------------------------------------------------------------------------
  // Color

  /** A 32-bit ARGB colour, alpha in the top byte. */
  datatype Color = Color(value: U32)

  /** `new Color(v)`: keeps only the low 32 bits of `v`. */
  function MakeColor(v: int): (c: Color)
    ensures 0 <= v < Two32 ==> c.value == v
    ensures (v - c.value) % Two32 == 0
  {
    Color(v % Two32)
  }

  /** `(0xff000000 & value) >> 24` */
  function Alpha(c: Color): int { c.value / Two24 }
  /** `(0x00ff0000 & value) >> 16` */
  function Red(c: Color): int { (c.value / Two16) % Two8 }
  /** `(0x0000ff00 & value) >> 8` */
  function Green(c: Color): int { (c.value / Two8) % Two8 }
  /** `0x000000ff & value` */
  function Blue(c: Color): int { c.value % Two8 }

  /** Each channel getter yields a byte. */
  lemma ChannelsAreBytes(c: Color)
    ensures 0 <= Alpha(c) < Two8 && 0 <= Red(c) < Two8
    ensures 0 <= Green(c) < Two8 && 0 <= Blue(c) < Two8
  {
  }

  /** Packing four bytes and reading them back with the channel getters. */
  lemma PackUnpack(a: int, r: int, g: int, b: int)
    requires 0 <= a < Two8 && 0 <= r < Two8 && 0 <= g < Two8 && 0 <= b < Two8
    ensures var v := a * Two24 + r * Two16 + g * Two8 + b;
      0 <= v < Two32 &&
      v / Two24 == a && (v / Two16) % Two8 == r && (v / Two8) % Two8 == g && v % Two8 == b
  {
    var v := a * Two24 + r * Two16 + g * Two8 + b;
    assert v / Two8 == a * Two16 + r * Two8 + g;
    assert v / Two16 == a * Two8 + r;
  }

  /** `Color.fromARGB`: each argument is cut to its low byte before packing,
      and the channel getters return exactly those bytes. */
  function FromARGB(a: int, r: int, g: int, b: int): (c: Color)
    ensures Alpha(c) == LowByte(a) && Red(c) == LowByte(r)
    ensures Green(c) == LowByte(g) && Blue(c) == LowByte(b)
  {
    PackUnpack(LowByte(a), LowByte(r), LowByte(g), LowByte(b));
    Color(LowByte(a) * Two24 + LowByte(r) * Two16 + LowByte(g) * Two8 + LowByte(b))
  }

  /** The four channels determine the colour: unpacking then packing is the identity. */
  lemma ChannelsDetermineColor(c: Color)
    ensures FromARGB(Alpha(c), Red(c), Green(c), Blue(c)) == c
  {
    var v := c.value;
    var b, q1 := v % Two8, v / Two8;
    var g, q2 := q1 % Two8, q1 / Two8;
    var r, a := q2 % Two8, q2 / Two8;
    assert v == q2 * Two16 + (g * Two8 + b);
    CSharpInt.ModUnique(v, Two16, q2, g * Two8 + b);
    assert v == a * Two24 + (r * Two16 + g * Two8 + b);
    CSharpInt.ModUnique(v, Two24, a, r * Two16 + g * Two8 + b);
  }

  /** Two colours with equal channels are equal. */
  lemma ColorExtensionality(c: Color, d: Color)
    requires Alpha(c) == Alpha(d) && Red(c) == Red(d) && Green(c) == Green(d) && Blue(c) == Blue(d)
    ensures c == d
  {
    ChannelsDetermineColor(c);
    ChannelsDetermineColor(d);
  }

  function WithAlpha(c: Color, a: int): (r: Color)
    ensures Alpha(r) == LowByte(a)
    ensures Red(r) == Red(c) && Green(r) == Green(c) && Blue(r) == Blue(c)
  {
    FromARGB(a, Red(c), Green(c), Blue(c))
  }

  function WithRed(c: Color, x: int): (r: Color)
    ensures Red(r) == LowByte(x)
    ensures Alpha(r) == Alpha(c) && Green(r) == Green(c) && Blue(r) == Blue(c)
  {
    FromARGB(Alpha(c), x, Green(c), Blue(c))
  }

  function WithGreen(c: Color, x: int): (r: Color)
    ensures Green(r) == LowByte(x)
    ensures Alpha(r) == Alpha(c) && Red(r) == Red(c) && Blue(r) == Blue(c)
  {
    FromARGB(Alpha(c), Red(c), x, Blue(c))
  }

  function WithBlue(c: Color, x: int): (r: Color)
    ensures Blue(r) == LowByte(x)
    ensures Alpha(r) == Alpha(c) && Red(r) == Red(c) && Green(r) == Green(c)
  {
    FromARGB(Alpha(c), Red(c), Green(c), x)
  }

  /** Re-setting a channel to its current value changes nothing. */
  lemma WithOwnAlphaIsIdentity(c: Color)
    ensures WithAlpha(c, Alpha(c)) == c
  {
    ColorExtensionality(WithAlpha(c, Alpha(c)), c);
  }

  lemma MulMonotone(a: int, b: int, c: int)
    requires a <= b && 0 <= c
    ensures a * c <= b * c
  {
    assert b * c - a * c == (b - a) * c;
  }

  /** Integer division by a positive divisor respects bounds on the dividend. */
  lemma DivBetween(s: int, w: int, lo: int, hi: int)
    requires 0 < w && lo * w <= s <= hi * w
    ensures lo <= s / w <= hi
  {
    var q := s / w;
    assert s == q * w + s % w && 0 <= s % w < w;
    if q < lo {
      MulMonotone(q + 1, lo, w);
    }
    if q > hi {
      MulMonotone(hi + 1, q, w);
    }
  }

  /** The integer mean of two channels weighted by `wx > 0` and `wy >= 0`. */
  function Mean(x: int, y: int, wx: int, wy: int): int
    requires 0 < wx && 0 <= wy
  {
    (x * wx + y * wy) / (wx + wy)
  }

  /** An integer weighted mean lies between its two inputs. */
  lemma MeanBetween(x: int, y: int, wx: int, wy: int)
    requires 0 < wx && 0 <= wy
    ensures Between(Mean(x, y, wx, wy), x, y)
  {
    var lo := if x < y then x else y;
    var hi := if x < y then y else x;
    MulMonotone(lo, x, wx);
    MulMonotone(x, hi, wx);
    MulMonotone(lo, y, wy);
    MulMonotone(y, hi, wy);
    assert lo * (wx + wy) == lo * wx + lo * wy;
    assert hi * (wx + wy) == hi * wx + hi * wy;
    DivBetween(x * wx + y * wy, wx + wy, lo, hi);
  }

  /** `Color.alphaBlend`: composites `fg` over `bg` with integer arithmetic. */
  function AlphaBlend(fg: Color, bg: Color): (r: Color)
    // A transparent foreground leaves the background untouched.
    ensures Alpha(fg) == 0 ==> r == bg
    // Over an opaque background the result is opaque.
    ensures Alpha(fg) != 0 && Alpha(bg) == 0xff ==> Alpha(r) == 0xff
    // Otherwise the output alpha is alpha + backAlpha*(255-alpha)/255, never 0.
    ensures Alpha(fg) != 0 && Alpha(bg) != 0xff ==>
      Alpha(r) == Alpha(fg) + (Alpha(bg) * (0xff - Alpha(fg))) / 0xff && Alpha(r) != 0
  {
    ChannelsAreBytes(fg);
    ChannelsAreBytes(bg);
    var alpha := Alpha(fg);
    if alpha == 0 then bg
    else
      var invAlpha := 0xff - alpha;
      if Alpha(bg) == 0xff then
        FromARGB(0xff,
          Mean(Red(fg), Red(bg), alpha, invAlpha),
          Mean(Green(fg), Green(bg), alpha, invAlpha),
          Mean(Blue(fg), Blue(bg), alpha, invAlpha))
      else
        var backAlpha := BackAlpha(Alpha(bg), invAlpha);
        var outAlpha := alpha + backAlpha;
        FromARGB(outAlpha,
          Mean(Red(fg), Red(bg), alpha, backAlpha),
          Mean(Green(fg), Green(bg), alpha, backAlpha),
          Mean(Blue(fg), Blue(bg), alpha, backAlpha))
  }

  /** The background's alpha attenuated by the foreground's coverage. */
  function BackAlpha(backAlpha: int, invAlpha: int): (r: int)
    requires 0 <= backAlpha < Two8 && 0 <= invAlpha < Two8
    ensures 0 <= r <= invAlpha
  {
    MulMonotone(backAlpha, 0xff, invAlpha);
    (backAlpha * invAlpha) / 0xff
  }

  /** Every colour channel of a blend is a mean of the two inputs' channels. */
  lemma AlphaBlendChannelsBetween(fg: Color, bg: Color)
    requires Alpha(fg) != 0
    ensures var r := AlphaBlend(fg, bg);
      Between(Red(r), Red(fg), Red(bg)) && Between(Green(r), Green(fg), Green(bg)) &&
      Between(Blue(r), Blue(fg), Blue(bg))
  {
    ChannelsAreBytes(fg);
    ChannelsAreBytes(bg);
    var alpha := Alpha(fg);
    var invAlpha := 0xff - alpha;
    var w := if Alpha(bg) == 0xff then invAlpha else BackAlpha(Alpha(bg), invAlpha);
    MeanBetween(Red(fg), Red(bg), alpha, w);
    MeanBetween(Green(fg), Green(bg), alpha, w);
    MeanBetween(Blue(fg), Blue(bg), alpha, w);
  }

  /** `m` lies between `x` and `y` inclusive. */
  predicate Between(m: int, x: int, y: int) {
    (x <= m <= y) || (y <= m <= x)
  }

  // ---------------------------------------------------------------------------
  // Paint: 56 bytes of data = 14 four-byte slots.  Every slot is read and
  // written with one type only, so the buffer is modelled as an integer view
  // (the slots accessed with getInt32/setInt32, as unsigned words) and a float
  // view (the slots accessed with getFloat32/setFloat32).

  const DataByteCount: int := 56
  const SlotCount: int := 14

  const IsAntiAliasIndex: int := 0
  const ColorIndex: int := 1
  const BlendModeIndex: int := 2
  const StyleIndex: int := 3
  const StrokeWidthIndex: int := 4
  const StrokeCapIndex: int := 5
  const StrokeJoinIndex: int := 6
  const StrokeMiterLimitIndex: int := 7
  const FilterQualityIndex: int := 8
  const MaskFilterIndex: int := 9
  const MaskFilterBlurStyleIndex: int := 10
  const MaskFilterSigmaIndex: int := 11
  const InvertColorIndex: int := 12
  const DitherIndex: int := 13

  datatype PaintData = PaintData(ints: seq<U32>, floats: seq<real>) {
    ghost predicate Valid() { |ints| == SlotCount && |floats| == SlotCount }
  }

  /** A freshly allocated (all-zero) buffer. */
  function ZeroPaint(): (p: PaintData)
    ensures p.Valid()
    ensures forall i | 0 <= i < SlotCount :: p.ints[i] == 0 && p.floats[i] == 0.0
  {
    PaintData(seq(SlotCount, _ => 0), seq(SlotCount, _ => 0.0))
  }

  /** The byte offset of a slot is a multiple of 4 inside the 56-byte buffer,
      as getInt32/setInt32 assert. */
  lemma SlotOffsetsAligned(i: int)
    requires 0 <= i < SlotCount
    ensures (i * 4) % 4 == 0 && 0 <= i * 4 && i * 4 + 4 <= DataByteCount
  {
  }

  function SetInt(p: PaintData, i: int, w: U32): (r: PaintData)
    requires p.Valid() && 0 <= i < SlotCount
    ensures r.Valid() && r.ints[i] == w && r.floats == p.floats
    ensures forall j | 0 <= j < SlotCount && j != i :: r.ints[j] == p.ints[j]
  {
    p.(ints := p.ints[i := w])
  }

  function SetFloat(p: PaintData, i: int, f: real): (r: PaintData)
    requires p.Valid() && 0 <= i < SlotCount
    ensures r.Valid() && r.floats[i] == f && r.ints == p.ints
    ensures forall j | 0 <= j < SlotCount && j != i :: r.floats[j] == p.floats[j]
  {
    p.(floats := p.floats[i := f])
  }

  /** `x ^ 0xFF000000` on a 32-bit word: complements the top byte, keeps the rest. */
  function XorColorDefault(v: U32): (r: U32)
    ensures r / Two24 == 0xff - v / Two24 && r % Two24 == v % Two24
  {
    (0xff - v / Two24) * Two24 + v % Two24
  }

  lemma XorColorDefaultInvolution(v: U32)
    ensures XorColorDefault(XorColorDefault(v)) == v
  {
  }

  function IsAntiAlias(p: PaintData): bool
    requires p.Valid()
  {
    p.ints[IsAntiAliasIndex] == 0
  }

  function SetIsAntiAlias(p: PaintData, b: bool): (r: PaintData)
    requires p.Valid()
    ensures r.Valid() && IsAntiAlias(r) == b
  {
    SetInt(p, IsAntiAliasIndex, if b then 0 else 1)
  }

  function PaintColor(p: PaintData): Color
    requires p.Valid()
  {
    Color(XorColorDefault(p.ints[ColorIndex]))
  }

  function SetPaintColor(p: PaintData, c: Color): (r: PaintData)
    requires p.Valid()
    ensures r.Valid() && PaintColor(r) == c
  {
    XorColorDefaultInvolution(c.value);
    SetInt(p, ColorIndex, XorColorDefault(c.value))
  }

  /** `BlendMode` declares 29 modes; `srcOver` is the fourth (index 3). */
  const BlendModeCount: int := 29
  const SrcOver: int := 3
  type BlendMode = m: int | 0 <= m < 29

  /** `x ^ 3`: complements the two low bits. */
  function XorBlendDefault(x: U32): (r: U32)
    ensures r / 4 == x / 4 && r % 4 == 3 - x % 4
  {
    (x / 4) * 4 + (3 - x % 4)
  }

  function PaintBlendMode(p: PaintData): int
    requires p.Valid()
  {
    XorBlendDefault(p.ints[BlendModeIndex])
  }

  function SetPaintBlendMode(p: PaintData, m: BlendMode): (r: PaintData)
    requires p.Valid()
    ensures r.Valid() && PaintBlendMode(r) == m
  {
    SetInt(p, BlendModeIndex, XorBlendDefault(m))
  }

  function StrokeMiterLimit(p: PaintData): real
    requires p.Valid()
  {
    p.floats[StrokeMiterLimitIndex] + 4.0
  }

  function SetStrokeMiterLimit(p: PaintData, x: real): (r: PaintData)
    requires p.Valid()
    ensures r.Valid() && StrokeMiterLimit(r) == x
  {
    SetFloat(p, StrokeMiterLimitIndex, x - 4.0)
  }

  /** The single kind of mask filter: a blur with a style and a sigma. */
  datatype MaskFilter = Blur(style: U32, sigma: real)

  const TypeNone: int := 0
  const TypeBlur: int := 1

  function PaintMaskFilter(p: PaintData): (m: Option<MaskFilter>)
    requires p.Valid()
    ensures m.Some? <==> p.ints[MaskFilterIndex] == TypeBlur
  {
    if p.ints[MaskFilterIndex] == TypeNone then None
    else if p.ints[MaskFilterIndex] == TypeBlur then
      Some(Blur(p.ints[MaskFilterBlurStyleIndex], p.floats[MaskFilterSigmaIndex]))
    else None
  }

  function SetPaintMaskFilter(p: PaintData, m: Option<MaskFilter>): (r: PaintData)
    requires p.Valid()
    ensures r.Valid() && PaintMaskFilter(r) == m
    ensures m.None? ==>
      r.ints[MaskFilterIndex] == TypeNone && r.ints[MaskFilterBlurStyleIndex] == 0 &&
      r.floats[MaskFilterSigmaIndex] == 0.0
  {
    match m
    case None =>
      SetFloat(SetInt(SetInt(p, MaskFilterIndex, TypeNone), MaskFilterBlurStyleIndex, 0),
               MaskFilterSigmaIndex, 0.0)
    case Some(Blur(style, sigma)) =>
      SetFloat(SetInt(SetInt(p, MaskFilterIndex, TypeBlur), MaskFilterBlurStyleIndex, style),
               MaskFilterSigmaIndex, sigma)
  }

  function InvertColors(p: PaintData): bool
    requires p.Valid()
  {
    p.ints[InvertColorIndex] == 1
  }

  function SetInvertColors(p: PaintData, b: bool): (r: PaintData)
    requires p.Valid()
    ensures r.Valid() && InvertColors(r) == b
  {
    SetInt(p, InvertColorIndex, if b then 1 else 0)
  }

  function Dither(p: PaintData): bool
    requires p.Valid()
  {
    p.ints[DitherIndex] == 1
  }

  function SetDither(p: PaintData, b: bool): (r: PaintData)
    requires p.Valid()
    ensures r.Valid() && Dither(r) == b
  {
    SetInt(p, DitherIndex, if b then 1 else 0)
  }

  /** A zeroed buffer reads back as the documented defaults. */
  lemma ZeroPaintDefaults()
    ensures IsAntiAlias(ZeroPaint())
    ensures PaintColor(ZeroPaint()) == Color(0xFF000000)
    ensures PaintBlendMode(ZeroPaint()) == SrcOver
    ensures StrokeMiterLimit(ZeroPaint()) == 4.0
    ensures PaintMaskFilter(ZeroPaint()) == None
    ensures !InvertColors(ZeroPaint()) && !Dither(ZeroPaint())
  {
  }

  /** Setting the colour leaves every other field readable as before. */
  lemma SetColorKeepsOtherFields(p: PaintData, c: Color)
    requires p.Valid()
    ensures var r := SetPaintColor(p, c);
      IsAntiAlias(r) == IsAntiAlias(p) && PaintBlendMode(r) == PaintBlendMode(p) &&
      PaintMaskFilter(r) == PaintMaskFilter(p) && StrokeMiterLimit(r) == StrokeMiterLimit(p) &&
      InvertColors(r) == InvertColors(p) && Dither(r) == Dither(p)
  {
  }

  // ---------------------------------------------------------------------------
  // Argument validation (ArgumentException in the source)

  /** `Gradient._validateColorStops`; `stops` is the length of the optional stop list. */
  function ValidateColorStops(colorCount: nat, stops: Option<nat>): (o: Outcome<string>)
    ensures o.Fail? <==> (stops.None? && colorCount != 2) ||
                         (stops.Some? && stops.value != colorCount)
  {
    match stops
    case None =>
      if colorCount != 2 then Fail("\"colors\" must have length 2 if \"colorStops\" is omitted.") else Pass
    case Some(n) =>
      if colorCount != n then Fail("\"colors\" and \"colorStops\" arguments must have equal length.") else Pass
  }

  /** `Canvas.drawRawPoints`: the flat coordinate list must pair up. */
  function ValidateRawPoints(length: nat): (o: Outcome<string>)
    ensures o.Pass? <==> length % 2 == 0
  {
    if length % 2 != 0 then Fail("\"points\" must have an even number of values.") else Pass
  }

  /** `Canvas.drawAtlas`: an empty colour list means "no colours". */
  function ValidateAtlas(transforms: nat, rects: nat, colors: nat): (o: Outcome<string>)
    ensures o.Pass? <==> transforms == rects && (colors == 0 || colors == rects)
  {
    if transforms != rects then Fail("\"transforms\" and \"rects\" lengths must match.")
    else if colors != 0 && colors != rects then
      Fail("If non-null, \"colors\" length must match that of \"transforms\" and \"rects\".")
    else Pass
  }

  /** `Canvas.drawRawAtlas`: four floats per sprite, one colour per sprite. */
  function ValidateRawAtlas(rstTransforms: nat, rects: nat, colors: nat): (o: Outcome<string>)
    ensures o.Pass? ==> rects % 4 == 0 && colors == rects / 4 && rstTransforms == rects
    ensures o.Pass? <== rstTransforms == rects && colors * 4 == rects
  {
    if rstTransforms != rects then Fail("\"rstTransforms\" and \"rects\" lengths must match.")
    else if rects % 4 != 0 then Fail("\"rstTransforms\" and \"rects\" lengths must be a multiple of four.")
    else if colors * 4 != rects then
      Fail("If non-null, \"colors\" length must be one fourth the length of \"rstTransforms\" and \"rects\".")
    else Pass
  }

  // ---------------------------------------------------------------------------
  // Vertices

  /** The arguments of `new Vertices(...)`, by length; `None` is a null list. */
  datatype VerticesArgs = VerticesArgs(
    positions: nat,
    textureCoordinates: Option<nat>,
    colors: Option<nat>,
    indices: Option<seq<int>>)

  /** What is handed to the native initialiser: the length of each encoded
      array (two floats per point, one word per colour, one index per index). */
  datatype EncodedVertices = EncodedVertices(
    positions: nat, textureCoordinates: nat, colors: nat, indices: nat)

  datatype VerticesError = ArgumentError | NullReference

  /** The argument checks that throw ArgumentException. */
  predicate VerticesArgsValid(a: VerticesArgs) {
    (a.textureCoordinates.None? || a.textureCoordinates.value == a.positions) &&
    (a.colors.None? || a.colors.value == a.positions) &&
    (a.indices.None? || forall k | 0 <= k < |a.indices.value| :: 0 <= a.indices.value[k] < a.positions)
  }

  function IndicesOutOfRange(positions: nat, indices: seq<int>): (bad: bool)
    ensures bad <==> exists k | 0 <= k < |indices| :: !(0 <= indices[k] < positions)
  {
    if indices == [] then false
    else !(0 <= indices[0] < positions) || IndicesOutOfRange(positions, indices[1..])
  }

  /** The argument checks in the order the constructor makes them. */
  function CheckVerticesArgs(a: VerticesArgs): (o: Outcome<VerticesError>)
    ensures o.Pass? <==> VerticesArgsValid(a)
    ensures o.Fail? ==> o.error == ArgumentError
  {
    if a.textureCoordinates.Some? && a.textureCoordinates.value != a.positions then Fail(ArgumentError)
    else if a.colors.Some? && a.colors.value != a.positions then Fail(ArgumentError)
    else if a.indices.Some? && IndicesOutOfRange(a.positions, a.indices.value) then Fail(ArgumentError)
    else Pass
  }

  /** The constructor as written: after the checks it reads `.Length` of every
      encoded array, including those left null for omitted arguments. */
  function VerticesAsWritten(a: VerticesArgs): (r: Result<EncodedVertices, VerticesError>)
    ensures r.Success? ==> a.textureCoordinates.Some? && a.colors.Some? && a.indices.Some?
  {
    match CheckVerticesArgs(a)
    case Fail(e) => Failure(e)
    case Pass =>
      if a.textureCoordinates.None? || a.colors.None? || a.indices.None? then Failure(NullReference)
      else Success(EncodedVertices(2 * a.positions, 2 * a.textureCoordinates.value,
                                   a.colors.value, |a.indices.value|))
  }

  /** A plain triangle list with no optional arrays, the most common call. */
  lemma VerticesAsWrittenRejectsOmittedArrays()
    ensures VerticesAsWritten(VerticesArgs(3, None, None, None)) == Failure(NullReference)
  {
    assert VerticesArgsValid(VerticesArgs(3, None, None, None));
  }

  /** The intended constructor: omitted arrays are passed as empty. */
  function Vertices(a: VerticesArgs): (r: Result<EncodedVertices, VerticesError>)
    ensures r.Success? <==> VerticesArgsValid(a)
    ensures r.Failure? ==> r.error == ArgumentError
    ensures r.Success? ==>
      r.value.positions == 2 * a.positions &&
      r.value.textureCoordinates == (if a.textureCoordinates.Some? then 2 * a.positions else 0) &&
      r.value.colors == (if a.colors.Some? then a.positions else 0) &&
      r.value.indices == (if a.indices.Some? then |a.indices.value| else 0)
  {
    match CheckVerticesArgs(a)
    case Fail(e) => Failure(e)
    case Pass =>
      Success(EncodedVertices(
        2 * a.positions,
        2 * a.textureCoordinates.GetOr(0),
        a.colors.GetOr(0),
        if a.indices.Some? then |a.indices.value| else 0))
  }

  /** The intended constructor agrees with the written one wherever the
      written one succeeds. */
  lemma VerticesAgreesWhenAllPresent(a: VerticesArgs)
    requires VerticesAsWritten(a).Success?
    ensures Vertices(a) == VerticesAsWritten(a)
  {
  }

  // ---------------------------------------------------------------------------
  // Shadows

  datatype Shadow = Shadow(color: Color, dx: real, dy: real, blurRadius: real)

  /** One four-byte word of the shadow buffer: raw bits or a float. */
  datatype Word = Bits(bits: U32) | Float(f: real)

  const BytesPerShadow: int := 16
  const WordsPerShadow: int := 4

  function ZeroWord(): Word { Bits(0) }

  /** The four words shadow `s` is encoded to: colour XOR default, dx, dy, blur. */
  function ShadowWords(s: Shadow): (w: seq<Word>)
    ensures |w| == WordsPerShadow
  {
    [Bits(XorColorDefault(s.color.value)), Float(s.dx), Float(s.dy), Float(s.blurRadius)]
  }

  /** Reads a shadow back from its four words. */
  function DecodeShadow(w: seq<Word>): Option<Shadow>
    requires |w| == WordsPerShadow
  {
    if w[0].Bits? && w[1].Float? && w[2].Float? && w[3].Float? then
      Some(Shadow(Color(XorColorDefault(w[0].bits)), w[1].f, w[2].f, w[3].f))
    else None
  }

  lemma ShadowRoundTrip(s: Shadow)
    ensures DecodeShadow(ShadowWords(s)) == Some(s)
  {
    XorColorDefaultInvolution(s.color.value);
  }

  /** The four words a list entry occupies: zero for a null entry. */
  function ShadowBlock(o: Option<Shadow>): (w: seq<Word>)
    ensures |w| == WordsPerShadow
  {
    if o.Some? then ShadowWords(o.value) else [ZeroWord(), ZeroWord(), ZeroWord(), ZeroWord()]
  }

  /** The words of a whole list: one block per entry, in order. */
  function ShadowListWords(list: seq<Option<Shadow>>): (w: seq<Word>)
    ensures |w| == WordsPerShadow * |list|
  {
    if list == [] then [] else ShadowListWords(list[..|list| - 1]) + ShadowBlock(list[|list| - 1])
  }

  /** Entry i of the list occupies words 4*i to 4*i+3. */
  lemma {:induction false} ShadowListWordsAt(list: seq<Option<Shadow>>, i: int, m: int)
    requires 0 <= i < |list| && 0 <= m < WordsPerShadow
    ensures ShadowListWords(list)[WordsPerShadow * i + m] == ShadowBlock(list[i])[m]
  {
    var n := |list| - 1;
    if i < n {
      ShadowListWordsAt(list[..n], i, m);
    }
  }

  /** `Shadow._encodeShadows`: 16 bytes per list entry; a null entry keeps its
      bytes zero; shadow i's colour (XOR the default) sits at byte 16*i,
      followed by dx, dy and the blur radius. */
  method EncodeShadows(shadows: Option<seq<Option<Shadow>>>) returns (data: seq<Word>)
    ensures shadows.None? ==> data == []
    ensures shadows.Some? ==> 4 * |data| == BytesPerShadow * |shadows.value|
    ensures shadows.Some? ==> forall i, m | 0 <= i < |shadows.value| && 0 <= m < WordsPerShadow ::
      data[WordsPerShadow * i + m] == ShadowBlock(shadows.value[i])[m]
  {
    if shadows.None? {
      return [];
    }
    var list := shadows.value;
    data := [];
    for i := 0 to |list|
      invariant data == ShadowListWords(list[..i])
    {
      assert list[..i + 1][..i] == list[..i];
      data := data + ShadowBlock(list[i]);
    }
    assert list[..|list|] == list;
    forall i, m | 0 <= i < |list| && 0 <= m < WordsPerShadow
      ensures data[WordsPerShadow * i + m] == ShadowBlock(list[i])[m]
    {
      ShadowListWordsAt(list, i, m);
    }
  }

  /** `Shadow.lerpList`, with the per-shadow interpolation and scaling taken as
      parameters (they are floating-point arithmetic). A null list reads as empty. */
  function LerpList<S>(a: Option<seq<S>>, b: Option<seq<S>>, t: real,
                       lerp: (S, S, real) -> S, scale: (S, real) -> S): (r: Option<seq<S>>)
    ensures r.None? <==> a.None? && b.None?
    ensures r.Some? ==> |r.value| == if |a.GetOr([])| < |b.GetOr([])| then |b.GetOr([])| else |a.GetOr([])|
  {
    if a.None? && b.None? then None
    else Some(LerpSeqs(a.GetOr([]), b.GetOr([]), t, lerp, scale))
  }

  /** The three loops of `Shadow.lerpList` over two non-null lists. */
  function LerpSeqs<S>(xs: seq<S>, ys: seq<S>, t: real,
                       lerp: (S, S, real) -> S, scale: (S, real) -> S): (r: seq<S>)
    ensures |r| == if |xs| < |ys| then |ys| else |xs|
  {
    var common := if |xs| < |ys| then |xs| else |ys|;
    LerpCommon(xs, ys, common, t, lerp) + ScaleFrom(xs, common, 1.0 - t, scale)
    + ScaleFrom(ys, common, t, scale)
  }

  /** The first `n` entries of two lists, interpolated pairwise. */
  function LerpCommon<S>(xs: seq<S>, ys: seq<S>, n: nat, t: real, lerp: (S, S, real) -> S): (r: seq<S>)
    requires n <= |xs| && n <= |ys|
    ensures |r| == n
    ensures forall i | 0 <= i < n :: r[i] == lerp(xs[i], ys[i], t)
  {
    seq(n, i requires 0 <= i < n => lerp(xs[i], ys[i], t))
  }

  /** The entries of `xs` from index `n` on, each scaled by `f`. */
  function ScaleFrom<S>(xs: seq<S>, n: nat, f: real, scale: (S, real) -> S): (r: seq<S>)
    ensures |r| == if n <= |xs| then |xs| - n else 0
    ensures forall i | n <= i < |xs| :: r[i - n] == scale(xs[i], f)
  {
    if n <= |xs| then seq(|xs| - n, i requires 0 <= i < |xs| - n => scale(xs[n + i], f)) else []
  }

  /** Each entry of an interpolated list: pairs in the common prefix are
      interpolated, and the leftover entries of the longer list are scaled by
      `1 - t` (first list) or `t` (second list). */
  lemma LerpSeqsEntries<S>(xs: seq<S>, ys: seq<S>, t: real,
                           lerp: (S, S, real) -> S, scale: (S, real) -> S, i: int)
    ensures var r := LerpSeqs(xs, ys, t, lerp, scale);
            (0 <= i < |xs| && i < |ys| ==> r[i] == lerp(xs[i], ys[i], t)) &&
            (|ys| <= i < |xs| ==> r[i] == scale(xs[i], 1.0 - t)) &&
            (|xs| <= i < |ys| ==> r[i] == scale(ys[i], t))
  {
    var common := if |xs| < |ys| then |xs| else |ys|;
    var p := LerpCommon(xs, ys, common, t, lerp);
    var q := ScaleFrom(xs, common, 1.0 - t, scale);
    var u := ScaleFrom(ys, common, t, scale);
    assert LerpSeqs(xs, ys, t, lerp, scale) == p + q + u;
    if 0 <= i < |xs| && i < |ys| {
      assert ConcatAt(p, q, u, i) == p[i];
    } else if |ys| <= i < |xs| {
      assert ConcatAt(p, q, u, i) == q[i - common];
    } else if |xs| <= i < |ys| {
      assert ConcatAt(p, q, u, i) == u[i - common];
    }
  }

  /** The element at index `i` of `p + q + u`, read from the part that holds it. */
  function ConcatAt<S>(p: seq<S>, q: seq<S>, u: seq<S>, i: int): (r: S)
    requires 0 <= i < |p| + |q| + |u|
    ensures r == (p + q + u)[i]
  {
    if i < |p| then p[i] else if i < |p| + |q| then q[i - |p|] else u[i - |p| - |q|]
  }
}
