/** Text-layer value types and the compact encoders that hand text and
    paragraph styles to the native engine (ui2/text.cs). */
module Text {
  import opened Wrappers
  import opened Utf16
  import Painting
  import CSharpInt

  type Byte = x: int | 0 <= x < 0x100

  // ---------------------------------------------------------------------------
  // FontFeature

  /** An OpenType feature: a four-character tag and an integer value. */
  datatype FontFeature = FontFeature(feature: Text16, value: int)

  const FontFeatureEncodedSize: int := 8

  /** The tag check the debug assertion in `_encode` makes as written: it asks
      for a code unit that is both `<= 0x20` and `>= 0x7F`, which none is. */
  predicate TagCheckAsWritten(tag: Text16) {
    forall i | 0 <= i < |tag| :: !(tag[i] <= 0x20 && tag[i] >= 0x7F)
  }

  /** The evidently intended check: every tag character is printable ASCII. */
  predicate TagCheck(tag: Text16) {
    forall i | 0 <= i < |tag| :: !(tag[i] <= 0x20 || tag[i] >= 0x7F)
  }

  /** The written check accepts a tag of four spaces; the intended one rejects it. */
  lemma TagCheckAsWrittenIsVacuous()
    ensures TagCheckAsWritten([0x20, 0x20, 0x20, 0x20])
    ensures !TagCheck([0x20, 0x20, 0x20, 0x20])
    ensures TagCheck([0x6C, 0x69, 0x67, 0x61])   // "liga"
  {
    var spaces: Text16 := [0x20, 0x20, 0x20, 0x20];
    assert spaces[0] <= 0x20;
  }

  /** The written check holds of every tag whatsoever. */
  lemma TagCheckAsWrittenAcceptsEverything(tag: Text16)
    ensures TagCheckAsWritten(tag)
  {
  }

  /** `value >> 8*k` on the two's-complement value (an arithmetic shift). */
  function ShiftBytes(value: int, k: nat): int {
    if k == 0 then value else ShiftBytes(value, k - 1) / 0x100
  }

  /** `(byte)(value >> 8*k)`: byte k of the two's-complement value. */
  function ByteOf(value: int, k: nat): Byte {
    ShiftBytes(value, k) % 0x100
  }

  /** Little-endian reading of four bytes as an unsigned word. */
  function LittleEndian(b: seq<Byte>): (w: int)
    requires |b| == 4
    ensures 0 <= w < 0x1_0000_0000
  {
    (b[0] as int) + 0x100 * (b[1] as int) + 0x1_0000 * (b[2] as int) + 0x100_0000 * (b[3] as int)
  }

  /** A 32-bit word reinterpreted as a signed C# `int`. */
  function ToInt32(w: int): int
    requires 0 <= w < 0x1_0000_0000
  {
    if w < 0x8000_0000 then w else w - 0x1_0000_0000
  }

  predicate IsInt32(x: int) { -0x8000_0000 <= x < 0x8000_0000 }

  /** One more arithmetic shift splits off byte k. */
  lemma ShiftSplit(value: int, k: nat)
    ensures ShiftBytes(value, k) == ByteOf(value, k) + 0x100 * ShiftBytes(value, k + 1)
  {
  }

  /** The four bytes `(byte)(value >> 8k)` spell `value` modulo 2^32. */
  lemma LittleEndianBytes(value: int)
    ensures LittleEndian([ByteOf(value, 0), ByteOf(value, 1), ByteOf(value, 2), ByteOf(value, 3)])
            == value % 0x1_0000_0000
  {
    ShiftSplit(value, 0);
    ShiftSplit(value, 1);
    ShiftSplit(value, 2);
    ShiftSplit(value, 3);
    var le := LittleEndian([ByteOf(value, 0), ByteOf(value, 1), ByteOf(value, 2), ByteOf(value, 3)]);
    var q4 := ShiftBytes(value, 4);
    assert value == q4 * 0x1_0000_0000 + le;
    CSharpInt.ModUnique(value, 0x1_0000_0000, q4, le);
  }

  /** `FontFeature._encode`: the four tag characters, each cast to a byte
      (its low eight bits), then the value as four little-endian bytes. The
      length is the constructor's assertion; the tag check guards nothing. */
  function EncodeFontFeature(f: FontFeature): (bytes: seq<Byte>)
    requires |f.feature| == 4
    ensures |bytes| == FontFeatureEncodedSize
    ensures forall i | 0 <= i < 4 :: bytes[i] == f.feature[i] % 0x100
    ensures LittleEndian(bytes[4..]) == f.value % 0x1_0000_0000
  {
    LittleEndianBytes(f.value);
    [f.feature[0] % 0x100, f.feature[1] % 0x100, f.feature[2] % 0x100, f.feature[3] % 0x100,
     ByteOf(f.value, 0), ByteOf(f.value, 1), ByteOf(f.value, 2), ByteOf(f.value, 3)]
  }

  function DecodeFontFeature(bytes: seq<Byte>): FontFeature
    requires |bytes| == FontFeatureEncodedSize
  {
    FontFeature(bytes[..4], ToInt32(LittleEndian(bytes[4..])))
  }

  /** A printable-ASCII tag survives the byte cast unchanged. */
  lemma TagCheckKeepsTag(f: FontFeature)
    requires |f.feature| == 4 && TagCheck(f.feature)
    ensures EncodeFontFeature(f)[..4] == f.feature
  {
    var b := EncodeFontFeature(f);
    assert f.feature[0] < 0x7F && f.feature[1] < 0x7F && f.feature[2] < 0x7F && f.feature[3] < 0x7F;
    assert b[..4] == [b[0], b[1], b[2], b[3]];
  }

  /** Decoding an encoded feature gives it back (its tag is printable ASCII
      and its value a C# `int`). */
  lemma FontFeatureRoundTrip(f: FontFeature)
    requires |f.feature| == 4 && TagCheck(f.feature) && IsInt32(f.value)
    ensures DecodeFontFeature(EncodeFontFeature(f)) == f
  {
    TagCheckKeepsTag(f);
  }

  /** A tag character above 0xFF loses its high bits: U+0161 ("š") is
      written as 0x61 ("a"), so "šmcp" and "amcp" encode alike. */
  lemma WideTagTruncates()
    ensures EncodeFontFeature(FontFeature([0x161, 0x6D, 0x63, 0x70], 1)) ==
            EncodeFontFeature(FontFeature([0x61, 0x6D, 0x63, 0x70], 1))
  {
  }

  // ---------------------------------------------------------------------------
  // TextDecoration

  datatype TextDecoration = TextDecoration(mask: Mask)

  function DecorationNone(): TextDecoration { TextDecoration({}) }
  function Underline(): TextDecoration { TextDecoration({0}) }
  function Overline(): TextDecoration { TextDecoration({1}) }
  function LineThrough(): TextDecoration { TextDecoration({2}) }

  /** `a.contains(b)`: `(a.mask | b.mask) == a.mask`. */
  function Contains(a: TextDecoration, b: TextDecoration): (r: bool)
    ensures r <==> b.mask <= a.mask
  {
    a.mask + b.mask == a.mask
  }

  /** `combine`: the OR of all masks.  The result contains every listed
      decoration. */
  function Combine(ds: seq<TextDecoration>): (r: TextDecoration)
    ensures forall i | 0 <= i < |ds| :: ds[i].mask <= r.mask
  {
    if ds == [] then DecorationNone()
    else
      var front := ds[..|ds| - 1];
      TextDecoration(Combine(front).mask + ds[|ds| - 1].mask)
  }

  /** Every bit of `combine` comes from one of the listed decorations. */
  lemma {:induction false} CombineBitSource(ds: seq<TextDecoration>, k: BitIndex)
    requires k in Combine(ds).mask
    ensures exists i | 0 <= i < |ds| :: k in ds[i].mask
  {
    var n := |ds| - 1;
    if k !in ds[n].mask {
      CombineBitSource(ds[..n], k);
      var i :| 0 <= i < n && k in ds[..n][i].mask;
      assert k in ds[i].mask;
    }
  }

  /** `combine` is the least decoration containing every listed one. */
  lemma CombineIsLeast(ds: seq<TextDecoration>, d: TextDecoration)
    requires forall i | 0 <= i < |ds| :: Contains(d, ds[i])
    ensures Contains(d, Combine(ds))
  {
    forall k | k in Combine(ds).mask ensures k in d.mask {
      CombineBitSource(ds, k);
      var i :| 0 <= i < |ds| && k in ds[i].mask;
      assert Contains(d, ds[i]);
    }
  }

  /** `combine` depends only on which decorations are listed: it is
      commutative and idempotent. */
  lemma CombineIgnoresOrderAndRepetition(xs: seq<TextDecoration>, ys: seq<TextDecoration>)
    requires forall i | 0 <= i < |xs| :: xs[i] in ys
    requires forall j | 0 <= j < |ys| :: ys[j] in xs
    ensures Combine(xs) == Combine(ys)
  {
    var a := Combine(xs);
    var b := Combine(ys);
    forall i | 0 <= i < |xs| ensures Contains(b, xs[i]) {
      var j :| 0 <= j < |ys| && ys[j] == xs[i];
    }
    forall j | 0 <= j < |ys| ensures Contains(a, ys[j]) {
      var i :| 0 <= i < |xs| && xs[i] == ys[j];
    }
    CombineIsLeast(xs, b);
    CombineIsLeast(ys, a);
  }

  // ---------------------------------------------------------------------------
  // TextHeightBehavior

  datatype TextHeightBehavior = TextHeightBehavior(applyHeightToFirstAscent: bool,
                                                   applyHeightToLastDescent: bool)

  function DefaultTextHeightBehavior(): TextHeightBehavior { TextHeightBehavior(true, true) }

  /** Bit 0 clear = apply to first ascent; bit 1 clear = apply to last descent. */
  function EncodeHeightBehavior(t: TextHeightBehavior): (e: int)
    ensures 0 <= e <= 3
    ensures e == 0 <==> t == DefaultTextHeightBehavior()
  {
    (if t.applyHeightToFirstAscent then 0 else 1) + (if t.applyHeightToLastDescent then 0 else 2)
  }

  /** `fromEncoded`: `(e & 1) == 0` and `(e & 2) == 0` on a two's-complement int. */
  function HeightBehaviorFromEncoded(e: int): TextHeightBehavior {
    TextHeightBehavior(e % 2 == 0, (e / 2) % 2 == 0)
  }

  lemma HeightBehaviorRoundTrip(t: TextHeightBehavior)
    ensures HeightBehaviorFromEncoded(EncodeHeightBehavior(t)) == t
  {
  }

  /** Decoding looks only at the two low bits, and re-encoding gives them back. */
  lemma HeightBehaviorLowBits(e: int)
    ensures EncodeHeightBehavior(HeightBehaviorFromEncoded(e)) == e % 4
  {
    assert e == (e / 4) * 4 + e % 4;
    assert e / 2 == (e / 4) * 2 + (e % 4) / 2;
  }

  // ---------------------------------------------------------------------------
  // Style encoders.  Word 0 of each encoding is a bitmask (modelled as the set
  // of its set bits); the other words are plain ints.

  datatype Word = MaskWord(bits: Mask) | IntWord(v: int)

  /** The bitmask contribution `1 << k` of an optional field. */
  function Flag<T>(o: Option<T>, k: BitIndex): (m: Mask)
    ensures m == if o.Some? then {k} else {}
  {
    if o.Some? then {k} else {}
  }

  /** A payload word for an enum index: the value when present, 0 (the array
      default) otherwise. */
  function EnumSlot(o: Option<nat>): Word {
    if o.Some? then IntWord(o.value) else IntWord(0)
  }

  function ColorSlot(o: Option<Painting.Color>): Word {
    if o.Some? then IntWord(ColorInt(o.value)) else IntWord(0)
  }

  /** `(int) color.value`: the colour word as a signed C# `int`. */
  function ColorInt(c: Painting.Color): int { ToInt32(c.value) }

  /** The `TextStyle` fields that reach `_encodeTextStyle`.  Enum-valued fields
      are given by their index. */
  datatype TextStyleArgs = TextStyleArgs(
    color: Option<Painting.Color>,
    decoration: Option<TextDecoration>,
    decorationColor: Option<Painting.Color>,
    decorationStyle: Option<nat>,
    fontWeight: Option<nat>,
    fontStyle: Option<nat>,
    textBaseline: Option<nat>,
    decorationThickness: Option<real>,
    fontFamily: Option<Text16>,
    fontFamilyFallback: Option<seq<Text16>>,
    fontSize: Option<real>,
    letterSpacing: Option<real>,
    wordSpacing: Option<real>,
    height: Option<real>,
    locale: Option<Text16>,
    background: Option<Painting.PaintData>,
    foreground: Option<Painting.PaintData>,
    shadows: Option<seq<Painting.Shadow>>,
    fontFeatures: Option<seq<FontFeature>>)

  /** A family is declared by a name or by a non-empty fallback list. */
  function FamilyPresent(family: Option<Text16>, fallback: Option<seq<Text16>>): Option<bool> {
    if family.Some? || (fallback.Some? && |fallback.value| > 0) then Some(true) else None
  }

  /** Whether the field behind mask bit k of a text-style encoding is set:
      bits 1-18 stand for color, decoration, decorationColor, decorationStyle,
      fontWeight, fontStyle, textBaseline, decorationThickness, the font family
      (name or non-empty fallback list), fontSize, letterSpacing, wordSpacing,
      height, locale, background, foreground, shadows and fontFeatures. */
  predicate TextStyleFieldSet(s: TextStyleArgs, k: int) {
    if k == 1 then s.color.Some? else if k == 2 then s.decoration.Some?
    else if k == 3 then s.decorationColor.Some? else if k == 4 then s.decorationStyle.Some?
    else if k == 5 then s.fontWeight.Some? else if k == 6 then s.fontStyle.Some?
    else if k == 7 then s.textBaseline.Some? else if k == 8 then s.decorationThickness.Some?
    else if k == 9 then FamilyPresent(s.fontFamily, s.fontFamilyFallback).Some?
    else if k == 10 then s.fontSize.Some? else if k == 11 then s.letterSpacing.Some?
    else if k == 12 then s.wordSpacing.Some? else if k == 13 then s.height.Some?
    else if k == 14 then s.locale.Some? else if k == 15 then s.background.Some?
    else if k == 16 then s.foreground.Some? else if k == 17 then s.shadows.Some?
    else if k == 18 then s.fontFeatures.Some?
    else false
  }

  /** The presence mask of a text-style encoding: bit k is set exactly when
      the field it stands for is non-null. */
  function TextStyleMask(s: TextStyleArgs): (m: Mask)
    ensures forall k: BitIndex :: k in m ==> 1 <= k <= 18
    ensures (1 in m <==> s.color.Some?) && (2 in m <==> s.decoration.Some?)
    ensures (3 in m <==> s.decorationColor.Some?) && (4 in m <==> s.decorationStyle.Some?)
    ensures (5 in m <==> s.fontWeight.Some?) && (6 in m <==> s.fontStyle.Some?)
    ensures (7 in m <==> s.textBaseline.Some?) && (8 in m <==> s.decorationThickness.Some?)
    ensures 9 in m <==> s.fontFamily.Some? || (s.fontFamilyFallback.Some? && |s.fontFamilyFallback.value| > 0)
    ensures (10 in m <==> s.fontSize.Some?) && (11 in m <==> s.letterSpacing.Some?)
    ensures (12 in m <==> s.wordSpacing.Some?) && (13 in m <==> s.height.Some?)
    ensures (14 in m <==> s.locale.Some?) && (15 in m <==> s.background.Some?)
    ensures (16 in m <==> s.foreground.Some?) && (17 in m <==> s.shadows.Some?)
    ensures 18 in m <==> s.fontFeatures.Some?
  {
    var m := set k: BitIndex | TextStyleFieldSet(s, k);
    TextStyleLowBits(s, m);
    TextStyleHighBits(s, m);
    TextStyleTopBits(s, m);
    m
  }

  lemma TextStyleLowBits(s: TextStyleArgs, m: Mask)
    requires m == set k: BitIndex | TextStyleFieldSet(s, k)
    ensures forall k: BitIndex :: k in m ==> 1 <= k <= 18
    ensures (1 in m <==> s.color.Some?) && (2 in m <==> s.decoration.Some?)
    ensures (3 in m <==> s.decorationColor.Some?) && (4 in m <==> s.decorationStyle.Some?)
    ensures (5 in m <==> s.fontWeight.Some?) && (6 in m <==> s.fontStyle.Some?)
    ensures (7 in m <==> s.textBaseline.Some?) && (8 in m <==> s.decorationThickness.Some?)
    ensures 9 in m <==> s.fontFamily.Some? || (s.fontFamilyFallback.Some? && |s.fontFamilyFallback.value| > 0)
  {
  }

  lemma TextStyleHighBits(s: TextStyleArgs, m: Mask)
    requires m == set k: BitIndex | TextStyleFieldSet(s, k)
    ensures (10 in m <==> s.fontSize.Some?) && (11 in m <==> s.letterSpacing.Some?)
    ensures (12 in m <==> s.wordSpacing.Some?) && (13 in m <==> s.height.Some?)
  {
  }

  lemma TextStyleTopBits(s: TextStyleArgs, m: Mask)
    requires m == set k: BitIndex | TextStyleFieldSet(s, k)
    ensures (14 in m <==> s.locale.Some?) && (15 in m <==> s.background.Some?)
    ensures (16 in m <==> s.foreground.Some?) && (17 in m <==> s.shadows.Some?)
    ensures 18 in m <==> s.fontFeatures.Some?
  {
  }

  /** `_encodeTextStyle`: eight words, the presence mask then seven inline
      payloads; an absent field leaves its payload word at the array default. */
  function EncodeTextStyle(s: TextStyleArgs): (r: seq<Word>)
    ensures |r| == 8 && r[0] == MaskWord(TextStyleMask(s))
    ensures s.color.None? ==> r[1] == IntWord(0)
    ensures s.decoration.None? ==> r[2] == IntWord(0)
    ensures s.decorationColor.None? ==> r[3] == IntWord(0)
    ensures s.decorationStyle.None? ==> r[4] == IntWord(0)
    ensures s.fontWeight.None? ==> r[5] == IntWord(0)
    ensures s.fontStyle.None? ==> r[6] == IntWord(0)
    ensures s.textBaseline.None? ==> r[7] == IntWord(0)
  {
    [MaskWord(TextStyleMask(s)),
     ColorSlot(s.color),
     if s.decoration.Some? then MaskWord(s.decoration.value.mask) else IntWord(0),
     ColorSlot(s.decorationColor),
     EnumSlot(s.decorationStyle),
     EnumSlot(s.fontWeight),
     EnumSlot(s.fontStyle),
     EnumSlot(s.textBaseline)]
  }

  /** The inline part of a text style as the native side reads it back. */
  datatype InlineTextStyle = InlineTextStyle(
    color: Option<int>, decoration: Option<Mask>, decorationColor: Option<int>,
    decorationStyle: Option<int>, fontWeight: Option<int>, fontStyle: Option<int>,
    textBaseline: Option<int>)

  function ReadInt(w: seq<Word>, k: nat): Option<int>
    requires |w| == 8 && w[0].MaskWord? && k < 8
  {
    if k in w[0].bits && w[k].IntWord? then Some(w[k].v) else None
  }

  function DecodeInlineTextStyle(w: seq<Word>): InlineTextStyle
    requires |w| == 8 && w[0].MaskWord?
  {
    InlineTextStyle(
      ReadInt(w, 1),
      if 2 in w[0].bits && w[2].MaskWord? then Some(w[2].bits) else None,
      ReadInt(w, 3), ReadInt(w, 4), ReadInt(w, 5), ReadInt(w, 6), ReadInt(w, 7))
  }

  function OptInt(o: Option<nat>): Option<int> {
    if o.Some? then Some(o.value as int) else None
  }

  function OptColor(o: Option<Painting.Color>): Option<int> {
    if o.Some? then Some(ColorInt(o.value)) else None
  }

  /** The native side recovers every inline field from the encoding. */
  lemma TextStyleInlineRoundTrip(s: TextStyleArgs)
    ensures DecodeInlineTextStyle(EncodeTextStyle(s)) == InlineTextStyle(
      OptColor(s.color), if s.decoration.Some? then Some(s.decoration.value.mask) else None,
      OptColor(s.decorationColor), OptInt(s.decorationStyle),
      OptInt(s.fontWeight), OptInt(s.fontStyle), OptInt(s.textBaseline))
  {
  }

  /** The `ParagraphStyle` fields that reach `_encodeParagraphStyle`. */
  datatype ParagraphStyleArgs = ParagraphStyleArgs(
    textAlign: Option<nat>,
    textDirection: Option<nat>,
    maxLines: Option<int>,
    fontFamily: Option<Text16>,
    fontSize: Option<real>,
    height: Option<real>,
    textHeightBehavior: Option<TextHeightBehavior>,
    fontWeight: Option<nat>,
    fontStyle: Option<nat>,
    strutStyle: Option<seq<Byte>>,
    ellipsis: Option<Text16>,
    locale: Option<Text16>)

  /** Whether the field behind mask bit k of a paragraph-style encoding is
      set: bits 1-12 stand for textAlign, textDirection, fontWeight, fontStyle,
      maxLines, textHeightBehavior, fontFamily, fontSize, height, strutStyle,
      ellipsis and locale. */
  predicate ParagraphStyleFieldSet(s: ParagraphStyleArgs, k: int) {
    if k == 1 then s.textAlign.Some? else if k == 2 then s.textDirection.Some?
    else if k == 3 then s.fontWeight.Some? else if k == 4 then s.fontStyle.Some?
    else if k == 5 then s.maxLines.Some? else if k == 6 then s.textHeightBehavior.Some?
    else if k == 7 then s.fontFamily.Some? else if k == 8 then s.fontSize.Some?
    else if k == 9 then s.height.Some? else if k == 10 then s.strutStyle.Some?
    else if k == 11 then s.ellipsis.Some? else if k == 12 then s.locale.Some?
    else false
  }

  /** The presence mask of a paragraph-style encoding. */
  function ParagraphStyleMask(s: ParagraphStyleArgs): (m: Mask)
    ensures forall k: BitIndex :: k in m ==> 1 <= k <= 12
    ensures (1 in m <==> s.textAlign.Some?) && (2 in m <==> s.textDirection.Some?)
    ensures (3 in m <==> s.fontWeight.Some?) && (4 in m <==> s.fontStyle.Some?)
    ensures (5 in m <==> s.maxLines.Some?) && (6 in m <==> s.textHeightBehavior.Some?)
    ensures (7 in m <==> s.fontFamily.Some?) && (8 in m <==> s.fontSize.Some?)
    ensures (9 in m <==> s.height.Some?) && (10 in m <==> s.strutStyle.Some?)
    ensures (11 in m <==> s.ellipsis.Some?) && (12 in m <==> s.locale.Some?)
  {
    set k: BitIndex | ParagraphStyleFieldSet(s, k)
  }

  /** `_encodeParagraphStyle`: seven words, the presence mask then six payloads. */
  function EncodeParagraphStyle(s: ParagraphStyleArgs): (r: seq<Word>)
    ensures |r| == 7 && r[0] == MaskWord(ParagraphStyleMask(s))
    ensures s.textAlign.None? ==> r[1] == IntWord(0)
    ensures s.textDirection.None? ==> r[2] == IntWord(0)
    ensures s.fontWeight.None? ==> r[3] == IntWord(0)
    ensures s.fontStyle.None? ==> r[4] == IntWord(0)
    ensures r[5] == IntWord(s.maxLines.GetOr(0))
    // word 6 decodes back to the height behaviour
    ensures s.textHeightBehavior.Some? ==>
      r[6].IntWord? && HeightBehaviorFromEncoded(r[6].v) == s.textHeightBehavior.value
    ensures s.textHeightBehavior.None? ==> r[6] == IntWord(0)
  {
    [MaskWord(ParagraphStyleMask(s)),
     EnumSlot(s.textAlign),
     EnumSlot(s.textDirection),
     EnumSlot(s.fontWeight),
     EnumSlot(s.fontStyle),
     IntWord(s.maxLines.GetOr(0)),
     if s.textHeightBehavior.Some? then IntWord(EncodeHeightBehavior(s.textHeightBehavior.value)) else IntWord(0)]
  }

  // ---------------------------------------------------------------------------
  // Strut style: a variable-length byte encoding.

  datatype StrutArgs = StrutArgs(
    fontFamily: Option<Text16>,
    fontFamilyFallback: Option<seq<Text16>>,
    fontSize: Option<real>,
    height: Option<real>,
    leading: Option<real>,
    fontWeight: Option<nat>,
    fontStyle: Option<nat>,
    forceStrutHeight: Option<bool>)

  /** One byte of the strut encoding: the mask byte, a plain byte, or byte
      `part` of a float written by `setFloat`. */
  datatype StrutByte = MaskByte(bits: Mask) | PlainByte(b: Byte) | FloatByte(f: real, part: nat)

  const StrutBufferSize: int := 15

  /** The emptiness test: note that a fallback list alone does not count. */
  predicate StrutAllNull(a: StrutArgs) {
    a.fontFamily.None? && a.fontSize.None? && a.height.None? && a.leading.None? &&
    a.fontWeight.None? && a.fontStyle.None? && a.forceStrutHeight.None?
  }

  /** Whether bit k of the strut mask byte is set: bits 0-5 flag fontWeight,
      fontStyle, the font family, fontSize, height and leading; bit 6 flags
      forceStrutHeight and bit 7 holds its value. */
  predicate StrutBitSet(a: StrutArgs, k: int) {
    if k == 0 then a.fontWeight.Some? else if k == 1 then a.fontStyle.Some?
    else if k == 2 then FamilyPresent(a.fontFamily, a.fontFamilyFallback).Some?
    else if k == 3 then a.fontSize.Some? else if k == 4 then a.height.Some?
    else if k == 5 then a.leading.Some? else if k == 6 then a.forceStrutHeight.Some?
    else if k == 7 then a.forceStrutHeight == Some(true)
    else false
  }

  function StrutMask(a: StrutArgs): (m: Mask)
    ensures forall k: BitIndex :: k in m ==> k < 8
    ensures (0 in m <==> a.fontWeight.Some?) && (1 in m <==> a.fontStyle.Some?)
    ensures 2 in m <==> a.fontFamily.Some? || (a.fontFamilyFallback.Some? && |a.fontFamilyFallback.value| > 0)
    ensures (3 in m <==> a.fontSize.Some?) && (4 in m <==> a.height.Some?) && (5 in m <==> a.leading.Some?)
    ensures (6 in m <==> a.forceStrutHeight.Some?) && (7 in m <==> a.forceStrutHeight == Some(true))
  {
    set k: BitIndex | StrutBitSet(a, k)
  }

  function OptByte(o: Option<nat>): (r: seq<StrutByte>)
    ensures |r| == if o.Some? then 1 else 0
  {
    if o.Some? then [PlainByte(o.value % 0x100)] else []
  }

  function OptFloat(o: Option<real>): (r: seq<StrutByte>)
    ensures |r| == if o.Some? then 4 else 0
  {
    if o.Some? then [FloatByte(o.value, 0), FloatByte(o.value, 1), FloatByte(o.value, 2), FloatByte(o.value, 3)]
    else []
  }

  function Count(b: bool): nat { if b then 1 else 0 }

  /** `setFloat`'s debug assertion as written: `byteOffset + 4 < bytes.Length`. */
  predicate SetFloatCheckAsWritten(offset: int, length: int) { offset >= 0 && offset + 4 < length }

  /** The evidently intended bound: the four bytes fit, `byteOffset + 4 <= bytes.Length`. */
  predicate SetFloatCheck(offset: int, length: int) { offset >= 0 && offset + 4 <= length }

  /** The byte offsets at which fontSize, height and leading are written. */
  function FloatOffsets(a: StrutArgs): seq<int> {
    var sizeOff := 1 + Count(a.fontWeight.Some?) + Count(a.fontStyle.Some?);
    var heightOff := sizeOff + 4 * Count(a.fontSize.Some?);
    var leadingOff := heightOff + 4 * Count(a.height.Some?);
    (if a.fontSize.Some? then [sizeOff] else []) +
    (if a.height.Some? then [heightOff] else []) +
    (if a.leading.Some? then [leadingOff] else [])
  }

  datatype StrutError = SetFloatAssertion

  /** `_encodeStrut` with `setFloat`'s assertion as written. */
  function EncodeStrutAsWritten(a: StrutArgs): (r: Result<seq<StrutByte>, StrutError>)
    ensures r.Success? ==> r.value == EncodeStrut(a)
  {
    if !StrutAllNull(a) &&
       exists i | 0 <= i < |FloatOffsets(a)| :: !SetFloatCheckAsWritten(FloatOffsets(a)[i], StrutBufferSize)
    then Failure(SetFloatAssertion)
    else Success(EncodeStrut(a))
  }

  /** Every field present: the leading float goes at byte 11, and
      `11 + 4 < 15` fails although the bytes fit exactly. */
  lemma EncodeStrutAsWrittenFailsWhenFull()
    ensures var a := StrutArgs(None, None, Some(14.0), Some(1.0), Some(0.5), Some(4), Some(0), Some(true));
      FloatOffsets(a) == [3, 7, 11] &&
      EncodeStrutAsWritten(a) == Failure(SetFloatAssertion) &&
      |EncodeStrut(a)| == StrutBufferSize
  {
    var a := StrutArgs(None, None, Some(14.0), Some(1.0), Some(0.5), Some(4), Some(0), Some(true));
    assert !SetFloatCheckAsWritten(FloatOffsets(a)[2], StrutBufferSize);
  }

  /** `_encodeStrut`: empty when every checked field is null, otherwise the mask
      byte, one byte each for weight and style, four per float present. */
  function EncodeStrut(a: StrutArgs): (r: seq<StrutByte>)
    ensures StrutAllNull(a) ==> r == []
    ensures !StrutAllNull(a) ==>
      |r| == 1 + Count(a.fontWeight.Some?) + Count(a.fontStyle.Some?) +
             4 * (Count(a.fontSize.Some?) + Count(a.height.Some?) + Count(a.leading.Some?)) &&
      r[0] == MaskByte(StrutMask(a))
    ensures |r| <= StrutBufferSize
  {
    if StrutAllNull(a) then []
    else
      [MaskByte(StrutMask(a))] + OptByte(a.fontWeight) + OptByte(a.fontStyle) +
      OptFloat(a.fontSize) + OptFloat(a.height) + OptFloat(a.leading)
  }

  /** Under the intended bound every float of a strut encoding is written
      inside the buffer. */
  lemma StrutFloatsFit(a: StrutArgs)
    ensures forall i | 0 <= i < |FloatOffsets(a)| :: SetFloatCheck(FloatOffsets(a)[i], StrutBufferSize)
  {
  }

  /** What the native side reads back from a strut encoding. */
  datatype StrutSummary = StrutSummary(
    fontWeight: Option<Byte>, fontStyle: Option<Byte>, hasFamily: bool,
    fontSize: Option<real>, height: Option<real>, leading: Option<real>,
    forceStrutHeight: Option<bool>)

  function ReadByte(r: seq<StrutByte>, present: bool, at: nat): Option<Byte> {
    if present && at < |r| && r[at].PlainByte? then Some(r[at].b) else None
  }

  function ReadFloat(r: seq<StrutByte>, present: bool, at: nat): Option<real> {
    if present && at < |r| && r[at].FloatByte? then Some(r[at].f) else None
  }

  /** Walks a strut encoding the way the native reader does, guided by the mask. */
  function DecodeStrut(r: seq<StrutByte>): Option<StrutSummary> {
    if r == [] || !r[0].MaskByte? then None
    else
      var m := r[0].bits;
      var i1 := 1 + Count(0 in m);
      var i2 := i1 + Count(1 in m);
      var i3 := i2 + 4 * Count(3 in m);
      var i4 := i3 + 4 * Count(4 in m);
      Some(StrutSummary(ReadByte(r, 0 in m, 1), ReadByte(r, 1 in m, i1), 2 in m,
        ReadFloat(r, 3 in m, i2), ReadFloat(r, 4 in m, i3), ReadFloat(r, 5 in m, i4),
        if 6 in m then Some(7 in m) else None))
  }

  function OptLowByte(o: Option<nat>): Option<Byte> {
    if o.Some? then Some(o.value % 0x100) else None
  }

  /** Decoding a strut encoding recovers every field it carries. */
  lemma StrutRoundTrip(a: StrutArgs)
    requires !StrutAllNull(a)
    ensures DecodeStrut(EncodeStrut(a)) == Some(StrutSummary(
      OptLowByte(a.fontWeight), OptLowByte(a.fontStyle),
      FamilyPresent(a.fontFamily, a.fontFamilyFallback).Some?,
      a.fontSize, a.height, a.leading, a.forceStrutHeight))
  {
    var r := EncodeStrut(a);
    var m := StrutMask(a);
    assert r[0] == MaskByte(m);
    StrutBytesRead(a);
    StrutFloatsRead(a);
    assert (if 6 in m then Some(7 in m) else None) == a.forceStrutHeight by {
      if a.forceStrutHeight.Some? {
        assert (7 in m) == a.forceStrutHeight.value;
      }
    }
  }

  /** The two optional bytes of a strut encoding read back. */
  lemma StrutBytesRead(a: StrutArgs)
    requires !StrutAllNull(a)
    ensures var r := EncodeStrut(a);
            ReadByte(r, a.fontWeight.Some?, 1) == OptLowByte(a.fontWeight) &&
            ReadByte(r, a.fontStyle.Some?, 1 + Count(a.fontWeight.Some?)) == OptLowByte(a.fontStyle)
  {
    var r := EncodeStrut(a);
    var w, st := OptByte(a.fontWeight), OptByte(a.fontStyle);
    var p2 := [MaskByte(StrutMask(a))] + w + st;
    var p3 := p2 + OptFloat(a.fontSize);
    var p4 := p3 + OptFloat(a.height);
    assert r == p4 + OptFloat(a.leading);
    if a.fontWeight.Some? { assert r[1] == p4[1] == p3[1] == p2[1] == w[0]; }
    if a.fontStyle.Some? { assert r[1 + |w|] == p4[1 + |w|] == p3[1 + |w|] == p2[1 + |w|] == st[0]; }
  }

  /** The three optional floats of a strut encoding read back. */
  lemma StrutFloatsRead(a: StrutArgs)
    requires !StrutAllNull(a)
    ensures var r := EncodeStrut(a);
            var i2 := 1 + Count(a.fontWeight.Some?) + Count(a.fontStyle.Some?);
            var i3 := i2 + 4 * Count(a.fontSize.Some?);
            ReadFloat(r, a.fontSize.Some?, i2) == a.fontSize &&
            ReadFloat(r, a.height.Some?, i3) == a.height &&
            ReadFloat(r, a.leading.Some?, i3 + 4 * Count(a.height.Some?)) == a.leading
  {
    var r := EncodeStrut(a);
    var pre := [MaskByte(StrutMask(a))] + OptByte(a.fontWeight) + OptByte(a.fontStyle);
    var fs, hs, ls := OptFloat(a.fontSize), OptFloat(a.height), OptFloat(a.leading);
    assert r == pre + fs + hs + ls;
    if a.fontSize.Some? { assert r[|pre|] == (pre + fs + hs)[|pre|] == (pre + fs)[|pre|] == fs[0]; }
    if a.height.Some? { assert r[|pre| + |fs|] == (pre + fs + hs)[|pre| + |fs|] == hs[0]; }
    if a.leading.Some? { assert r[|pre| + |fs| + |hs|] == ls[0]; }
  }



  // ---------------------------------------------------------------------------
  // TextBox and TextRange

  datatype TextDirection = Rtl | Ltr

  datatype TextBox = TextBox(left: real, top: real, right: real, bottom: real, direction: TextDirection)

  function BoxStart(b: TextBox): real { if b.direction == Ltr then b.left else b.right }
  function BoxEnd(b: TextBox): real { if b.direction == Ltr then b.right else b.left }

  /** Start and end are the two horizontal edges, swapped by the direction. */
  lemma BoxStartEndEdges(b: TextBox)
    ensures {BoxStart(b), BoxEnd(b)} == {b.left, b.right}
    ensures BoxStart(b.(direction := Rtl)) == BoxEnd(b.(direction := Ltr))
    ensures BoxEnd(b.(direction := Rtl)) == BoxStart(b.(direction := Ltr))
  {
  }

  /** A range of code-unit offsets; (-1, -1) is "no range". */
  datatype TextRange = TextRange(start: int, end: int)

  /** The constructor asserts both ends are at least -1. */
  predicate WellFormedRange(r: TextRange) { r.start >= -1 && r.end >= -1 }

  function EmptyRange(): TextRange { TextRange(-1, -1) }
  predicate IsValidRange(r: TextRange) { r.start >= 0 && r.end >= 0 }
  predicate IsCollapsed(r: TextRange) { r.start == r.end }
  predicate IsNormalized(r: TextRange) { r.end >= r.start }

  function Collapsed(offset: int): (r: TextRange)
    requires offset >= -1
    ensures WellFormedRange(r) && IsCollapsed(r) && IsNormalized(r)
    ensures IsValidRange(r) <==> offset >= 0
  {
    TextRange(offset, offset)
  }

  lemma EmptyRangeIsInvalid()
    ensures WellFormedRange(EmptyRange()) && !IsValidRange(EmptyRange()) && IsCollapsed(EmptyRange())
  {
  }

  datatype SubstringError = ArgumentOutOfRange

  /** `textBefore`: `text.Substring(0, start)`. */
  function TextBefore(r: TextRange, text: Text16): (s: Result<Text16, SubstringError>)
    requires IsNormalized(r)
    ensures s.Success? <==> 0 <= r.start <= |text|
    ensures s.Success? ==> |s.value| == r.start && text == s.value + text[r.start..]
  {
    if 0 <= r.start <= |text| then Success(text[..r.start]) else Failure(ArgumentOutOfRange)
  }

  /** `textAfter`: `text.Substring(end)`. */
  function TextAfter(r: TextRange, text: Text16): (s: Result<Text16, SubstringError>)
    requires IsNormalized(r)
    ensures s.Success? <==> 0 <= r.end <= |text|
    ensures s.Success? ==> |s.value| == |text| - r.end && text == text[..r.end] + s.value
  {
    if 0 <= r.end <= |text| then Success(text[r.end..]) else Failure(ArgumentOutOfRange)
  }

  /** `textInside`: `text.Substring(start, end - start)`. */
  function TextInside(r: TextRange, text: Text16): (s: Result<Text16, SubstringError>)
    requires IsNormalized(r)
    ensures s.Success? <==> 0 <= r.start && r.end <= |text|
    ensures s.Success? ==> |s.value| == r.end - r.start
    ensures s.Success? ==> forall i | 0 <= i < |s.value| :: s.value[i] == text[r.start + i]
  {
    if 0 <= r.start && r.end <= |text| then Success(text[r.start..r.end]) else Failure(ArgumentOutOfRange)
  }

  /** For a valid normalized range inside the text, the three pieces succeed
      and reassemble the text. */
  lemma RangeSplitsText(r: TextRange, text: Text16)
    requires IsValidRange(r) && IsNormalized(r) && r.end <= |text|
    ensures TextBefore(r, text).Success? && TextInside(r, text).Success? && TextAfter(r, text).Success?
    ensures TextBefore(r, text).value + TextInside(r, text).value + TextAfter(r, text).value == text
  {
    assert text[..r.start] + text[r.start..r.end] + text[r.end..] == text;
  }
}
