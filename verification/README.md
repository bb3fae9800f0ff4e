# UIWidgets core rules in Dafny

This project models the deterministic rules at the bottom of UIWidgets, a C#
port of Flutter for Unity, and of its C++ embedding API, and proves what
those rules promise. Everything is stated as pure functions over immutable
datatypes. The source's linked lists, trees and dictionaries become
sequences, parent maps and maps tied together by explicit invariants.

One Dafny module models one source file or component:

- `Painting` (ui/painting.cs): 32-bit ARGB colours, channel getters and `withX`, `alphaBlend`, the XOR-with-default `Paint` data buffer, and the argument checks of gradients, vertices, atlases and raw points. It also covers the 16-byte shadow wire format.
- `Text` (ui2/text.cs): `FontFeature` encoding and `TextDecoration` masks. It also covers `TextHeightBehavior`'s two-bit code, the presence-bitmask encoders for text, paragraph and strut styles, `TextBox` edges and `TextRange` slicing.
- `Box` (rendering/box.cs): `BoxConstraints`, over the reals extended with +infinity.
- `RenderObjects` (rendering/object.cs): relayout boundaries, the layout, paint and compositing dirty flags, the compositing-bits update, the depth-ordered layout flush and the `getTransformTo` chain.
- `Layers` (rendering/layer.cs): `ContainerLayer`'s doubly linked child list, the pre-order walk, the add-to-scene flag and the annotation search.
- `Viewport` (rendering/viewport.cs): paint and hit-test order around the center sliver, child labels, scroll offsets and the out-of-band extents.
- `ProxyBox` (rendering/proxy_box.cs): the hit-test behaviours, the ignore, absorb and offstage boxes, the limited box, the intrinsic-width step, the opacity compositing rule and the clipper's reclip rule.
- `Editable` (rendering/editable.cs) and `EditableText` (widgets/editable_text.cs) handle text editing on UTF-16 code units. They cover caret movement across surrogate pairs, shift selection, cut/copy/paste/select-all, forward delete and word search. They also cover the controller's setters, composing spans, obscured text, input actions, the formatter pipeline and the toolbar flags.
- `Framework` (widgets/framework.cs): `canUpdate`, the dirty-element order, the keyed diff `updateChildren`, the build owner's dirty list, depths, global keys, inactive elements and the creator chain.
- `Basic` (widgets/basic.cs): `Positioned` and its directional forms, parent-data application, the flex direction rule, the intrinsic-width step, `RepaintBoundary`/`KeyedSubtree` keys and `LayoutUtils`.
- `WidgetInspector` (widgets/widget_inspector.cs): the reference-counted id registry with its groups, the selection, the hit ordering and location ids.
- `Diagnostics` (foundation/diagnostics.cs): `describeEnum`, `shortHash`, a property's description, level and filtering, and the string, flag, object-flag, enumerable and flags-summary properties.
- `SlotMaps` and `Chip` (material/chip.cs): the slot/child dictionaries shared with the input decorator, plus the chip's enable, tap, child-order and hit rules.
- `InputDecorator` (material2/input_decorator.cs): `copyWith`, `applyDefaults`, label, hint, border, counter, the helper/error animation, the border gap and the child slots.
- `TimePicker` (material/time_picker.cs), `MaterialDatePicker` (material2/date_picker.cs) and `CupertinoDatePicker` (cupertino/date_picker.cs) hold the calendar and clock arithmetic.
- `NavBar` (cupertino/nav_bar.cs): the navigation bar's static components and the back label.
- `Embedder` (engine/src/shell/platform/embedder/embedder.cc): renderer validation, pointer-event conversion, and the argument checks of the metrics, texture, platform-message and locale calls.
- `Wrappers`, `Utf16` and `CSharpInt` are shared helpers: `Option`/`Result`, UTF-16 code units, and C#'s truncating `%`.

## Model

| member | source | states |
|---|---|---|
| Painting.MakeColor | com.unity.uiwidgets/Runtime/ui/painting.cs:153-155 | a colour keeps exactly the low 32 bits of its argument: equal to it when it already fits, congruent to it modulo 2^32 otherwise |
| Painting.ChannelsAreBytes | com.unity.uiwidgets/Runtime/ui/painting.cs:181-199 | the four channel getters each yield a value in 0..255 |
| Painting.PackUnpack | com.unity.uiwidgets/Runtime/ui/painting.cs:163-169 | four bytes packed as ARGB fit in 32 bits and the shifts and masks of the getters recover each byte |
| Painting.FromARGB | com.unity.uiwidgets/Runtime/ui/painting.cs:163-169 | reading back a colour made from (a, r, g, b) gives the low byte of each argument on the matching channel |
| Painting.ChannelsDetermineColor | com.unity.uiwidgets/Runtime/ui/painting.cs:163-199 | rebuilding a colour from its own four channels gives the same colour (unpack is a left inverse of pack) |
| Painting.ColorExtensionality | com.unity.uiwidgets/Runtime/ui/painting.cs:181-199 | two colours whose four channels agree are the same colour |
| Painting.WithAlpha | com.unity.uiwidgets/Runtime/ui/painting.cs:201-203 | the alpha channel becomes the low byte of the argument and red, green and blue are unchanged |
| Painting.WithRed | com.unity.uiwidgets/Runtime/ui/painting.cs:209-211 | red becomes the low byte of the argument; the other three channels are unchanged |
| Painting.WithGreen | com.unity.uiwidgets/Runtime/ui/painting.cs:213-215 | green becomes the low byte of the argument; the other three channels are unchanged |
| Painting.WithBlue | com.unity.uiwidgets/Runtime/ui/painting.cs:217-219 | blue becomes the low byte of the argument; the other three channels are unchanged |
| Painting.WithOwnAlphaIsIdentity | com.unity.uiwidgets/Runtime/ui/painting.cs:201-203 | setting a colour's alpha to its current alpha returns the same colour |
| Painting.AlphaBlend | com.unity.uiwidgets/Runtime/ui/painting.cs:257-286 | a transparent foreground returns the background; over an opaque background the result is opaque; otherwise the result alpha is alpha + backAlpha*(255-alpha)/255 and is never 0 |
| Painting.AlphaBlendChannelsBetween | com.unity.uiwidgets/Runtime/ui/painting.cs:257-286 | for a visible foreground every colour channel of the blend lies between the foreground's and the background's value of that channel |
| Painting.ZeroPaint | com.unity.uiwidgets/Runtime/ui/painting.cs:409-450 | a fresh paint buffer is well formed and every int and float slot is zero |
| Painting.SlotOffsetsAligned | com.unity.uiwidgets/Runtime/ui/painting.cs:81-107 | each field slot's byte offset is a multiple of 4 and its four bytes lie inside the 56-byte buffer |
| Painting.SetInt | com.unity.uiwidgets/Runtime/ui/painting.cs:88-93 | writing an int slot sets exactly that slot and leaves every other int slot and every float slot alone |
| Painting.SetFloat | com.unity.uiwidgets/Runtime/ui/painting.cs:102-107 | writing a float slot sets exactly that slot and leaves every other float slot and every int slot alone |
| Painting.XorColorDefault | com.unity.uiwidgets/Runtime/ui/painting.cs:466-479 | XOR with 0xFF000000 complements the top byte and keeps the low 24 bits |
| Painting.XorColorDefaultInvolution | com.unity.uiwidgets/Runtime/ui/painting.cs:466-479 | encoding a colour word twice gives it back |
| Painting.SetIsAntiAlias | com.unity.uiwidgets/Runtime/ui/painting.cs:458-464 | after setting isAntiAlias the getter returns the value set |
| Painting.SetPaintColor | com.unity.uiwidgets/Runtime/ui/painting.cs:466-479 | after setting the colour the getter returns that colour |
| Painting.SetPaintBlendMode | com.unity.uiwidgets/Runtime/ui/painting.cs:481-492 | after setting the blend mode the getter returns that mode |
| Painting.SetStrokeMiterLimit | com.unity.uiwidgets/Runtime/ui/painting.cs:526-534 | after setting the miter limit the getter, which adds the default 4.0 back, returns the value set |
| Painting.PaintMaskFilter | com.unity.uiwidgets/Runtime/ui/painting.cs:536-550 | the mask filter reads as present exactly when the stored type is blur |
| Painting.SetPaintMaskFilter | com.unity.uiwidgets/Runtime/ui/painting.cs:536-565 | after setting a mask filter the getter returns it; clearing it writes type 0, style 0 and sigma 0 |
| Painting.SetInvertColors | com.unity.uiwidgets/Runtime/ui/painting.cs:639-642 | after setting invertColors the getter returns the value set |
| Painting.SetDither | com.unity.uiwidgets/Runtime/ui/painting.cs:644-647 | after setting dither the getter returns the value set |
| Painting.ZeroPaintDefaults | com.unity.uiwidgets/Runtime/ui/painting.cs:458-565 | an all-zero buffer reads as anti-aliased, opaque black, srcOver, miter limit 4, no mask filter, no inversion and no dithering |
| Painting.SetColorKeepsOtherFields | com.unity.uiwidgets/Runtime/ui/painting.cs:466-479 | setting the colour leaves every other readable field of the paint as it was |
| Painting.ValidateColorStops | com.unity.uiwidgets/Runtime/ui/painting.cs:2129-2140 | rejects exactly: no stops with a colour count other than 2, or stops whose count differs from the colour count |
| Painting.ValidateRawPoints | com.unity.uiwidgets/Runtime/ui/painting.cs:2586-2590 | accepts exactly the coordinate lists of even length |
| Painting.ValidateAtlas | com.unity.uiwidgets/Runtime/ui/painting.cs:2609-2629 | accepts exactly when transforms and rects have equal counts and the colour list is empty or as long as the rects |
| Painting.ValidateRawAtlas | com.unity.uiwidgets/Runtime/ui/painting.cs:2668-2690 | acceptance implies equal lengths, a multiple of four and one colour per four floats; equal lengths with colours*4 == rects are accepted |
| Painting.CheckVerticesArgs | com.unity.uiwidgets/Runtime/ui/painting.cs:2229-2235 | passes exactly when the optional lists match the positions' count and every index is a valid position; failures are argument errors |
| Painting.VerticesAsWritten | com.unity.uiwidgets/Runtime/ui/painting.cs:2222-2259 | the constructor as written can only succeed when texture coordinates, colours and indices are all given |
| Painting.VerticesAsWrittenRejectsOmittedArrays | com.unity.uiwidgets/Runtime/ui/painting.cs:2237-2256 | a triangle list with no optional arrays fails with a null dereference |
| Painting.Vertices | com.unity.uiwidgets/Runtime/ui/painting.cs:2222-2259 | succeeds exactly for valid arguments; the encoded lengths are 2 floats per position and per texture coordinate, one word per colour, one entry per index, and 0 for an omitted list |
| Painting.VerticesAgreesWhenAllPresent | com.unity.uiwidgets/Runtime/ui/painting.cs:2222-2259 | wherever the constructor as written succeeds, the corrected one gives the same result |
| Painting.ShadowWords | com.unity.uiwidgets/Runtime/ui/painting.cs:3031-3043 | a shadow occupies four words |
| Painting.ShadowRoundTrip | com.unity.uiwidgets/Runtime/ui/painting.cs:3031-3043 | decoding a shadow's four words gives the shadow back |
| Painting.EncodeShadows | com.unity.uiwidgets/Runtime/ui/painting.cs:3019-3047 | a null list encodes to nothing; otherwise 16 bytes per entry, a null entry's bytes stay zero, and entry i's colour XOR 0xFF000000, dx, dy and blur radius sit at byte 16*i onwards |
| Painting.LerpList | com.unity.uiwidgets/Runtime/ui/painting.cs:3003-3007 | null only when both lists are null; otherwise as long as the longer list, a null list counting as empty |
| Painting.LerpSeqs | com.unity.uiwidgets/Runtime/ui/painting.cs:3008-3016 | the result is as long as the longer of the two lists |
| Painting.LerpSeqsEntries | com.unity.uiwidgets/Runtime/ui/painting.cs:3009-3015 | every entry of the result: the common prefix is interpolated pair by pair, leftover entries of the first list are scaled by 1 - t and those of the second by t |
| Text.TagCheckAsWrittenIsVacuous | com.unity.uiwidgets/Runtime/ui2/text.cs:140-148 | the check as written accepts the tag of four spaces, which the intended printable-ASCII check rejects, while both accept "liga" |
| Text.TagCheckAsWrittenAcceptsEverything | com.unity.uiwidgets/Runtime/ui2/text.cs:140-148 | the check as written holds for every tag, so it can never fire |
| Text.LittleEndianBytes | com.unity.uiwidgets/Runtime/ui2/text.cs:153-156 | the four bytes `(byte)(value >> 8k)` read little-endian give the value modulo 2^32 |
| Text.EncodeFontFeature | com.unity.uiwidgets/Runtime/ui2/text.cs:139-157 | eight bytes for any four-unit tag: each tag character cut to its low byte, then the value as a little-endian 32-bit word |
| Text.TagCheckKeepsTag | com.unity.uiwidgets/Runtime/ui2/text.cs:139-151 | a printable-ASCII tag comes through the byte cast unchanged |
| Text.WideTagTruncates | com.unity.uiwidgets/Runtime/ui2/text.cs:149-151 | a tag character above 0xFF loses its high bits, so a tag starting with U+0161 encodes like one starting with "a" |
| Text.FontFeatureRoundTrip | com.unity.uiwidgets/Runtime/ui2/text.cs:139-157 | decoding an encoded feature with a printable-ASCII tag and a 32-bit value gives the feature back |
| Text.Contains | com.unity.uiwidgets/Runtime/ui2/text.cs:242-244 | `a.contains(b)` holds exactly when b's bits are a subset of a's |
| Text.Combine | com.unity.uiwidgets/Runtime/ui2/text.cs:233-240 | the combined decoration contains every listed one |
| Text.CombineBitSource | com.unity.uiwidgets/Runtime/ui2/text.cs:233-240 | every bit of the combination comes from some listed decoration |
| Text.CombineIsLeast | com.unity.uiwidgets/Runtime/ui2/text.cs:233-244 | any decoration containing every listed one contains their combination, so it is the least upper bound |
| Text.CombineIgnoresOrderAndRepetition | com.unity.uiwidgets/Runtime/ui2/text.cs:233-240 | two lists with the same members combine to the same decoration: combine is commutative and idempotent |
| Text.EncodeHeightBehavior | com.unity.uiwidgets/Runtime/ui2/text.cs:335-337 | the encoding lies in 0..3 and is 0 exactly for the default behaviour |
| Text.HeightBehaviorRoundTrip | com.unity.uiwidgets/Runtime/ui2/text.cs:331-337 | `fromEncoded(x.encode())` is x |
| Text.HeightBehaviorLowBits | com.unity.uiwidgets/Runtime/ui2/text.cs:331-337 | decoding reads only the two low bits: re-encoding a decoded word gives it modulo 4 |
| Text.TextStyleMask | com.unity.uiwidgets/Runtime/ui2/text.cs:403-493 | bit k of the text-style mask (k in 1..18) is set exactly when the k-th field is non-null, the family bit also by a non-empty fallback list |
| Text.EncodeTextStyle | com.unity.uiwidgets/Runtime/ui2/text.cs:382-494 | eight words, the presence mask first; the payload word of an absent inline field keeps the array default 0 |
| Text.TextStyleInlineRoundTrip | com.unity.uiwidgets/Runtime/ui2/text.cs:382-494 | reading the eight words back recovers every inline field (colours, decoration mask, style, weight, font style, baseline) and its absence |
| Text.ParagraphStyleMask | com.unity.uiwidgets/Runtime/ui2/text.cs:510-571 | bit k of the paragraph-style mask (k in 1..12) is set exactly when the k-th field is non-null |
| Text.EncodeParagraphStyle | com.unity.uiwidgets/Runtime/ui2/text.cs:496-572 | seven words, mask first; word 5 is maxLines or 0; word 6 decodes back to the height behaviour when one is given and is 0 otherwise |
| Text.StrutMask | com.unity.uiwidgets/Runtime/ui2/text.cs:591-641 | bits 0..5 mark the present strut fields; bit 6 marks forceStrutHeight and bit 7 carries its value |
| Text.EncodeStrutAsWritten | com.unity.uiwidgets/Runtime/ui2/text.cs:574-647 | whenever the encoder with `setFloat`'s written assertion succeeds, it returns the intended encoding |
| Text.EncodeStrutAsWrittenFailsWhenFull | com.unity.uiwidgets/Runtime/ui2/text.cs:574-636 | with every field given, the last float goes at byte 11 and the written assertion `11 + 4 < 15` fails though the 15 bytes hold it exactly |
| Text.EncodeStrut | com.unity.uiwidgets/Runtime/ui2/text.cs:582-647 | empty when every checked field is null; otherwise 1 + [weight] + [style] + 4 per float present bytes with the mask byte first, never more than 15 |
| Text.StrutFloatsFit | com.unity.uiwidgets/Runtime/ui2/text.cs:574-580 | under the bound `byteOffset + 4 <= length`, every float a strut encoding writes lies inside the 15-byte buffer |
| Text.StrutRoundTrip | com.unity.uiwidgets/Runtime/ui2/text.cs:582-647 | decoding a non-empty strut encoding recovers weight, style, family presence, size, height, leading and forceStrutHeight |
| Text.BoxStartEndEdges | com.unity.uiwidgets/Runtime/ui2/text.cs:1133-1139 | start and end are the two horizontal edges, and flipping the direction swaps them |
| Text.Collapsed | com.unity.uiwidgets/Runtime/ui2/text.cs:1272-1299 | `collapsed(o)` is collapsed and normalized, and valid exactly when o >= 0 |
| Text.EmptyRangeIsInvalid | com.unity.uiwidgets/Runtime/ui2/text.cs:1258-1278 | the empty range (-1, -1) is collapsed but not valid |
| Text.TextBefore | com.unity.uiwidgets/Runtime/ui2/text.cs:1301-1304 | succeeds exactly when start lies in the text and returns the prefix of that length |
| Text.TextAfter | com.unity.uiwidgets/Runtime/ui2/text.cs:1306-1309 | succeeds exactly when end lies in the text and returns the suffix after it |
| Text.TextInside | com.unity.uiwidgets/Runtime/ui2/text.cs:1311-1314 | succeeds exactly when the range lies in the text and returns the characters from start to end |
| Text.RangeSplitsText | com.unity.uiwidgets/Runtime/ui2/text.cs:1301-1314 | for a valid normalized range inside the text, before ++ inside ++ after is the text |
| Box.Clamp | com.unity.uiwidgets/Runtime/rendering/box.cs:137-183 | for lo <= hi the result lies in [lo, hi]; a value already inside is returned unchanged; the result is always the value or one of the bounds |
| Box.ClampMonotone | com.unity.uiwidgets/Runtime/rendering/box.cs:175-183 | clamping to a fixed interval preserves order |
| Box.Tight | com.unity.uiwidgets/Runtime/rendering/box.cs:42-49 | `tight(size)` is tight and is satisfied by that size and no other |
| Box.TightFor | com.unity.uiwidgets/Runtime/rendering/box.cs:51-61 | a given dimension is pinned (min = max = value); an omitted one ranges over 0..infinity |
| Box.TightForFinite | com.unity.uiwidgets/Runtime/rendering/box.cs:63-73 | `tightForFinite` is `tightFor` with every infinite argument treated as omitted |
| Box.Loose | com.unity.uiwidgets/Runtime/rendering/box.cs:75-82 | satisfied exactly by the sizes between zero and the given size on each axis |
| Box.Expand | com.unity.uiwidgets/Runtime/rendering/box.cs:84-94 | tight, at the given dimension or infinity when omitted |
| Box.CopyWith | com.unity.uiwidgets/Runtime/rendering/box.cs:96-108 | every given bound replaces the old one; with nothing given the constraints are unchanged |
| Box.Deflate | com.unity.uiwidgets/Runtime/rendering/box.cs:110-123 | deflating normalized constraints keeps them normalized (minima >= 0, each max >= its min) and keeps each maximum infinite exactly when it was |
| Box.Loosen | com.unity.uiwidgets/Runtime/rendering/box.cs:125-133 | both minima become 0, both maxima are kept, and the result is normalized |
| Box.LoosenAdmitsMore | com.unity.uiwidgets/Runtime/rendering/box.cs:125-133 | every size that satisfied the constraints satisfies the loosened ones |
| Box.Enforce | com.unity.uiwidgets/Runtime/rendering/box.cs:135-142 | every bound of `c.enforce(d)` lies within d's range on the same axis |
| Box.EnforceNormalized | com.unity.uiwidgets/Runtime/rendering/box.cs:135-142 | enforcing normalized constraints on normalized ones stays normalized, and whatever satisfies the result satisfies d |
| Box.EnforceInside | com.unity.uiwidgets/Runtime/rendering/box.cs:135-142 | constraints already inside d are left unchanged by enforcing d |
| Box.Tighten | com.unity.uiwidgets/Runtime/rendering/box.cs:144-154 | a given width pins min = max = clamp(width, minWidth, maxWidth), likewise height; an omitted axis is untouched; normalization is kept |
| Box.Flipped | com.unity.uiwidgets/Runtime/rendering/box.cs:156-165 | the flipped constraints admit exactly the transposed sizes |
| Box.FlippedInvolution | com.unity.uiwidgets/Runtime/rendering/box.cs:156-165 | flipping twice is the identity and flipping preserves normalization |
| Box.WidthConstraints | com.unity.uiwidgets/Runtime/rendering/box.cs:167-169 | admits exactly the sizes whose width the original admits, with any non-negative height |
| Box.HeightConstraints | com.unity.uiwidgets/Runtime/rendering/box.cs:171-173 | admits exactly the sizes whose height the original admits, with any non-negative width |
| Box.ConstrainWidth | com.unity.uiwidgets/Runtime/rendering/box.cs:175-178 | the result lies within the width bounds, and an admissible width is returned unchanged |
| Box.ConstrainHeight | com.unity.uiwidgets/Runtime/rendering/box.cs:180-183 | the result lies within the height bounds, and an admissible height is returned unchanged |
| Box.Constrain | com.unity.uiwidgets/Runtime/rendering/box.cs:197-205 | for normalized constraints `isSatisfiedBy(constrain(s))` holds, and a size that already satisfies them is returned unchanged |
| Box.ConstrainIdempotent | com.unity.uiwidgets/Runtime/rendering/box.cs:197-205 | constraining twice is constraining once |
| Box.Biggest | com.unity.uiwidgets/Runtime/rendering/box.cs:255-257 | satisfies the constraints and is at least as large as every admissible size on both axes |
| Box.Smallest | com.unity.uiwidgets/Runtime/rendering/box.cs:259-261 | satisfies the constraints and is at most as large as every admissible size on both axes |
| Box.TightAdmitsOnlySmallest | com.unity.uiwidgets/Runtime/rendering/box.cs:259-273 | tight normalized constraints admit exactly one size, the smallest |
| Box.Normalize | com.unity.uiwidgets/Runtime/rendering/box.cs:483-497 | the result is normalized, is the identity on normalized constraints, and keeps a non-negative minimum |
| Box.NormalizeIdempotent | com.unity.uiwidgets/Runtime/rendering/box.cs:483-497 | normalizing twice is normalizing once |
| Box.ConstrainPreservingAspect | com.unity.uiwidgets/Runtime/rendering/box.cs:211-253 | the result satisfies the constraints; tight constraints give the smallest size; an admissible size is returned unchanged |
| RenderObjects.PathUp | com.unity.uiwidgets/Runtime/rendering/object.cs:770-780 | the walk from a node upward starts at the node, follows parent links and ends at a node without a parent |
| RenderObjects.ChooseRelayoutBoundary | com.unity.uiwidgets/Runtime/rendering/object.cs:866-872 | the node is its own boundary exactly when its parent ignores its size, it is sized by its parent, the constraints are tight or there is no parent boundary; otherwise it inherits its parent's |
| RenderObjects.Layout | com.unity.uiwidgets/Runtime/rendering/object.cs:848-966 | layout is skipped exactly when the node is clean with the same constraints and boundary; otherwise it ends clean with the new constraints and boundary, cleaning its children's boundaries only when a previously set boundary moved |
| RenderObjects.LayoutSettles | com.unity.uiwidgets/Runtime/rendering/object.cs:879-897 | laying out a second time with the same arguments is skipped |
| RenderObjects.MarkNeedsLayout | com.unity.uiwidgets/Runtime/rendering/object.cs:742-780 | a dirty node is left alone; otherwise only nodes that share the node's boundary get marked, the node ends dirty, at most the boundary is enqueued (always when the node is its own boundary), and "every dirty node's boundary is dirty and queued" is preserved |
| RenderObjects.NearestRepaintBoundary | com.unity.uiwidgets/Runtime/rendering/object.cs:1134-1176 | the result is a repaint boundary, and a repaint boundary is its own nearest one |
| RenderObjects.PaintPath | com.unity.uiwidgets/Runtime/rendering/object.cs:1134-1176 | every node on the path up to the nearest repaint boundary shares that boundary |
| RenderObjects.MarkNeedsPaint | com.unity.uiwidgets/Runtime/rendering/object.cs:1134-1176 | a dirty node is left alone; otherwise exactly the clean path up to the nearest repaint boundary is marked, that boundary is enqueued if it exists, at most one visual update is requested, and "every dirty node reaches a queued boundary" is preserved |
| RenderObjects.MarkNeedsCompositingBitsUpdate | com.unity.uiwidgets/Runtime/rendering/object.cs:1054-1085 | a flagged node is left alone; otherwise only ancestors get flagged, the queue grows by at most one, the walk continues through a parent while neither is a repaint boundary, and upward-closed flags stay upward closed |
| RenderObjects.UpdateCompositingBits | com.unity.uiwidgets/Runtime/rendering/object.cs:1096-1119 | an unflagged node is untouched; a flagged node ends unflagged with its bit equal to "a child composites, or it is a repaint boundary or always composites", and a node whose bit changes is reported for repaint |
| RenderObjects.UpdateChildren | com.unity.uiwidgets/Runtime/rendering/object.cs:1103-1108 | every child is updated, in order, and the list keeps its length |
| RenderObjects.UpdateKeepsSettled | com.unity.uiwidgets/Runtime/rendering/object.cs:1096-1119 | updating a settled tree leaves it settled, unflagged and locally consistent |
| RenderObjects.InsertByDepth | com.unity.uiwidgets/Runtime/rendering/object.cs:453 | inserting into a depth-sorted list keeps it sorted |
| RenderObjects.InsertByDepthPermutes | com.unity.uiwidgets/Runtime/rendering/object.cs:453 | insertion adds exactly the one element (multiset equality) |
| RenderObjects.FlushOrder | com.unity.uiwidgets/Runtime/rendering/object.cs:453 | the dirty list is ordered by non-decreasing depth, parents before children |
| RenderObjects.FlushOrderPermutes | com.unity.uiwidgets/Runtime/rendering/object.cs:453 | the sorted dirty list is a permutation of the dirty list |
| RenderObjects.KeepDirty | com.unity.uiwidgets/Runtime/rendering/object.cs:454-458 | keeps exactly the nodes still dirty, stays sorted, and nothing kept is shallower than the first node |
| RenderObjects.FlushLayoutRound | com.unity.uiwidgets/Runtime/rendering/object.cs:443-466 | a round lays out exactly the dirty-list nodes that still need layout, in depth order |
| RenderObjects.SetRootNode | com.unity.uiwidgets/Runtime/rendering/object.cs:415-431 | the root becomes the value; setting the same value detaches and attaches nothing; a new value detaches the old root and attaches the new one |
| RenderObjects.WalkUpTo | com.unity.uiwidgets/Runtime/rendering/object.cs:1330-1333 | a successful walk is a parent chain that starts at the node and stops just below the target (empty when the node is the target) |
| RenderObjects.ChainPairs | com.unity.uiwidgets/Runtime/rendering/object.cs:1337-1339 | one (parent, child) pair per adjacent pair of the chain, from the top downward |
| RenderObjects.TransformPairs | com.unity.uiwidgets/Runtime/rendering/object.cs:1318-1342 | every pair is a real (parent, child) link, consecutive pairs chain together, and for a proper ancestor the pairs run from that ancestor down to the node |
| Layers.Append | com.unity.uiwidgets/Runtime/rendering/layer.cs:543-569 | the appended child becomes the last child, and the first child too when the list was empty |
| Layers.AppendRepresents | com.unity.uiwidgets/Runtime/rendering/layer.cs:543-569 | appending a new child to a doubly linked list that represents s gives one that represents s + [c] |
| Layers.RemoveChild | com.unity.uiwidgets/Runtime/rendering/layer.cs:571-605 | the removed child keeps no sibling links |
| Layers.RemoveChildRepresents | com.unity.uiwidgets/Runtime/rendering/layer.cs:571-605 | removing the k-th child of a list representing s gives one representing s without its k-th element |
| Layers.RemoveAllChildren | com.unity.uiwidgets/Runtime/rendering/layer.cs:607-620 | the list becomes empty and no layer keeps a sibling link |
| Layers.ReplaceWithRepresents | com.unity.uiwidgets/Runtime/rendering/layer.cs:189-231 | replacing the k-th child by a new layer gives a list representing s with position k replaced |
| Layers.WalkFollowsRepresents | com.unity.uiwidgets/Runtime/rendering/layer.cs:645-660 | following next-sibling links from the k-th child visits exactly s[k..] |
| Layers.DepthFirstIterateChildren | com.unity.uiwidgets/Runtime/rendering/layer.cs:645-660 | the pre-order walk lists one entry per descendant, each of them a descendant |
| Layers.IterateFrom | com.unity.uiwidgets/Runtime/rendering/layer.cs:651-657 | each child is listed, then its own subtree, then the following siblings |
| Layers.IterateVisitsAll | com.unity.uiwidgets/Runtime/rendering/layer.cs:645-660 | every descendant appears in the walk |
| Layers.UpdateSubtreeNeedsAddToScene | com.unity.uiwidgets/Runtime/rendering/layer.cs:489-497 | every child is updated, and a container needs adding exactly when it did, always does, or some updated child does |
| Layers.UpdateFlagIffSubtree | com.unity.uiwidgets/Runtime/rendering/layer.cs:489-497 | after the update a layer needs adding exactly when some layer in its subtree needed it or always needs it |
| Layers.FindAnnotations | com.unity.uiwidgets/Runtime/rendering/layer.cs:1693-1709 | the search only appends to the entries; with onlyFirst it adds at most one and nothing once there is one; it reports absorption only where an opaque hit region exists |
| Layers.FindInChildren | com.unity.uiwidgets/Runtime/rendering/layer.cs:500-514 | the children are asked from last to first with the same append-only and onlyFirst bounds, absorbing only through an absorbing child |
| Layers.FullSearchCollectsAll | com.unity.uiwidgets/Runtime/rendering/layer.cs:500-520 | without any absorbing region, the full search collects every matching annotation under the position, in child-last-first order |
| Viewport.ChildrenInPaintOrder | com.unity.uiwidgets/Runtime/rendering/viewport.cs:1178-1200 | the children before the center in order, then from the last child back to the center; every child exactly once |
| Viewport.ChildrenInHitTestOrder | com.unity.uiwidgets/Runtime/rendering/viewport.cs:1202-1220 | the center and the children after it in order, then the children before the center from nearest to first |
| Viewport.HitTestOrderReversesPaintOrder | com.unity.uiwidgets/Runtime/rendering/viewport.cs:1178-1220 | hit-test order is exactly paint order reversed |
| Viewport.IndexOfFirstChild | com.unity.uiwidgets/Runtime/rendering/viewport.cs:1154-1168 | the first child's index is minus the number of children before the center |
| Viewport.LabelForChild | com.unity.uiwidgets/Runtime/rendering/viewport.cs:1170-1176 | index 0 and only index 0 is labelled "center child"; any other index is "child " followed by its decimal form |
| Viewport.ShrinkWrappingLabelForChild | com.unity.uiwidgets/Runtime/rendering/viewport.cs:1460-1462 | every index is labelled "child " followed by its decimal form |
| Viewport.DefaultCenter | com.unity.uiwidgets/Runtime/rendering/viewport.cs:754-758 | a given center is kept; otherwise the first child is the center when there is one |
| Viewport.ShrinkWrappingOrders | com.unity.uiwidgets/Runtime/rendering/viewport.cs:1465-1483 | paint order is first to last, hit-test order is its reverse, and every child appears once |
| Viewport.ScrollOffsetOf | com.unity.uiwidgets/Runtime/rendering/viewport.cs:1065-1093 | a child at or after the center sits at the sum of the extents from the center up to it plus the offset within it; one before the center at minus the extents between it and the center minus the offset within it |
| Viewport.ForwardOffsetsAscend | com.unity.uiwidgets/Runtime/rendering/viewport.cs:1065-1080 | with non-negative extents, later children in the forward direction never sit at a smaller scroll offset |
| Viewport.ShrinkWrappingScrollOffsetOf | com.unity.uiwidgets/Runtime/rendering/viewport.cs:1401-1413 | a child sits at the sum of the extents of the children before it plus the offset within it |
| Viewport.UpdateOutOfBandData | com.unity.uiwidgets/Runtime/rendering/viewport.cs:1039-1051 | forward growth adds the sliver's extent to the maximum only; reverse growth subtracts it from the minimum only; overflow is sticky |
| Viewport.OutOfBandTotals | com.unity.uiwidgets/Runtime/rendering/viewport.cs:1039-1051 | after all slivers the maximum has grown by the forward extents and the minimum shrunk by the reverse extents |
| Viewport.IntToString | com.unity.uiwidgets/Runtime/rendering/viewport.cs:1170-1176 | the decimal text of a child index is non-empty and starts with a minus sign exactly for a negative index |
| Viewport.IntToStringReadBack | com.unity.uiwidgets/Runtime/rendering/viewport.cs:1170-1176 | the decimal text of a child index reads back as that index, so distinct indices get distinct labels |
| Viewport.DigitsReadBack | com.unity.uiwidgets/Runtime/rendering/viewport.cs:1170-1176 | the decimal digits of a natural number read back as that number |
| ProxyBox.BoxHitTest | com.unity.uiwidgets/Runtime/rendering/box.cs:1233-1244 | a box is hit exactly when the position is inside and a child or the box itself is hit; outside nothing is recorded; the children's entries are kept and a hit box records itself last |
| ProxyBox.BehaviorHitTestSelf | com.unity.uiwidgets/Runtime/rendering/proxy_box.cs:128-130 | a box counts as hit by itself exactly when its behaviour is opaque |
| ProxyBox.BehaviorHitTest | com.unity.uiwidgets/Runtime/rendering/proxy_box.cs:116-126 | hit exactly when inside and the child is hit or the behaviour is opaque; the box records itself exactly when hit or translucent |
| ProxyBox.TranslucentDiffersOnlyInRecording | com.unity.uiwidgets/Runtime/rendering/proxy_box.cs:116-130 | translucent answers like defer-to-child but always records itself when the position is inside |
| ProxyBox.BehaviorRefinesBoxHitTest | com.unity.uiwidgets/Runtime/rendering/proxy_box.cs:116-130 | for opaque and defer-to-child the behaviour box is the plain box test with the behaviour's self test |
| ProxyBox.IgnorePointerHitTest | com.unity.uiwidgets/Runtime/rendering/proxy_box.cs:2547-2549 | an ignoring box never hits and records nothing; otherwise it is the plain box test |
| ProxyBox.AbsorbPointerHitTest | com.unity.uiwidgets/Runtime/rendering/proxy_box.cs:2691-2695 | an absorbing box hits exactly when the position is inside, without asking its child or recording anything; otherwise it is the plain box test |
| ProxyBox.Offstage | com.unity.uiwidgets/Runtime/rendering/proxy_box.cs:2577-2645 | offstage: all intrinsics 0, no baseline, sized by parent, never hit, never painted; onstage: exactly the child's behaviour |
| ProxyBox.OffstageSize | com.unity.uiwidgets/Runtime/rendering/proxy_box.cs:2622-2624 | an offstage box takes the smallest admissible size |
| ProxyBox.LimitConstraints | com.unity.uiwidgets/Runtime/rendering/proxy_box.cs:301-312 | minima are kept; a bounded maximum is kept; an unbounded one becomes the limit, or the minimum when the limit is below it; the result is normalized |
| ProxyBox.LimitConstraintsNarrows | com.unity.uiwidgets/Runtime/rendering/proxy_box.cs:301-312 | every size the limited constraints admit is admitted by the original ones |
| ProxyBox.ApplyStep | com.unity.uiwidgets/Runtime/rendering/proxy_box.cs:497-504 | no step returns the input; otherwise the result is the least multiple of the step that is at least the input |
| ProxyBox.ApplyStepIdempotent | com.unity.uiwidgets/Runtime/rendering/proxy_box.cs:497-504 | stepping an already stepped value changes nothing |
| ProxyBox.OpacityNeedsCompositing | com.unity.uiwidgets/Runtime/rendering/proxy_box.cs:638-640 | compositing is needed exactly with a child and an alpha strictly between 0 and 255 |
| ProxyBox.SetOpacity | com.unity.uiwidgets/Runtime/rendering/proxy_box.cs:650-668 | the same opacity marks nothing; a new one always repaints, and updates compositing bits exactly when the child's compositing need flips |
| ProxyBox.ClipperNeedsReclip | com.unity.uiwidgets/Runtime/rendering/proxy_box.cs:880-900 | the same clipper never reclips; adding or removing one always does; otherwise it reclips exactly when the type changes or the new clipper asks to |
| Editable.IsWhitespace | com.unity.uiwidgets/Runtime/rendering/editable.cs:25-58 | a code unit is whitespace exactly when it is one of the listed control, space and typographic-space code units |
| Editable.HandleHorizontalArrows | com.unity.uiwidgets/Runtime/rendering/editable.cs:497-531 | a right arrow before the end moves the caret one unit, or two over a high surrogate; a left arrow after the start moves it back one, or two over a low surrogate; otherwise nothing moves; the remembered cursor location follows only with shift; the caret stays inside the text |
| Editable.RightThenLeftRestoresCaret | com.unity.uiwidgets/Runtime/rendering/editable.cs:497-531 | from a caret at a character start, a right arrow followed by a left arrow comes back to the same caret and cursor location |
| Editable.HandleShift | com.unity.uiwidgets/Runtime/rendering/editable.cs:565-614 | with no listener nothing is reported; with shift the reported selection spans the base and the new offset in order; without shift a collapsed selection is reported, an expanded selection collapses to its left edge on a left arrow and its right edge on a right arrow, and otherwise the caret goes to the new offset |
| Editable.Copy | com.unity.uiwidgets/Runtime/rendering/editable.cs:618-625 | copying puts nothing on the clipboard for a collapsed selection, and otherwise exactly the selected text, which with the text before and after it rebuilds the whole text |
| Editable.Cut | com.unity.uiwidgets/Runtime/rendering/editable.cs:626-637 | cutting does nothing for a collapsed selection; otherwise the selected text is removed, the text shrinks by its length and the caret sits at the old selection start |
| Editable.Paste | com.unity.uiwidgets/Runtime/rendering/editable.cs:638-653 | pasting does nothing without clipboard data; otherwise the data replaces the selection and the caret lands right after it |
| Editable.CutThenPasteRestores | com.unity.uiwidgets/Runtime/rendering/editable.cs:618-653 | cutting an expanded selection and pasting what copy put on the clipboard restores the text, with the caret at the old selection end |
| Editable.SelectAll | com.unity.uiwidgets/Runtime/rendering/editable.cs:654-666 | select-all spans the whole text from offset zero, so the selected text is the text |
| Editable.HandleDeleteAsWritten | com.unity.uiwidgets/Runtime/rendering/editable.cs:671-695 | the forward delete as written fails exactly when the only character after the selection is a high surrogate |
| Editable.DeleteLoneHighSurrogateFails | com.unity.uiwidgets/Runtime/rendering/editable.cs:673-679 | deleting forward in front of a lone high surrogate at the end of the text fails |
| Editable.HandleDelete | com.unity.uiwidgets/Runtime/rendering/editable.cs:671-695 | deleting removes the selection and the code unit after it, together with the next unit exactly when that unit is a high surrogate with a unit after it; at the end of the text only the selection goes; the caret collapses at the selection start |
| Editable.HandleDeleteAgrees | com.unity.uiwidgets/Runtime/rendering/editable.cs:671-695 | wherever the delete as written succeeds it gives the corrected result |
| Editable.OnlyWhitespace | com.unity.uiwidgets/Runtime/rendering/editable.cs:791-799 | a range is only whitespace exactly when every code unit in it, with a missing unit read as zero, is whitespace |
| Editable.GetPreviousWord | com.unity.uiwidgets/Runtime/rendering/editable.cs:779-789 | the word returned is the one the backward walk ends on: a non-empty range with a unit that is not whitespace, starting at or before the offset, and none when the walk falls off the start or meets a missing, invalid or collapsed word |
| Editable.PreviousWordNearest | com.unity.uiwidgets/Runtime/rendering/editable.cs:779-789 | the walk visits offsets between 0 and the start offset, strictly downwards, each time jumping to just before a whitespace-only word; the word found is the last one asked about, and no word is found exactly when no usable word the walk reaches has a non-whitespace unit |
| Editable.WalkOffsetsSteps | com.unity.uiwidgets/Runtime/rendering/editable.cs:779-789 | every step of the backward walk passes over a usable whitespace-only word to the offset just before it, so the offsets strictly decrease |
| Editable.WalkEndsOnWord | com.unity.uiwidgets/Runtime/rendering/editable.cs:779-789 | the walk finds a word exactly when the last word it asks about is usable and not only whitespace, and then returns that word |
| Editable.SelectWordAtOffset | com.unity.uiwidgets/Runtime/rendering/editable.cs:1490-1501 | a position at or past its word's end gives a caret there; inside a word an obscured field selects the whole text and a plain field the word |
| Editable.SelectedWordCoversPosition | com.unity.uiwidgets/Runtime/rendering/editable.cs:1490-1501 | a position inside its word lies inside the selection chosen for it, except at the very end of an obscured text |
| EditableText.SetText | com.unity.uiwidgets/Runtime/widgets/editable_text.cs:38-47 | assigning the controller's text keeps that text, collapses the selection at offset -1 and clears the composing region |
| EditableText.SetSelection | com.unity.uiwidgets/Runtime/widgets/editable_text.cs:66-76 | a selection reaching past the text is refused with an error; otherwise it is stored and the composing region cleared |
| EditableText.ComposingSpans | com.unity.uiwidgets/Runtime/widgets/editable_text.cs:52-64 | a composing region yields three spans of which only the middle one carries the composing underline |
| EditableText.BuildTextSpan | com.unity.uiwidgets/Runtime/widgets/editable_text.cs:48-65 | without a valid composing region, or when composing is not asked for, the controller shows one plain span; otherwise the composing spans |
| EditableText.BuildTextSpanSpellsText | com.unity.uiwidgets/Runtime/widgets/editable_text.cs:48-65 | the spans the controller builds spell out exactly its text, and a normalized composing region inside the text never fails |
| EditableText.SetTextBuildsOneSpan | com.unity.uiwidgets/Runtime/widgets/editable_text.cs:38-65 | after the text is assigned the controller shows that text as one plain span, whether or not composing is asked for |
| EditableText.ObscuredText | com.unity.uiwidgets/Runtime/widgets/editable_text.cs:1190-1196 | obscured text has the text's length and shows a bullet at every position except the latest typed one while its ticks are pending |
| EditableText.StateBuildTextSpan | com.unity.uiwidgets/Runtime/widgets/editable_text.cs:1172-1199 | an unobscured field with a valid composing region shows the composing spans; an obscured field shows one span of obscured text; otherwise one plain span |
| EditableText.ArmObscureTicks | com.unity.uiwidgets/Runtime/widgets/editable_text.cs:485-493 | the reveal of the latest character changes only when an obscured text grows by exactly one unit, and is then armed with three ticks (none on the touch keyboard) at the prior selection's base |
| EditableText.PerformAction | com.unity.uiwidgets/Runtime/widgets/editable_text.cs:502-519 | newline finishes editing (and unfocuses) only in a single-line field; done, go, send and search finish and unfocus; every other action finishes without unfocusing |
| EditableText.ActionOutcomes | com.unity.uiwidgets/Runtime/widgets/editable_text.cs:502-519 | a single-line field finalizes on every action and treats newline exactly like done; only a newline in a multi-line field leaves editing open |
| EditableText.FormatAllConcat | com.unity.uiwidgets/Runtime/widgets/editable_text.cs:912-915 | running the formatters of two lists one after the other is the same as running their concatenation |
| EditableText.FormatAndSetValue | com.unity.uiwidgets/Runtime/widgets/editable_text.cs:910-927 | an unchanged text from outside the input method is stored as it is without notifying; with no formatters the value is kept; onChanged is called exactly when the text changed and a listener exists, and sees the stored text; a changed text is run through all formatters in order |
| EditableText.InputFormattersAsWritten | com.unity.uiwidgets/Runtime/widgets/editable_text.cs:209-224 | as written, a single-line field's formatter list holds nothing but the single-line formatter, and any other field keeps the user's list, empty when none was given |
| EditableText.SingleLineDropsUserFormatters | com.unity.uiwidgets/Runtime/widgets/editable_text.cs:264-275 | a single-line field given one formatter of its own ends up with the single-line formatter twice and without the user's formatter |
| EditableText.InputFormatters | com.unity.uiwidgets/Runtime/widgets/editable_text.cs:264-275 | a single-line field runs the single-line formatter first and then every formatter the user gave; any other field runs the user's list |
| EditableText.InputFormattersAgreeElsewhere | com.unity.uiwidgets/Runtime/widgets/editable_text.cs:209-275 | the as-written and the intended lists agree on multi-line fields, and on single-line fields without user formatters differ only by the duplicated single-line formatter |
| EditableText.EnabledActions | com.unity.uiwidgets/Runtime/widgets/editable_text.cs:1081-1098 | a read-only field never offers cut or paste; copy and select-all follow the toolbar options alone; nothing is enabled that the options do not allow |
| EditableText.EnabledActionsIdempotent | com.unity.uiwidgets/Runtime/widgets/editable_text.cs:1081-1098 | cut and paste are offered exactly when the options allow them and the field is writable; filtering again changes nothing |
| Framework.CanUpdateIsEquivalence | com.unity.uiwidgets/Runtime/widgets/framework.cs:405-407 | an element may take over a widget exactly when type and key agree, and this relation is reflexive, symmetric and transitive |
| Framework.Compare | com.unity.uiwidgets/Runtime/widgets/framework.cs:1210-1227 | the element order puts shallower elements first and at equal depth clean before dirty; it answers zero exactly for equal depth and dirtiness |
| Framework.CompareIsTotalPreorder | com.unity.uiwidgets/Runtime/widgets/framework.cs:1210-1227 | the element order is antisymmetric in sign, transitive, total and reflexive, so sorting by it is well defined |
| Framework.SortedMeansCompareOrdered | com.unity.uiwidgets/Runtime/widgets/framework.cs:1210-1227 | in a list sorted by the element order every earlier element compares at most equal to every later one |
| Framework.Insert | com.unity.uiwidgets/Runtime/widgets/framework.cs:986 | inserting into a sorted dirty list keeps it sorted and adds exactly the one element |
| Framework.SortElements | com.unity.uiwidgets/Runtime/widgets/framework.cs:986 | sorting the dirty list yields a permutation of it that is ordered by depth and then dirtiness |
| Framework.MountDepth | com.unity.uiwidgets/Runtime/widgets/framework.cs:1350-1361 | a mounted element sits one level below its parent, or at depth one as the root |
| Framework.UpdateDepth | com.unity.uiwidgets/Runtime/widgets/framework.cs:1415-1421 | updating depths never lowers a depth, puts the element below its parent, and keeps identity, activity and children |
| Framework.MountedDepthsIncrease | com.unity.uiwidgets/Runtime/widgets/framework.cs:1350-1361 | a tree mounted below a parent has depths increasing from parent to child everywhere |
| Framework.UpdateDepthKeepsOrder | com.unity.uiwidgets/Runtime/widgets/framework.cs:1415-1421 | updating depths keeps depths increasing from parent to child |
| Framework.UpdateDepthOfMountedIsIdentity | com.unity.uiwidgets/Runtime/widgets/framework.cs:1415-1421 | a tree already mounted below the parent's depth is left unchanged by a depth update |
| Framework.UpdateChild | com.unity.uiwidgets/Runtime/widgets/framework.cs:1302-1348 | no new widget clears the slot; the old child is kept exactly when it can take over the new widget, and then takes the widget only when it is a different one; the old child is deactivated exactly when it exists and is not kept |
| Framework.ScanTop | com.unity.uiwidgets/Runtime/widgets/framework.cs:2644-2658 | the scan from the top stops at the first position whose old child is forgotten or cannot take over the new widget, and every position before it matches |
| Framework.ScanBottom | com.unity.uiwidgets/Runtime/widgets/framework.cs:2660-2671 | the scan from the bottom stops at the first mismatching pair from the end, never crosses the top scan, and every pair after it matches |
| Framework.CollectKeyed | com.unity.uiwidgets/Runtime/widgets/framework.cs:2673-2691 | among the unmatched old children, every keyed usable one is indexed by its key, with unique keys at its own index, and exactly the unkeyed usable ones are deactivated |
| Framework.UpdateMiddle | com.unity.uiwidgets/Runtime/widgets/framework.cs:2693-2725 | each new middle widget reuses at most one indexed old child of the same key that can take it over and removes that key from the index; a widget the index cannot serve is inflated, and with unique new keys a widget the index can serve always takes the child filed under its key; no old child is reused twice |
| Framework.RunPhases | com.unity.uiwidgets/Runtime/widgets/framework.cs:2644-2725 | the four loops in order: matching runs from the top and bottom that stop at the first failing pair, the keyed index of the old middle, and the middle slots the index serves |
| Framework.UpdateChildren | com.unity.uiwidgets/Runtime/widgets/framework.cs:2624-2751 | every kept old child can take over the new widget at its position, no old child is kept twice, deactivated children are usable and not kept, with unique keys every usable old child is either kept or deactivated; every pair in a matching run from the top or (beyond the top run) from the bottom keeps its old child, and with unique keys on both sides every keyed old child that can take a new widget is kept in that widget's slot |
| Framework.TopKept | com.unity.uiwidgets/Runtime/widgets/framework.cs:2644-2658 | a scan that stops at the first failing pair keeps every pair of any matching run from the top |
| Framework.BottomKept | com.unity.uiwidgets/Runtime/widgets/framework.cs:2660-2671 | a scan from the bottom that stops at the first failing pair keeps every pair of any matching bottom run the top run does not reach |
| Framework.KeyedKept | com.unity.uiwidgets/Runtime/widgets/framework.cs:2624-2751 | with unique keys on both sides, an old keyed child that can take a new widget is kept in that widget's slot, whether the pair sits in the top run, the bottom run or the middle |
| Framework.AssembleReuse | com.unity.uiwidgets/Runtime/widgets/framework.cs:2624-2751 | the result list, laid out as the top run, the middle slots and the bottom run, has one entry per new widget and keeps every matching top pair, every matching bottom pair the top run does not reach and, with unique keys on both sides, every keyed old child that can take a new widget |
| Framework.UpdateChildrenKeepsViaUpdateChild | com.unity.uiwidgets/Runtime/widgets/framework.cs:2624-2751 | every old child the list diff keeps is one that the single-child update would keep without deactivating it |
| Framework.ScheduleBuildFor | com.unity.uiwidgets/Runtime/widgets/framework.cs:840-894 | an element already in the dirty list only marks the list for resorting; otherwise it is appended and recorded; the build callback fires exactly for a new element while no flush is scheduled and a callback exists, and then a flush is scheduled |
| Framework.ScheduleKeepsConsistent | com.unity.uiwidgets/Runtime/widgets/framework.cs:840-894 | scheduling keeps the dirty list and the in-list flags describing the same elements |
| Framework.ScheduleFiresAtMostOnce | com.unity.uiwidgets/Runtime/widgets/framework.cs:884-890 | scheduling any number of elements fires the build callback at most once, never while a flush is already scheduled, and leaves a flush scheduled once fired |
| Framework.MarkNeedsBuild | com.unity.uiwidgets/Runtime/widgets/framework.cs:1990-2048 | an inactive or already dirty element changes nothing; otherwise it becomes dirty and is scheduled with the owner |
| Framework.MarkNeedsBuildIdempotent | com.unity.uiwidgets/Runtime/widgets/framework.cs:1990-2048 | marking the same element a second time changes nothing and fires nothing |
| Framework.MarkNeedsBuildKeepsList | com.unity.uiwidgets/Runtime/widgets/framework.cs:1990-2048 | marking keeps the owner consistent, every listed element dirty, and grows the dirty list by at most one |
| Framework.BuildScope | com.unity.uiwidgets/Runtime/widgets/framework.cs:939-1045 | with no callback and no dirty elements nothing happens; otherwise the dirty list is emptied, the in-list flags cleared, and the flush and resorting flags reset |
| Framework.BuildScopeRearms | com.unity.uiwidgets/Runtime/widgets/framework.cs:1036-1042 | after a build scope, the next element scheduled fires the build callback again and is alone in the dirty list |
| Framework.Register | com.unity.uiwidgets/Runtime/widgets/framework.cs:149-162 | registering a global key maps it to the element, replacing any earlier element, and leaves every other key alone |
| Framework.Unregister | com.unity.uiwidgets/Runtime/widgets/framework.cs:164-178 | unregistering an unknown key fails; a key held by this element is removed; a key held by another element is kept |
| Framework.RegisterUnregister | com.unity.uiwidgets/Runtime/widgets/framework.cs:149-178 | registering then unregistering the same element restores the registry, and an element whose key was taken over by another cannot remove it |
| Framework.DeactivateRecursively | com.unity.uiwidgets/Runtime/widgets/framework.cs:746-755 | deactivation marks the element inactive and recurses into every child, keeping identity, depth and shape |
| Framework.DeactivatedSubtreeIsInactive | com.unity.uiwidgets/Runtime/widgets/framework.cs:746-755 | after deactivation no element of the subtree is active |
| Framework.AddInactive | com.unity.uiwidgets/Runtime/widgets/framework.cs:757-767 | adding to the inactive set records the element and deactivates its whole subtree if it was active |
| Framework.RemoveInactive | com.unity.uiwidgets/Runtime/widgets/framework.cs:769-775 | removing from the inactive set takes out exactly that element |
| Framework.AddThenRemoveInactive | com.unity.uiwidgets/Runtime/widgets/framework.cs:757-775 | adding an element and removing it again restores the inactive set |
| Framework.UnmountOrder | com.unity.uiwidgets/Runtime/widgets/framework.cs:729-744 | unmounting every inactive element visits each one exactly once, deepest first |
| Framework.UnmountSubtree | com.unity.uiwidgets/Runtime/widgets/framework.cs:708-727 | unmounting a subtree unmounts the children before their parent, which comes last |
| Framework.CreatorChain | com.unity.uiwidgets/Runtime/widgets/framework.cs:1907-1919 | the creator chain lists at most limit names from the element upward, followed by an ellipsis exactly when ancestors remain |
| Basic.MakePositioned | com.unity.uiwidgets/Runtime/widgets/basic.cs:1591-1609 | a positioned widget stores every edge and size it is given, and admits only arguments that leave one of each horizontal and vertical triple unset |
| Basic.HorizontalEdges | com.unity.uiwidgets/Runtime/widgets/basic.cs:1650-1673 | left-to-right maps start and end to left and right, right-to-left to right and left, and no direction to neither |
| Basic.Directional | com.unity.uiwidgets/Runtime/widgets/basic.cs:1650-1684 | a directional positioned widget puts start on the left for left-to-right and on the right for right-to-left, sets no horizontal edge without a direction (where any start, end and width are accepted), and keeps top, bottom, width and height |
| Basic.DirectionalAdmits | com.unity.uiwidgets/Runtime/widgets/basic.cs:1650-1684 | the constructor's assertions bind the mapped edges: with a direction they admit exactly what start and end admit, and without one start, end and width may all be given and only the vertical axis is constrained |
| Basic.DirectionalMirrors | com.unity.uiwidgets/Runtime/widgets/basic.cs:1650-1684 | right-to-left positioning equals left-to-right positioning with start and end exchanged |
| Basic.MakePositionedDirectionalAsWritten | com.unity.uiwidgets/Runtime/widgets/basic.cs:1756-1772 | as written, the directional widget stores every argument except the height, which stays unset |
| Basic.MakePositionedDirectional | com.unity.uiwidgets/Runtime/widgets/basic.cs:1756-1772 | the corrected constructor stores every argument, height included |
| Basic.BuildPositionedDirectional | com.unity.uiwidgets/Runtime/widgets/basic.cs:1782-1793 | building positions the child as the directional positioned widget over the stored fields and the ambient direction, with the stored height |
| Basic.PositionedDirectionalDropsHeight | com.unity.uiwidgets/Runtime/widgets/basic.cs:1756-1793 | as written, a height of 10 given to the directional widget comes out as no height |
| Basic.PositionedDirectionalKeepsHeight | com.unity.uiwidgets/Runtime/widgets/basic.cs:1756-1793 | built from the corrected constructor, the widget positions exactly as the directional positioned widget over its arguments, height included |
| Basic.ApplyPositioned | com.unity.uiwidgets/Runtime/widgets/basic.cs:1697-1735 | applying a positioned widget copies all six fields and asks for layout exactly when some field differed |
| Basic.ApplyPositionedIdempotent | com.unity.uiwidgets/Runtime/widgets/basic.cs:1697-1735 | applying the same positioned widget twice asks for layout at most the first time |
| Basic.ApplyFlexible | com.unity.uiwidgets/Runtime/widgets/basic.cs:1944-1965 | applying a flexible widget copies flex and fit and asks for layout exactly when either differed |
| Basic.ApplyFlexibleIdempotent | com.unity.uiwidgets/Runtime/widgets/basic.cs:1944-1965 | applying the same flexible widget twice asks for no layout the second time |
| Basic.NeedTextDirection | com.unity.uiwidgets/Runtime/widgets/basic.cs:1826-1838 | a flex needs a text direction exactly when it is a row or its cross alignment is start or end |
| Basic.EffectiveTextDirection | com.unity.uiwidgets/Runtime/widgets/basic.cs:1840-1842 | a flex uses its own direction when it has one, else the ambient one when it needs a direction, else left-to-right |
| Basic.CenteredColumnIgnoresAmbient | com.unity.uiwidgets/Runtime/widgets/basic.cs:1826-1842 | a column without start or end cross alignment lays out left-to-right whatever the ambient direction |
| Basic.EffectiveStep | com.unity.uiwidgets/Runtime/widgets/basic.cs:1264-1270 | a zero step is treated as no step, and any other step is kept |
| Basic.EffectiveStepIsPositive | com.unity.uiwidgets/Runtime/widgets/basic.cs:1264-1270 | a non-negative step reaches the render object as absent or strictly positive |
| Basic.WrapKey | com.unity.uiwidgets/Runtime/widgets/basic.cs:2558-2562 | a wrapper takes a key derived from the child's own key when it has one, else from its index |
| Basic.WrapAll | com.unity.uiwidgets/Runtime/widgets/basic.cs:2564-2570 | wrapping a list gives one wrapper per child, each keyed from its child and its index from zero |
| Basic.EnsureUniqueKeysForList | com.unity.uiwidgets/Runtime/widgets/basic.cs:2713-2726 | no list gives no list; otherwise each child is wrapped with its key or its index counted from the base index |
| Basic.WrappedKeysAreUnique | com.unity.uiwidgets/Runtime/widgets/basic.cs:2713-2726 | children whose own keys are distinct get pairwise distinct wrapper keys |
| Basic.FlipAxisDirection | com.unity.uiwidgets/Runtime/widgets/basic.cs:2079 | flipping an axis direction gives a different direction on the same axis |
| Basic.AxisDirectionFrom | com.unity.uiwidgets/Runtime/widgets/basic.cs:2069-2085 | the axis direction lies on the requested axis: a vertical one reads down, or up when reversed; a horizontal one follows the ambient text direction |
| Basic.TextDirectionAxisMirrors | com.unity.uiwidgets/Runtime/widgets/basic.cs:2075-2079 | a text direction maps to a horizontal axis direction, left-to-right to right and right-to-left to its flip, left |
| Basic.FlipIsInvolution | com.unity.uiwidgets/Runtime/widgets/basic.cs:2079 | flipping twice gives back the original direction |
| Basic.ReverseFlipsAxisDirection | com.unity.uiwidgets/Runtime/widgets/basic.cs:2069-2085 | reversing gives the flipped direction on either axis |
| WidgetInspector.IdText | com.unity.uiwidgets/Runtime/widgets/widget_inspector.cs:746 | every object id the inspector hands out starts with the prefix "inspector-" followed by at least one character |
| WidgetInspector.IdTextInjective | com.unity.uiwidgets/Runtime/widgets/widget_inspector.cs:746 | two ids have the same text exactly when they are the same id, so the text names the id |
| WidgetInspector.EmptyServiceIsValid | com.unity.uiwidgets/Runtime/widgets/widget_inspector.cs:404-421 | a fresh inspector service, with no groups and no references, satisfies the reference-count invariant |
| WidgetInspector.ToId | com.unity.uiwidgets/Runtime/widgets/widget_inspector.cs:728-760 | no object gets no id; a new object gets the next id with a reference count of one and the counter advances; a known object keeps its id, and its count grows by one exactly when the group did not yet hold it; the id always ends up in the group |
| WidgetInspector.ToIdKeepsValid | com.unity.uiwidgets/Runtime/widgets/widget_inspector.cs:728-760 | handing out an id keeps every count equal to the number of groups holding the reference, every grouped id live, and the object and id tables inverse |
| WidgetInspector.ToIdTwiceSameGroup | com.unity.uiwidgets/Runtime/widgets/widget_inspector.cs:728-760 | asking again for the same object in the same group returns the same id and changes nothing |
| WidgetInspector.ToObject | com.unity.uiwidgets/Runtime/widgets/widget_inspector.cs:762-776 | no id gives no object; an unknown id is an error; a known id gives its object |
| WidgetInspector.ToObjectInvertsToId | com.unity.uiwidgets/Runtime/widgets/widget_inspector.cs:728-776 | looking up the id handed out for an object gives back that object |
| WidgetInspector.DisposeGroup | com.unity.uiwidgets/Runtime/widgets/widget_inspector.cs:578-595 | disposing a group removes it and lowers by one the count of each reference it held, dropping exactly those whose count reaches zero; nothing else changes |
| WidgetInspector.DisposeGroupKeepsValid | com.unity.uiwidgets/Runtime/widgets/widget_inspector.cs:578-595 | disposing keeps the reference-count invariant, and an id disappears exactly when the disposed group was the only one holding it |
| WidgetInspector.ComputeCurrent | com.unity.uiwidgets/Runtime/widgets/widget_inspector.cs:1245-1254 | a negative index fails; an index inside the candidates selects that candidate and its creating element; an index past them selects nothing |
| WidgetInspector.SetCandidates | com.unity.uiwidgets/Runtime/widgets/widget_inspector.cs:1201-1207 | new candidates reset the index to zero and select the first candidate, or nothing for an empty list |
| WidgetInspector.ClearSelection | com.unity.uiwidgets/Runtime/widgets/widget_inspector.cs:1220-1222 | clearing leaves no candidates, index zero and nothing selected |
| WidgetInspector.SetIndex | com.unity.uiwidgets/Runtime/widgets/widget_inspector.cs:1211-1217 | a negative index fails; otherwise the index is stored and something is selected exactly when it lies inside the candidates |
| WidgetInspector.SetSelection | com.unity.uiwidgets/Runtime/widgets/widget_inspector.cs:597-630 | anything but an element or render object changes nothing; the same element or render object again reports no change; a new one becomes current together with its render object or creating element; candidates and index stay |
| WidgetInspector.SetSelectionTwice | com.unity.uiwidgets/Runtime/widgets/widget_inspector.cs:597-630 | selecting the same target a second time reports no change |
| WidgetInspector.SortByArea | com.unity.uiwidgets/Runtime/widgets/widget_inspector.cs:1060 | sorting the regular hits gives a permutation of them ordered by area |
| WidgetInspector.OrderHits | com.unity.uiwidgets/Runtime/widgets/widget_inspector.cs:1055-1069 | the hit list starts with the edge hits in order, then the remaining regular hits by area, contains every hit of either kind and nothing else, and has no duplicates |
| WidgetInspector.LocationToJson | com.unity.uiwidgets/Runtime/widgets/widget_inspector.cs:936-951 | a location serializes to an object with file, line and column, a name exactly when it has one, parameter locations exactly when it has them, and no other field |
| WidgetInspector.LocationJsonRoundTrip | com.unity.uiwidgets/Runtime/widgets/widget_inspector.cs:936-951 | reading back a serialized location gives the same location, nested parameter locations included |
| WidgetInspector.ToLocationIdAsWritten | com.unity.uiwidgets/Runtime/widgets/widget_inspector.cs:61-70 | as written, looking up a location id fails exactly when the location has no id yet, and otherwise returns it without change |
| WidgetInspector.ToLocationIdAsWrittenNeverRecords | com.unity.uiwidgets/Runtime/widgets/widget_inspector.cs:61-70 | as written, the first location ever asked for fails, and no call ever records a location |
| WidgetInspector.ToLocationId | com.unity.uiwidgets/Runtime/widgets/widget_inspector.cs:61-70 | a known location keeps its id; a new one is appended and gets the next index; the list and the map stay in agreement and the id indexes the location |
| WidgetInspector.ToLocationIdStable | com.unity.uiwidgets/Runtime/widgets/widget_inspector.cs:61-70 | asking for a location's id a second time returns the same id and changes nothing |
| Diagnostics.IndexOfDot | com.unity.uiwidgets/Runtime/foundation/diagnostics.cs:44 | the dot position found is the first dot of the text, or -1 when it has none |
| Diagnostics.DescribeEnumAsWritten | com.unity.uiwidgets/Runtime/foundation/diagnostics.cs:42-47 | with its debug check, describing an enum value succeeds exactly when its text has a dot before the last character, and then gives the text after the first dot |
| Diagnostics.DescribeEnum | com.unity.uiwidgets/Runtime/foundation/diagnostics.cs:42-47 | without the check, a dot-free text is returned whole; otherwise the result is the text after the first dot, which that dot and everything before it complete to the full text, and it is non-empty unless the dot is last |
| Diagnostics.EnumNameFailsCheck | com.unity.uiwidgets/Runtime/foundation/diagnostics.cs:42-47 | a C# enum value's dot-free name fails the debug check, while the release reading returns the name itself |
| Diagnostics.DescribeEnumOfQualified | com.unity.uiwidgets/Runtime/foundation/diagnostics.cs:42-47 | a value written as a dot-free type name, a dot and a name is described by exactly that name |
| Diagnostics.ToHex | com.unity.uiwidgets/Runtime/foundation/diagnostics.cs:322 | hexadecimal formatting gives upper-case digits with no leading zero |
| Diagnostics.ToHexValue | com.unity.uiwidgets/Runtime/foundation/diagnostics.cs:322 | the hexadecimal text reads back as the number it was made from |
| Diagnostics.ShortHash | com.unity.uiwidgets/Runtime/foundation/diagnostics.cs:321-323 | the short hash is five upper-case hex digits whose value is the low 20 bits of the hash code |
| Diagnostics.ShortHashLowBits | com.unity.uiwidgets/Runtime/foundation/diagnostics.cs:321-323 | hash codes that agree in their low 20 bits have the same short hash |
| Diagnostics.DefaultOf | com.unity.uiwidgets/Runtime/foundation/diagnostics.cs:1899-1902 | an absent default means no default, the explicit null marker means a default of null, and a value means that value |
| Diagnostics.MakeProperty | com.unity.uiwidgets/Runtime/foundation/diagnostics.cs:1895-1918 | a property falls back to "MISSING" for null exactly when missing-if-null is set and no null text is given; a computed value is stored, and a computation that throws leaves no value and records the exception |
| Diagnostics.PropertyLevel | com.unity.uiwidgets/Runtime/foundation/diagnostics.cs:2159-2179 | a hidden default level always wins; then an exception reports an error; then a null required value a warning; then a value equal to a given default (null included) is fine, in both directions; in every remaining case the default level |
| Diagnostics.AddTooltip | com.unity.uiwidgets/Runtime/foundation/diagnostics.cs:2098-2101 | without a tooltip the text is unchanged; with one the text is followed by the tooltip in parentheses |
| Diagnostics.ToDescription | com.unity.uiwidgets/Runtime/foundation/diagnostics.cs:2075-2096 | an explicit description comes first, then the exception's type, then the null text for a null value, then the value text with the empty text standing in for nothing; all but the exception carry the tooltip |
| Diagnostics.TooltipIsSuffix | com.unity.uiwidgets/Runtime/foundation/diagnostics.cs:2075-2101 | a tooltip only appends "(tip)" to the description the property would have without it |
| Diagnostics.MissingValueIsFlagged | com.unity.uiwidgets/Runtime/foundation/diagnostics.cs:2159-2179 | a required value that is null, with no description or null text of the caller's, reads "MISSING" at warning level unless hidden |
| Diagnostics.PlainValueToString | com.unity.uiwidgets/Runtime/foundation/diagnostics.cs:2067-2073 | the plain value text is the value's own text, or empty for null |
| Diagnostics.EscapeNewlines | com.unity.uiwidgets/Runtime/foundation/diagnostics.cs:1326 | escaping leaves no line break and lengthens the text by one character per line break |
| Diagnostics.EscapeWithoutNewlines | com.unity.uiwidgets/Runtime/foundation/diagnostics.cs:1326 | text without line breaks is left unchanged by escaping |
| Diagnostics.StringValueToString | com.unity.uiwidgets/Runtime/foundation/diagnostics.cs:1321-1338 | the description, else the value, is shown, with line breaks escaped when the parent keeps properties on one line; quoted text is wrapped in quotes, except that empty quoted text shows `ifEmpty` when there is one; a missing text reads "null" |
| Diagnostics.QuotedTextRoundTrip | com.unity.uiwidgets/Runtime/foundation/diagnostics.cs:1321-1338 | quoted single-line text appears unchanged between its quotes |
| Diagnostics.FlagValueToString | com.unity.uiwidgets/Runtime/foundation/diagnostics.cs:1582-1595 | a flag shows the text given for its current state, else its plain value text |
| Diagnostics.FlagShowName | com.unity.uiwidgets/Runtime/foundation/diagnostics.cs:1597-1606 | a flag always shows its name when there is no text for its state, otherwise as configured |
| Diagnostics.FlagLevel | com.unity.uiwidgets/Runtime/foundation/diagnostics.cs:1608-1624 | a set flag without text for its state is hidden; otherwise the property's level applies |
| Diagnostics.FlagShownOrHidden | com.unity.uiwidgets/Runtime/foundation/diagnostics.cs:1582-1624 | a set, unhidden flag either shows its state's text or is hidden and shows its name instead |
| Diagnostics.ObjectFlagValueToString | com.unity.uiwidgets/Runtime/foundation/diagnostics.cs:1751-1765 | an object flag shows the present text for a value, the null text for null, else the plain value text |
| Diagnostics.ObjectFlagShowName | com.unity.uiwidgets/Runtime/foundation/diagnostics.cs:1767-1775 | an object flag always shows its name when there is no text for its state, otherwise as configured |
| Diagnostics.ObjectFlagLevel | com.unity.uiwidgets/Runtime/foundation/diagnostics.cs:1777-1792 | an object flag without text for its state is hidden; otherwise the property's level applies |
| Diagnostics.ObjectFlagShownOrHidden | com.unity.uiwidgets/Runtime/foundation/diagnostics.cs:1751-1792 | an unhidden object flag either shows its state's text or is hidden and shows its name |
| Diagnostics.EnumerableValueToString | com.unity.uiwidgets/Runtime/foundation/diagnostics.cs:1651-1665 | a null list reads "null", an empty one the empty text or "[]", a single item itself, and several items joined by commas when the parent keeps one line or the style is single-line, and by line breaks when the parent breaks properties onto lines and the style is not single-line |
| Diagnostics.EnumerableLevel | com.unity.uiwidgets/Runtime/foundation/diagnostics.cs:1667-1676 | an empty list without empty text is fine unless hidden; otherwise the property's level applies |
| Diagnostics.FormattedValues | com.unity.uiwidgets/Runtime/foundation/diagnostics.cs:1861-1869 | the summary lists exactly the keys whose values are set, no more of them than there are entries |
| Diagnostics.FormattedValuesConcat | com.unity.uiwidgets/Runtime/foundation/diagnostics.cs:1861-1869 | the keys come out in entry order: the summary of two runs of entries is the first run's summary followed by the second's |
| Diagnostics.FormattedValuesSingle | com.unity.uiwidgets/Runtime/foundation/diagnostics.cs:1863-1866 | one entry contributes its key exactly when its value is non-null |
| Diagnostics.FormattedValuesDistinct | com.unity.uiwidgets/Runtime/foundation/diagnostics.cs:1861-1869 | with distinct dictionary keys, no key appears twice in the summary |
| Diagnostics.FormattedValuesEmpty | com.unity.uiwidgets/Runtime/foundation/diagnostics.cs:1857-1869 | the summary lists nothing exactly when no entry is set |
| Diagnostics.FlagsSummaryValueToString | com.unity.uiwidgets/Runtime/foundation/diagnostics.cs:1823-1836 | with nothing set the summary shows the empty text or nothing; otherwise the set keys joined by commas when kept on one line or in a single-line style, and by line breaks otherwise |
| Diagnostics.FlagsSummaryLevel | com.unity.uiwidgets/Runtime/foundation/diagnostics.cs:1839-1846 | a summary with nothing set and no empty text is hidden; otherwise the property's level applies |
| Diagnostics.IsFiltered | com.unity.uiwidgets/Runtime/foundation/diagnostics.cs:1039-1041 | a release build filters every node; otherwise a node is filtered exactly when its level is declared before the minimum level |
| Diagnostics.LevelIndexIsDeclarationOrder | com.unity.uiwidgets/Runtime/foundation/diagnostics.cs:10-20 | the level index used for comparison is each level's position in the `DiagnosticLevel` declaration |
| Diagnostics.FilteringMonotone | com.unity.uiwidgets/Runtime/foundation/diagnostics.cs:1039-1041 | raising the minimum level can only filter more nodes |
| SlotMaps.Empty | com.unity.uiwidgets/Runtime/material/chip.cs:1715-1716 | an element or render object starts with no children and its two maps trivially inverse |
| SlotMaps.Replace | com.unity.uiwidgets/Runtime/material/chip.cs:1742-1754 | replacing a slot's child keeps the two maps inverse, puts the new child in that slot and leaves every other slot's child alone |
| SlotMaps.UpdateRenderChild | com.unity.uiwidgets/Runtime/material/chip.cs:1944-1957 | the render object's child update returns the new child, keeps the maps inverse, changes only the given slot, and drops a replaced old child from the child map |
| SlotMaps.UpdateRenderChildToSame | com.unity.uiwidgets/Runtime/material/chip.cs:1944-1957 | setting a slot to the child it already holds changes nothing |
| SlotMaps.UpdateRenderChildTwice | com.unity.uiwidgets/Runtime/material/chip.cs:1944-1957 | setting a slot twice is the same as setting it once to the second child |
| SlotMaps.ForgetChild | com.unity.uiwidgets/Runtime/material/chip.cs:1734-1740 | forgetting a child removes it from both maps, empties its slot and leaves the other slots alone |
| SlotMaps.SameChildrenSameSlots | com.unity.uiwidgets/Runtime/material/chip.cs:1734-1757 | two inverse slot maps holding the same child in every slot are the same maps, so the slot contents determine the bookkeeping |
| Chip.IsTapping | com.unity.uiwidgets/Runtime/material/chip.cs:1312-1314 | a chip reports tapping only when it can be tapped, and then reports its own tapping flag |
| Chip.TapDown | com.unity.uiwidgets/Runtime/material/chip.cs:1386-1392 | a tap down on a tappable chip starts tapping; on any other chip it changes nothing |
| Chip.TapCancel | com.unity.uiwidgets/Runtime/material/chip.cs:1394-1400 | after a cancel the chip is not tapping, and nothing but the tapping flag changes |
| Chip.TapAsWritten | com.unity.uiwidgets/Runtime/material/chip.cs:1402-1410 | as written, a tap on a tappable chip stops tapping, calls the press callback if present, and reports true to the selection callback exactly when the chip is explicitly unselected |
| Chip.TapOnNullSelectedReportsFalse | com.unity.uiwidgets/Runtime/material/chip.cs:1408 | as written, a chip whose selected state is unset reports false when tapped, so it can never become selected |
| Chip.Tap | com.unity.uiwidgets/Runtime/material/chip.cs:1402-1410 | a tap on a tappable chip stops tapping, calls the press callback if present, and reports the toggled selection, with unset counting as unselected; an untappable chip does nothing |
| Chip.TapToggles | com.unity.uiwidgets/Runtime/material/chip.cs:1402-1410 | tapping twice, feeding back the reported selection, reports the two opposite states |
| Chip.TapAgreesWhenSelectedIsSet | com.unity.uiwidgets/Runtime/material/chip.cs:1402-1410 | when the selected state is set, the tap as written and the corrected tap agree |
| Chip.MountChild | com.unity.uiwidgets/Runtime/material/chip.cs:1742-1754 | mounting a slot's child keeps the maps inverse, fills that slot with the new child and leaves the others |
| Chip.UpdateChildAsWritten | com.unity.uiwidgets/Runtime/material/chip.cs:1763-1775 | as written, updating a slot fails exactly when the slot holds no child; otherwise it sets the slot like a mount |
| Chip.UpdateChild | com.unity.uiwidgets/Runtime/material/chip.cs:1763-1775 | updating a slot's child keeps the maps inverse, sets that slot and leaves the others, whether or not the slot was filled before, and gives what the written version gives whenever the slot was filled |
| Chip.Mount | com.unity.uiwidgets/Runtime/material/chip.cs:1756-1761 | mounting a chip places the avatar, delete icon and label in their slots |
| Chip.UpdateAsWritten | com.unity.uiwidgets/Runtime/material/chip.cs:1777-1784 | as written, updating a chip fails exactly when one of its three slots was empty |
| Chip.RebuildWithoutAvatarFails | com.unity.uiwidgets/Runtime/material/chip.cs:1756-1784 | as written, a chip mounted without an avatar fails on its next update |
| Chip.Update | com.unity.uiwidgets/Runtime/material/chip.cs:1777-1784 | updating a chip places the new avatar, delete icon and label in their slots |
| Chip.UpdateAfterMount | com.unity.uiwidgets/Runtime/material/chip.cs:1756-1784 | updating a chip with the children it was mounted with leaves its slots unchanged |
| Chip.Children | com.unity.uiwidgets/Runtime/material/chip.cs:1995-2009 | the children are the present ones among avatar, label and delete icon, avatar first and delete icon last, each exactly once |
| Chip.FirstPresent | com.unity.uiwidgets/Runtime/material/chip.cs:2198-2203 | the fallback chain yields nothing exactly when no candidate is present, and otherwise one of the candidates |
| Chip.FirstPresentIsEarliest | com.unity.uiwidgets/Runtime/material/chip.cs:2198-2203 | the candidate the fallback chain yields is the earliest present one |
| Chip.HitTestChild | com.unity.uiwidgets/Runtime/material/chip.cs:2193-2206 | a point outside hits nothing; beyond 0.66 of the width the delete icon is tried first, then label, then avatar; otherwise label, then avatar |
| Chip.HitLandsOnChild | com.unity.uiwidgets/Runtime/material/chip.cs:2193-2206 | a hit always lands on one of the chip's children, a chip with a label is always hit inside its bounds, and only the delete icon's region reaches the delete icon |
| Chip.ChipTapRules | com.unity.uiwidgets/Runtime/material/chip.cs:493-494 | an input chip can be tapped exactly when asked to be enabled and given a press or select callback, so one enabled only through its delete callback ignores taps; a choice or filter chip can be tapped exactly when it has a select callback |
| InputDecorator.NewDecoration | com.unity.uiwidgets/Runtime/material2/input_decorator.cs:2061-2139 | a decoration built by the constructor holds the given fields and is not collapsed |
| InputDecorator.Collapsed | com.unity.uiwidgets/Runtime/material2/input_decorator.cs:2141-2190 | the collapsed decoration holds the given fields and is marked collapsed |
| InputDecorator.Overlay | com.unity.uiwidgets/Runtime/material2/input_decorator.cs:2264-2338 | overlaying fields keeps every given override and every base field without one, and no other field |
| InputDecorator.CopyWithAsWritten | com.unity.uiwidgets/Runtime/material2/input_decorator.cs:2264-2338 | as written, a copy takes the overrides over the original's fields but always comes out not collapsed |
| InputDecorator.CopyWith | com.unity.uiwidgets/Runtime/material2/input_decorator.cs:2264-2338 | a copy takes the overrides over the original's fields and keeps whether it is collapsed |
| InputDecorator.CopyWithLaws | com.unity.uiwidgets/Runtime/material2/input_decorator.cs:2264-2338 | copying with no overrides changes nothing, and two copies in a row equal one copy with the later overrides over the earlier |
| InputDecorator.ThemeDefaults | com.unity.uiwidgets/Runtime/material2/input_decorator.cs:2340-2362 | the theme supplies exactly the theme-backed fields the decoration leaves unset and the theme sets |
| InputDecorator.ApplyDefaultsAsWritten | com.unity.uiwidgets/Runtime/material2/input_decorator.cs:2340-2362 | as written, applying theme defaults always yields a decoration that is not collapsed |
| InputDecorator.ApplyDefaults | com.unity.uiwidgets/Runtime/material2/input_decorator.cs:2340-2362 | applying theme defaults keeps every field the decoration sets and whether it is collapsed, and fills an unset field exactly when the theme sets it for that field |
| InputDecorator.ApplyDefaultsIdempotent | com.unity.uiwidgets/Runtime/material2/input_decorator.cs:2340-2362 | applying the same theme defaults twice is applying them once |
| InputDecorator.ApplyDefaultsUncollapses | com.unity.uiwidgets/Runtime/material2/input_decorator.cs:2340-2362 | as written, applying theme defaults to a collapsed decoration un-collapses it, while the corrected version keeps it collapsed |
| InputDecorator.LabelVisibility | com.unity.uiwidgets/Runtime/material2/input_decorator.cs:1624-1791 | the label sits inline exactly in an empty, unfocused field with label text, is then always shown, and once withdrawn is shown only as a floating placeholder |
| InputDecorator.HintOpacity | com.unity.uiwidgets/Runtime/material2/input_decorator.cs:1856-1859 | the hint is either fully shown or hidden, and shown exactly when the field is empty and the label is not drawn inline |
| InputDecorator.HintAndInlineLabelExclusive | com.unity.uiwidgets/Runtime/material2/input_decorator.cs:1856-1859 | the hint and the inline label are never both shown; with a label the hint shows exactly when the field is empty and focused |
| InputDecorator.ChooseBorder | com.unity.uiwidgets/Runtime/material2/input_decorator.cs:1870-1882 | a disabled field draws the error or disabled border, a focused one the focused-error or focused border, any other the error or enabled border, each falling back to the default |
| InputDecorator.BorderTable | com.unity.uiwidgets/Runtime/material2/input_decorator.cs:1870-1880 | the border kind is an error kind exactly for an error, the disabled kind exactly when disabled without error, a focused kind exactly when enabled and focused, and the enabled kind otherwise |
| InputDecorator.DefaultBorderWeight | com.unity.uiwidgets/Runtime/material2/input_decorator.cs:1837-1845 | the default border has no weight exactly when collapsed, borderless or disabled, and otherwise weighs 2 when focused and 1 when not |
| InputDecorator.UncollapsedBorderWeight | com.unity.uiwidgets/Runtime/material2/input_decorator.cs:1837-1845 | a collapsed, bordered decoration draws a weightless border, but after the theme defaults as written it draws a border of weight 1; the corrected defaults keep it weightless |
| InputDecorator.ChooseCounter | com.unity.uiwidgets/Runtime/material2/input_decorator.cs:1995-2003 | a counter widget wins; otherwise a counter label is shown exactly for non-empty counter text, and nothing otherwise |
| InputDecorator.CounterPrecedence | com.unity.uiwidgets/Runtime/material2/input_decorator.cs:1995-2003 | a counter widget makes the counter text irrelevant; otherwise non-empty text comes back as the label and empty text counts as none |
| InputDecorator.HelperErrorUpdate | com.unity.uiwidgets/Runtime/material2/input_decorator.cs:343-368 | the helper/error animation runs exactly when the error appears or disappears, or, without an error, the helper appears or disappears; it runs forward only to an error and backward only without one |
| InputDecorator.HelperErrorSteady | com.unity.uiwidgets/Runtime/material2/input_decorator.cs:343-368 | unchanged texts start no animation; an error appearing always runs the animation forward, and an error going away always runs it in reverse, whatever the helper does |
| InputDecorator.SetStart | com.unity.uiwidgets/Runtime/material2/input_decorator.cs:28-37 | setting the gap start stores it and notifies exactly when it changed |
| InputDecorator.SetExtent | com.unity.uiwidgets/Runtime/material2/input_decorator.cs:39-49 | setting the gap extent stores it and notifies exactly when it changed |
| InputDecorator.GapNotifiesOnce | com.unity.uiwidgets/Runtime/material2/input_decorator.cs:28-49 | setting the same start or extent twice notifies at most the first time |
| InputDecorator.DecorationUpdateChild | com.unity.uiwidgets/Runtime/material2/input_decorator.cs:657-671 | the decoration's child update keeps the maps inverse, sets only the given slot and returns the new child |
| TimePicker.PeriodOffset | com.unity.uiwidgets/Runtime/material/time_picker.cs:480-483 | the period offset is zero exactly in the morning and twelve otherwise |
| TimePicker.HourOfPeriod | com.unity.uiwidgets/Runtime/material/time_picker.cs:480-483 | the hour within the period lies in 0 to 11 and adds to the period offset to give the hour |
| TimePicker.TogglePeriod | com.unity.uiwidgets/Runtime/material/time_picker.cs:339-343 | toggling the period gives a valid time in the other period with the same hour of period and minute |
| TimePicker.SetAm | com.unity.uiwidgets/Runtime/material/time_picker.cs:345-351 | choosing AM gives a morning time with the same hour of period and minute, and leaves a morning time unchanged |
| TimePicker.SetPm | com.unity.uiwidgets/Runtime/material/time_picker.cs:353-359 | choosing PM gives an afternoon time with the same hour of period and minute, and leaves an afternoon time unchanged |
| TimePicker.TogglePeriodInvolution | com.unity.uiwidgets/Runtime/material/time_picker.cs:339-359 | toggling twice is the identity, choosing the same period twice is choosing it once, and AM after PM is plain AM |
| TimePicker.HoursFromSelected24 | com.unity.uiwidgets/Runtime/material/time_picker.cs:473-478 | on a 24-hour dial the neighbouring hour is a valid time that differs from the selected hour by the step modulo 24, with the minute kept |
| TimePicker.HoursFromSelected12AsWritten | com.unity.uiwidgets/Runtime/material/time_picker.cs:479-485 | as written, the neighbouring hour on a 12-hour dial is always a morning hour |
| TimePicker.NextHourAfterOnePmIsMorning | com.unity.uiwidgets/Runtime/material/time_picker.cs:479-485 | as written, the hour after 13:00 on a 12-hour dial is 02:00 |
| TimePicker.HoursFromSelected12 | com.unity.uiwidgets/Runtime/material/time_picker.cs:479-485 | the neighbouring hour on a 12-hour dial stays in the selected period and differs in hour of period by the step modulo 12, with the minute kept |
| TimePicker.HourNeighboursInverse | com.unity.uiwidgets/Runtime/material/time_picker.cs:473-496 | the previous hour of the next hour is the selected time on either dial, and for morning times the as-written and corrected 12-hour neighbours agree |
| TimePicker.NextMinute | com.unity.uiwidgets/Runtime/material/time_picker.cs:549-551 | the next minute keeps the hour and wraps from 59 to 0 |
| TimePicker.PreviousMinute | com.unity.uiwidgets/Runtime/material/time_picker.cs:553-555 | the previous minute keeps the hour and wraps from 0 to 59 |
| TimePicker.MinuteNeighboursInverse | com.unity.uiwidgets/Runtime/material/time_picker.cs:549-555 | the next and previous minute undo each other |
| TimePicker.LastPivot | com.unity.uiwidgets/Runtime/material/time_picker.cs:98-103 | the centre piece is the last piece with a pivot, and there is none exactly when no piece has one |
| TimePicker.Format | com.unity.uiwidgets/Runtime/material/time_picker.cs:76-107 | a header holds one or two pieces, the first piece leftmost for left-to-right and rightmost for right-to-left, centred on a pivot piece; it fails exactly when no piece has a pivot |
| TimePicker.FormatSingle | com.unity.uiwidgets/Runtime/material/time_picker.cs:76-107 | a single pivot piece makes a header of that piece centred on it |
| TimePicker.FormatPair | com.unity.uiwidgets/Runtime/material/time_picker.cs:76-107 | two pieces of which one pivots are laid out in reading order and centred on the pivot piece |
| TimePicker.BuildHeaderFormatShape | com.unity.uiwidgets/Runtime/material/time_picker.cs:127-179 | the 12-hour formats put the period after or before the hour-and-minute piece, and every other format shows that piece alone |
| TimePicker.HeaderFormatWellFormed | com.unity.uiwidgets/Runtime/material/time_picker.cs:127-179 | every format yields a header centred on its hour-and-minute piece with the format's separator, and the period control appears exactly for the 12-hour formats |
| TimePicker.HeaderFormatMirrored | com.unity.uiwidgets/Runtime/material/time_picker.cs:76-179 | the right-to-left header is the left-to-right header in reverse order |
| TimePicker.DialRing | com.unity.uiwidgets/Runtime/material/time_picker.cs:1033-1042 | the inner ring is active exactly on a 24-hour hour dial for hours 1 to 12 |
| TimePicker.SelectHour | com.unity.uiwidgets/Runtime/material/time_picker.cs:1185-1207 | selecting an hour activates the ring the dial rule gives and keeps the minute; a 24-hour hour dial takes the hour as is, any other adds the selected time's period offset |
| TimePicker.HourTablesPartitionDay | com.unity.uiwidgets/Runtime/material/time_picker.cs:1220-1248 | the AM and PM tables hold twelve hours each, together every hour of the day exactly once, the AM ones on the inner ring and the PM ones on the outer |
| MaterialDatePicker.DaysInMonth | com.unity.uiwidgets/Runtime/material2/date_picker.cs:298-311 | February has 29 days exactly in a Gregorian leap year and 28 otherwise, every other month its fixed length, always between 28 and 31 |
| MaterialDatePicker.YearLength | com.unity.uiwidgets/Runtime/material2/date_picker.cs:298-311 | the twelve month lengths add up to 366 days in a leap year and 365 otherwise |
| MaterialDatePicker.MonthDelta | com.unity.uiwidgets/Runtime/material2/date_picker.cs:506-508 | the month distance is the difference of the two dates' month counts |
| MaterialDatePicker.AddMonths | com.unity.uiwidgets/Runtime/material2/date_picker.cs:510-512 | adding months gives a valid date exactly that many months later, keeping the day or cutting it to the target month's last day |
| MaterialDatePicker.MonthPages | com.unity.uiwidgets/Runtime/material2/date_picker.cs:515 | the month pager has at least one page, page k shows the month k months after the first date within the range, and the last page shows the last date's month |
| MaterialDatePicker.DayHeaders | com.unity.uiwidgets/Runtime/material2/date_picker.cs:285-296 | the weekday headers are seven narrow weekday names starting at the locale's first day of the week and going round the week |
| MaterialDatePicker.FirstDayOffsetAsWritten | com.unity.uiwidgets/Runtime/material2/date_picker.cs:313-324 | as written, with the truncating remainder, the first-day offset lies between -6 and 6 |
| MaterialDatePicker.NegativeFirstDayOffset | com.unity.uiwidgets/Runtime/material2/date_picker.cs:313-324 | as written, a month starting on a Monday in a locale whose week starts on Tuesday gets offset -1 |
| MaterialDatePicker.FirstDayOffset | com.unity.uiwidgets/Runtime/material2/date_picker.cs:313-324 | the corrected offset lies in 0 to 6 and counts the blank cells from the locale's first weekday to the weekday of the first of the month |
| MaterialDatePicker.FirstDayOffsetAgrees | com.unity.uiwidgets/Runtime/material2/date_picker.cs:313-324 | a non-negative as-written offset equals the corrected one, and locales whose week starts on Sunday or Monday never get a negative one |
| MaterialDatePicker.DayCells | com.unity.uiwidgets/Runtime/material2/date_picker.cs:335-350 | the day grid is the blanks before the first day followed by the days of the month |
| MaterialDatePicker.GridShowsEveryDay | com.unity.uiwidgets/Runtime/material2/date_picker.cs:335-350 | with an offset in 0 to 6 the grid starts with that many blanks and then shows every day of the month exactly once, in order |
| MaterialDatePicker.FirstOfMonthMissing | com.unity.uiwidgets/Runtime/material2/date_picker.cs:313-350 | as written, the grid for a month starting on a Monday in a Tuesday-first locale never shows day 1, while the corrected grid does |
| MaterialDatePicker.InitialDateEnabled | com.unity.uiwidgets/Runtime/material2/date_picker.cs:52-58 | an initial date that meets the picker's requirements is never shown disabled |
| MaterialDatePicker.EnabledWithinRange | com.unity.uiwidgets/Runtime/material2/date_picker.cs:346-349 | an enabled day lies within the first and last dates, and without a predicate being within them is exactly what enables a day |
| MaterialDatePicker.Years | com.unity.uiwidgets/Runtime/material2/date_picker.cs:694-696 | the year list has one entry per year from the first date's year to the last date's |
| MaterialDatePicker.YearListCoversRange | com.unity.uiwidgets/Runtime/material2/date_picker.cs:694-696 | the year list is non-empty and lists each year of the range exactly once |
| MaterialDatePicker.ClampDate | com.unity.uiwidgets/Runtime/material2/date_picker.cs:789-794 | the clamped date lies in [firstDate, lastDate]: firstDate for an earlier date, lastDate for a later one, the date itself when inside |
| MaterialDatePicker.HandleYearChanged | com.unity.uiwidgets/Runtime/material2/date_picker.cs:788-805 | the state is unchanged exactly when the clamped date is the one already selected; otherwise the clamped date is selected and the day view returns |
| MaterialDatePicker.HandleYearChangedIdempotent | com.unity.uiwidgets/Runtime/material2/date_picker.cs:788-805 | choosing the same date again changes nothing |
| MaterialDatePicker.YearTapAsWritten | com.unity.uiwidgets/Runtime/material2/date_picker.cs:702-705 | as written, tapping a year fails exactly when the selected day does not exist in that year's month, and otherwise keeps month and day |
| MaterialDatePicker.LeapDayYearTapFails | com.unity.uiwidgets/Runtime/material2/date_picker.cs:702-705 | as written, with 29 February 2020 selected, tapping 2021 fails |
| MaterialDatePicker.YearTap | com.unity.uiwidgets/Runtime/material2/date_picker.cs:702-705 | tapping a year gives a valid date in that year and month, keeping the day when it exists and otherwise the month's last day |
| MaterialDatePicker.YearTapAgrees | com.unity.uiwidgets/Runtime/material2/date_picker.cs:702-705 | wherever the as-written tap succeeds it gives the corrected date |
| CupertinoDatePicker.CreateNumbers | com.unity.uiwidgets/Runtime/cupertino/date_picker.cs:47-55 | the width-measuring labels are the ten single digits, from "9" down to "0" |
| CupertinoDatePicker.InitialMinuteItem | com.unity.uiwidgets/Runtime/cupertino/date_picker.cs:388 | for a minute interval dividing 60 and an initial minute on the interval, the minute column starts on an existing row that shows exactly that minute |
| CupertinoDatePicker.SelectedHour | com.unity.uiwidgets/Runtime/cupertino/date_picker.cs:338-339 | the selected hour is a valid hour of the day on the same 12-hour clock face as the row, and differs from the row index exactly when the hour region is flipped |
| CupertinoDatePicker.HourColumn | com.unity.uiwidgets/Runtime/cupertino/date_picker.cs:529-532 | the hour column has 24 rows |
| CupertinoDatePicker.HourColumnIsPermutation | com.unity.uiwidgets/Runtime/cupertino/date_picker.cs:529-532 | whether or not the region is flipped, the hour column lists every hour 0..23 exactly once |
| CupertinoDatePicker.DisplayHour | com.unity.uiwidgets/Runtime/cupertino/date_picker.cs:532 | in 24-hour format the row shows the hour itself; otherwise it shows a number from 1 to 12 on the same clock face |
| CupertinoDatePicker.InitialMeridiem | com.unity.uiwidgets/Runtime/cupertino/date_picker.cs:383-384 | the picker starts unflipped, so the initial hour row selects the initial hour |
| CupertinoDatePicker.HourChanged | com.unity.uiwidgets/Runtime/cupertino/date_picker.cs:563-583 | scrolling the hour column moves the meridiem region to the new row's half of the day and, from a well-formed state, leaves the picker flipped exactly as before |
| CupertinoDatePicker.AmPmChanged | com.unity.uiwidgets/Runtime/cupertino/date_picker.cs:670-673 | choosing AM or PM records that choice and leaves the meridiem region alone |
| CupertinoDatePicker.MeridiemStaysConsistent | com.unity.uiwidgets/Runtime/cupertino/date_picker.cs:563-583 | initialising, scrolling the hours and choosing AM/PM all keep the selected meridiem agreeing with the selected hour, and the AM/PM choice keeps the hour's clock-face position |
| CupertinoDatePicker.MinuteLabelsAsWritten | com.unity.uiwidgets/Runtime/cupertino/date_picker.cs:590-593 | as written, the minute column always has 24 rows, whatever the interval |
| CupertinoDatePicker.MinuteColumnWrongLength | com.unity.uiwidgets/Runtime/cupertino/date_picker.cs:590-593 | as written, with interval 1 minute 30 cannot be chosen, and with interval 5 the column shows minute 60 |
| CupertinoDatePicker.MinuteLabels | com.unity.uiwidgets/Runtime/cupertino/date_picker.cs:590-593 | the intended minute column has one row per interval step in the hour |
| CupertinoDatePicker.MinuteLabelInHour | com.unity.uiwidgets/Runtime/cupertino/date_picker.cs:590-593 | every row of the intended minute column is a minute of the hour on the interval |
| CupertinoDatePicker.MinuteInLabels | com.unity.uiwidgets/Runtime/cupertino/date_picker.cs:590-593 | every minute of the hour on the interval has a row |
| CupertinoDatePicker.MinuteLabelsCoverHour | com.unity.uiwidgets/Runtime/cupertino/date_picker.cs:590-593 | the intended minute column holds exactly the minutes of the hour on the interval, in strictly increasing order |
| CupertinoDatePicker.InRangeMinuteGreyed | com.unity.uiwidgets/Runtime/cupertino/date_picker.cs:604-605 | as written, a minute strictly between the minimum and maximum dates is shown as invalid |
| CupertinoDatePicker.MinuteInvalid | com.unity.uiwidgets/Runtime/cupertino/date_picker.cs:604-605 | a minute is greyed out exactly when it lies before the minimum or after the maximum date |
| CupertinoDatePicker.MinuteValidityInverted | com.unity.uiwidgets/Runtime/cupertino/date_picker.cs:604-605 | for every minute strictly inside the range, the written test disagrees with the intended one |
| CupertinoDatePicker.PreviousDay | com.unity.uiwidgets/Runtime/cupertino/date_picker.cs:886-892 | subtracting one day from a valid date other than 1 January of year 1 gives a valid, strictly earlier date |
| CupertinoDatePicker.LastDayInMonth | com.unity.uiwidgets/Runtime/cupertino/date_picker.cs:886-892 | the first of the next month minus one day is the month's last day, for every month but December 9999 |
| CupertinoDatePicker.TimerInit | com.unity.uiwidgets/Runtime/cupertino/date_picker.cs:1270-1281 | from a duration under a day the fields are in range and add up to the duration, less its seconds in hour-minute mode and less its whole hours in minute-second mode |
| CupertinoDatePicker.TimerHourAsWritten | com.unity.uiwidgets/Runtime/cupertino/date_picker.cs:1395-1404 | as written, scrolling the hours stores the hour, and the reported duration is the stored one only when the seconds are zero |
| CupertinoDatePicker.HourCallbackReportsHourAsSeconds | com.unity.uiwidgets/Runtime/cupertino/date_picker.cs:1395-1404 | as written, at 0:00:30 choosing hour 2 reports 2:00:02 instead of 2:00:30 |
| CupertinoDatePicker.TimerHour | com.unity.uiwidgets/Runtime/cupertino/date_picker.cs:1395-1404 | scrolling the hours stores the new hour and reports exactly the stored duration |
| CupertinoDatePicker.TimerMinute | com.unity.uiwidgets/Runtime/cupertino/date_picker.cs:1456-1464 | scrolling the minutes stores index times the interval and reports exactly the stored duration |
| CupertinoDatePicker.TimerSecond | com.unity.uiwidgets/Runtime/cupertino/date_picker.cs:1506-1514 | scrolling the seconds stores index times the interval and reports exactly the stored duration |
| CupertinoDatePicker.HourCallbackAgrees | com.unity.uiwidgets/Runtime/cupertino/date_picker.cs:1395-1404 | the written hour callback reports the right duration exactly when the seconds are zero or equal the new hour |
| NavBar.DerivedTitle | com.unity.uiwidgets/Runtime/cupertino/nav_bar.cs:806-817 | a title is derived exactly when titles are implied and the current route is a Cupertino route that has a title, and then it is that title |
| NavBar.CreateLeading | com.unity.uiwidgets/Runtime/cupertino/nav_bar.cs:821-864 | the caller's leading widget wins; otherwise a "Close" button appears exactly when leading widgets are implied and the route is a poppable full-screen dialog, and nothing appears in every other case |
| NavBar.CreateBackChevron | com.unity.uiwidgets/Runtime/cupertino/nav_bar.cs:868-885 | a back chevron appears exactly when there is no leading widget of the caller's, leading is implied, and the route can pop and is not a full-screen dialog |
| NavBar.CreateBackLabel | com.unity.uiwidgets/Runtime/cupertino/nav_bar.cs:889-913 | a back label appears under the same conditions as the chevron, carrying the previous page's title |
| NavBar.CreateMiddle | com.unity.uiwidgets/Runtime/cupertino/nav_bar.cs:917-944 | the caller's middle widget wins, then the large title when the bar is large, then the derived title |
| NavBar.CreateTrailing | com.unity.uiwidgets/Runtime/cupertino/nav_bar.cs:948-971 | a trailing slot exists exactly when the caller gave a trailing widget, and holds it |
| NavBar.CreateLargeTitle | com.unity.uiwidgets/Runtime/cupertino/nav_bar.cs:975-1000 | only a large bar has a large title: the caller's when given, the derived title otherwise |
| NavBar.LeadingAndBackExclusive | com.unity.uiwidgets/Runtime/cupertino/nav_bar.cs:821-885 | a leading component rules the back chevron out, and a poppable route with leading implied and no caller widget gets exactly one of Close and the chevron |
| NavBar.MiddleFallsBackToLargeTitle | com.unity.uiwidgets/Runtime/cupertino/nav_bar.cs:917-1000 | on a large bar without a caller middle widget the middle shows what the large title shows, and is never empty |
| NavBar.UserWidgetsWin | com.unity.uiwidgets/Runtime/cupertino/nav_bar.cs:821-971 | a widget the caller gives for leading, middle, trailing or a large bar's large title is shown in that slot unchanged, and the trailing slot holds only the caller's widget |
| NavBar.ToolbarLeading | com.unity.uiwidgets/Runtime/cupertino/nav_bar.cs:691-699 | the toolbar shows the leading slot when there is one, and otherwise a back button assembled from chevron and label exactly when both exist |
| NavBar.LeadingSlotCases | com.unity.uiwidgets/Runtime/cupertino/nav_bar.cs:821-913 | the toolbar's leading position shows the caller's widget, a "Close" button for a poppable full-screen dialog, a back button for any other poppable route, or nothing when leading is not implied or the route cannot pop |
| NavBar.PreviousTitleView | com.unity.uiwidgets/Runtime/cupertino/nav_bar.cs:1123-1144 | no previous title shows an empty box; a title of at most 12 UTF-16 code units is shown whole, a longer one is replaced by "Back", and the shown text never exceeds 12 units |
| NavBar.BackLabelView | com.unity.uiwidgets/Runtime/cupertino/nav_bar.cs:1146-1160 | a caller-given previous title is used first, then a Cupertino route's own previous title, each through the 12-code-unit rule of the title widget, and any other route shows an empty box |
| NavBar.BackLabelWholeOrBack | com.unity.uiwidgets/Runtime/cupertino/nav_bar.cs:1123-1144 | a given previous title is shown whole or as "Back", and always as "Back" when longer than 12 UTF-16 code units |
| NavBar.SevenEmojiTitleReadsBack | com.unity.uiwidgets/Runtime/cupertino/nav_bar.cs:1134-1136 | seven emoji, fourteen code units, exceed the limit and read "Back", since `Length` counts UTF-16 units |
| NavBar.FullObstruction | com.unity.uiwidgets/Runtime/cupertino/nav_bar.cs:296-298 | the bar's obstruction is unknown without a background colour and otherwise true exactly when the colour is fully opaque |
| Embedder.IsRendererValid | engine/src/shell/platform/embedder/embedder.cc:54-101 | a missing configuration or an unknown renderer type is invalid; an OpenGL configuration is valid exactly when all four of its callbacks are present, a software one exactly when its present callback is |
| Embedder.RendererValidityIgnoresOtherVariant | engine/src/shell/platform/embedder/embedder.cc:54-101 | validity reads only the variant the type selects, and a valid configuration always has a present callback |
| Embedder.ToPointerDataChange | engine/src/shell/platform/embedder/embedder.cc:829-851 | every known phase maps to the change of the same name, and an unknown phase maps to cancel |
| Embedder.PointerChangeBijective | engine/src/shell/platform/embedder/embedder.cc:829-851 | the known phases and the engine's changes correspond one to one |
| Embedder.ToPointerDataKind | engine/src/shell/platform/embedder/embedder.cc:855-866 | a touch device becomes a touch pointer and a keyboard device a keyboard pointer; everything else is a mouse |
| Embedder.PointerKindBijective | engine/src/shell/platform/embedder/embedder.cc:855-866 | each pointer kind comes from the field named after it, the three named fields map one to one, and an unset or unknown field reads as a mouse |
| Embedder.ToPointerDataSignalKind | engine/src/shell/platform/embedder/embedder.cc:870-883 | scroll and the two editor-drag signals map to their engine counterparts; everything else is no signal |
| Embedder.SignalKindBijective | engine/src/shell/platform/embedder/embedder.cc:870-883 | each signal kind comes from the field named after it, the named fields map one to one, and an unknown field reads as no signal |
| Embedder.PointerDataButtonsForLegacyEvent | engine/src/shell/platform/embedder/embedder.cc:887-904 | a legacy event reports the primary mouse button exactly on down and move, and no button otherwise |
| Embedder.ToPointerData | engine/src/shell/platform/embedder/embedder.cc:918-960 | each event keeps its time, position, device, scroll deltas, modifier and signal, gets zero deltas and identifier; an event without a device kind is a mouse pressed exactly on down or move; a touch is in contact exactly on down or move; other kinds pass their buttons through |
| Embedder.LegacyEventIsMouse | engine/src/shell/platform/embedder/embedder.cc:943-960 | an event without a device kind converts as a mouse event with the synthesized buttons would, and a touch event's own button field is ignored |
| Embedder.SendPointerEvent | engine/src/shell/platform/embedder/embedder.cc:906-972 | a missing engine, missing events or an empty batch is refused with nothing sent; otherwise the packet holds one converted entry per event, in order, and the call succeeds exactly when the engine takes the packet |
| Embedder.SendWindowMetricsEvent | engine/src/shell/platform/embedder/embedder.cc:803-826 | the call succeeds exactly when the engine and metrics are present, the pixel ratio is positive and the engine accepts the metrics; it never reports an internal inconsistency |
| Embedder.TextureCall | engine/src/shell/platform/embedder/embedder.cc:1102-1155 | registering, unregistering or marking a texture is refused exactly for a missing engine or texture 0, and succeeds exactly when the engine then agrees |
| Embedder.RefusedCallsIgnoreEngine | engine/src/shell/platform/embedder/embedder.cc:1102-1155 | a refused texture or metrics call has the same outcome whatever the engine would have answered |
| Embedder.BuildPlatformMessage | engine/src/shell/platform/embedder/embedder.cc:974-1016 | a message is built exactly when the engine, the argument and its channel exist and a non-empty size comes with data; it keeps the channel and carries no payload for size 0 and otherwise the first size bytes |
| Embedder.PlatformMessageRoundTrip | engine/src/shell/platform/embedder/embedder.cc:974-1016 | building from the argument that describes a message gives back that message, except that an empty payload comes back as no payload |
| Embedder.SendPlatformMessage | engine/src/shell/platform/embedder/embedder.cc:974-1023 | the call is refused exactly when the message cannot be built, and succeeds exactly when it is built and the engine accepts it |
| Embedder.LocaleStrings | engine/src/shell/platform/embedder/embedder.cc:1310-1331 | a locale contributes its language code followed by its country, script and variant codes, a missing one as the empty string |
| Embedder.SetLocaleArgs | engine/src/shell/platform/embedder/embedder.cc:1303-1333 | the arguments exist exactly when every locale has a language code, and then hold four strings per locale, in order |
| Embedder.LocaleArgsRoundTrip | engine/src/shell/platform/embedder/embedder.cc:1303-1333 | reading the arguments back four at a time gives every locale, with missing optional codes as empty strings |
| Embedder.UpdateLocales | engine/src/shell/platform/embedder/embedder.cc:1288-1345 | no locales succeeds at once; the call is refused exactly for a missing engine, or for a non-empty update with no list or a locale without language code; it reports an internal inconsistency exactly when the engine then refuses the message |
| CSharpInt.Rem | com.unity.uiwidgets/Runtime/material2/date_picker.cs:322-323 | C#'s `%` for a positive divisor: the remainder is smaller than the divisor in magnitude and takes the sign of the dividend, and differs from the Euclidean remainder by at most one divisor |
| CSharpInt.RemAgainstEuclidean | com.unity.uiwidgets/Runtime/material2/date_picker.cs:322-323 | C#'s remainder equals the Euclidean one for a non-negative dividend, is one divisor less for a negative dividend that does not divide evenly, and is zero exactly when the Euclidean one is |

## Left out

- Native calls: every `[DllImport]` into the engine (paths, canvases, images, paragraphs) is left out, because its behaviour lives outside the C# code.
- Embedder engine internals: the engine lifecycle, threads, Skia surfaces, GL proc resolution and task posting are left out. Whether the engine accepts a call is a boolean parameter.
- Embedder plumbing: platform-message response handles, the `struct_size` stride between pointer events and the JSON text of the `setLocale` message are left out. Events are a sequence, and the message's `args` is a sequence of strings.
- Embedder constants: engine/src/shell/platform/embedder/pointer_data.h is not part of this model. The button masks are named constants, not the header's values.
- Floating point: `float` values are reals, so rounding and NaN are not modelled. Box constraints add an explicit +infinity.
- `Box.Clamp`: the `clamp` extension's source is not part of this model. It is assumed to return lo below lo, hi above hi, and the value otherwise.
- Dates and times: time.cs (`TimeOfDay`) and `System.DateTime` are not part of this model.
  - Dates are (year, month, day) triples in the Gregorian calendar for years 1 to 9999.
  - The weekday of a date is a parameter.
  - Times of day and sub-second ticks are left out.
- `CupertinoDatePicker`: the looping picker's negative item indices are left out. Rows are taken in 0..count-1.
- `Framework.BuildScope`: the rebuild loop's calls into each element's `rebuild` are left out. Only the dirty-list state before and after the scope is modelled.
- `RenderObjects.FlushLayoutRound`: one round of `flushLayout` is modelled. Nodes dirtied by another node's layout during the flush are left out, because `performLayout` is a subclass's own code.
- `RenderObjects.MarkNeedsLayout`: every node is attached to the one pipeline owner, so the `owner == null` case (object.cs:754) is left out. In that case a boundary is marked but not queued.
- `RenderObjects.MarkNeedsLayout`: the layout-callback flag is left out, so the model always goes on to the parent. While a node runs a layout callback, `markParentNeedsLayout` marks only that node (object.cs:774-779). Layout callbacks run a subclass's own code.
- `CupertinoDatePicker.LastDayInMonth`: December 9999 is excluded. There the source's `AddMonths(1)` throws, because January 10000 is outside the 1..9999 date range.
- `RenderObjects.TransformPairs`: `getTransformTo` is modelled as the chain of (parent, child) pairs it multiplies, not as matrix arithmetic.
- `Layers.Walk`: following the sibling links takes a step bound. `WalkFollowsRepresents` uses the list length as that bound, which is enough for every well-formed list.
- Sort stability: `Element._sort` and the inspector's area sort are modelled as sorts that permute their input. The relative order of equal elements is left out, because C#'s `List.Sort` is not stable.
- `WidgetInspector`: objects and locations are compared by value ids, not by reference identity. `_Location.toJsonMap` is a record, not a dictionary.
- `EditableText.ObscuredText`: the obscure-text tick countdown is the parameter `ticksPending`, because timers are left out.
- `Editable`: the vertical arrows and the word-wise moves need paragraph layout and the engine's word boundaries, so they are left out.
- UI plumbing: widget `build` methods, animations, tickers, focus, keyboard listeners, the clipboard and hero transitions are left out. They have no stateable contract beyond what the modelled rules decide.
- Diagnostics: the text-tree renderer and word wrapper in diagnostics.cs are left out. They are string layout coupled to the node hierarchy.
- `Diagnostics.IsFiltered`: release mode is a parameter, not the `kReleaseMode` constant.
- Debug messages: the message text of `D.assert` is left out. An assertion that guards a modelled operation is a `requires` clause or an error result.

## Findings

Nothing was executed. Each row names the input that exhibits the discrepancy in the model of the code as written.

| source | as written | input that shows it | evidently intended | confidence | as-written member | corrected member |
|---|---|---|---|---|---|---|
| com.unity.uiwidgets/Runtime/ui/painting.cs:2222-2259 | the `Vertices` constructor reads the optional colour and index arrays without a null check | 3 positions with no texture coordinates, colours or indices (`VerticesAsWrittenRejectsOmittedArrays`) | omitted arrays encode as empty | high (not executed) | Painting.VerticesAsWritten | Painting.Vertices |
| com.unity.uiwidgets/Runtime/ui2/text.cs:140-148 | the tag assertion tests `c <= 0x20 && c >= 0x7F`, which no character meets | the tag of four spaces passes (`TagCheckAsWrittenIsVacuous`, `TagCheckAsWrittenAcceptsEverything`) | `c <= 0x20 \|\| c >= 0x7F` rejects non-printable tag characters | high (not executed) | Text.TagCheckAsWritten | Text.TagCheck |
| com.unity.uiwidgets/Runtime/ui2/text.cs:574-580 | `setFloat` asserts `byteOffset + 4 < bytes.Length` | a strut with weight, style, size, height and leading puts its last float at byte 11 of the 15-byte buffer, and 11 + 4 < 15 fails (`EncodeStrutAsWrittenFailsWhenFull`) | `byteOffset + 4 <= bytes.Length` | high (not executed) | Text.EncodeStrutAsWritten | Text.StrutFloatsFit |
| com.unity.uiwidgets/Runtime/rendering/editable.cs:671-695 | `_handleDelete` removes two code units whenever the first one after the caret is a high surrogate | text made of a lone high surrogate with the caret at 0 (`DeleteLoneHighSurrogateFails`) | remove two units only when a whole surrogate pair follows | medium (not executed) | Editable.HandleDeleteAsWritten | Editable.HandleDelete |
| com.unity.uiwidgets/Runtime/widgets/basic.cs:1756-1772 | the `PositionedDirectional` constructor never stores `height` | start 0 and height 10 build a `Positioned` with no height (`PositionedDirectionalDropsHeight`) | the height is passed through | high (not executed) | Basic.MakePositionedDirectionalAsWritten | Basic.MakePositionedDirectional |
| com.unity.uiwidgets/Runtime/widgets/widget_inspector.cs:61-70 | `_toLocationId` reads `_locationToId[location]` with the throwing indexer before its not-found branch | any location on an empty table (`ToLocationIdAsWrittenNeverRecords`) | look up with a default and record unseen locations | high (not executed) | WidgetInspector.ToLocationIdAsWritten | WidgetInspector.ToLocationId |
| com.unity.uiwidgets/Runtime/material/chip.cs:1763-1775 | `_updateChild` reads `slotToChild[slot]` with the throwing indexer | a `_ChipRenderWidget` mounted without an avatar and rebuilt (`RebuildWithoutAvatarFails`); `RawChip.build` (chip.cs:1549-1568) always passes avatar, label and delete-icon widgets, so the public chip widget does not reach this input | read with a default, as `_mountChild` does | low: latent, unreachable through `RawChip` (not executed) | Chip.UpdateAsWritten | Chip.Update |
| com.unity.uiwidgets/Runtime/material/chip.cs:1408 | the tap reports `!widget.selected == true`, which is false for a null `selected` | a tappable chip whose `selected` is null reports false (`TapOnNullSelectedReportsFalse`) | report `true`, selecting an unselected chip | medium (not executed) | Chip.TapAsWritten | Chip.Tap |
| com.unity.uiwidgets/Runtime/material2/input_decorator.cs:2264-2362 | `copyWith` and `applyDefaults` build through the constructor, which sets `isCollapsed = false` | a collapsed, bordered decoration gets border weight 1 instead of 0 after the theme defaults (`UncollapsedBorderWeight`) | keep `isCollapsed` | medium (not executed) | InputDecorator.ApplyDefaultsAsWritten | InputDecorator.ApplyDefaults |
| com.unity.uiwidgets/Runtime/material/time_picker.cs:479-485 | the 12-hour `hoursFromSelected` takes the sum modulo 12 after adding the period offset, so it always lands in the morning; the results feed only the unused locals `formattedNextHour` and `formattedPreviousHour` (time_picker.cs:488-496), so nothing visible changes | one hour after 13:00 gives 02:00 (`NextHourAfterOnePmIsMorning`) | stay in the selected period | high for the arithmetic, no visible effect (not executed) | TimePicker.HoursFromSelected12AsWritten | TimePicker.HoursFromSelected12 |
| com.unity.uiwidgets/Runtime/material2/date_picker.cs:313-324 | `_computeFirstDayOffset` uses C#'s `%`, which is negative for a negative difference | a month starting on Monday with Tuesday as first day of the week gives -1, and the grid then has no day 1 (`NegativeFirstDayOffset`, `FirstOfMonthMissing`) | an offset in 0..6 | high (not executed) | MaterialDatePicker.FirstDayOffsetAsWritten | MaterialDatePicker.FirstDayOffset |
| com.unity.uiwidgets/Runtime/material2/date_picker.cs:702-705 | tapping a year builds `new DateTime(year, month, day)` from the selected date | 29 February 2020 and a tap on 2021 make an invalid date (`LeapDayYearTapFails`) | cut the day to the target month's length | medium (not executed) | MaterialDatePicker.YearTapAsWritten | MaterialDatePicker.YearTap |
| com.unity.uiwidgets/Runtime/cupertino/date_picker.cs:590-593 | the minute column always builds 24 rows | interval 1 cannot show minute 30, and interval 5 shows minute 60 (`MinuteColumnWrongLength`) | 60 / minuteInterval rows | high (not executed) | CupertinoDatePicker.MinuteLabelsAsWritten | CupertinoDatePicker.MinuteLabels |
| com.unity.uiwidgets/Runtime/cupertino/date_picker.cs:604-605 | a minute is greyed when the minimum is before it or the maximum after it | minute 50 between minimum 0 and maximum 100 is greyed (`InRangeMinuteGreyed`) | grey minutes before the minimum or after the maximum | high (not executed) | CupertinoDatePicker.MinuteInvalidAsWritten | CupertinoDatePicker.MinuteInvalid |
| com.unity.uiwidgets/Runtime/cupertino/date_picker.cs:1395-1404 | the timer's hour callback reports `selectedSecond == 0 ? 0 : selectedHour` seconds | at 0:00:30 choosing hour 2 reports 2:00:02 (`HourCallbackReportsHourAsSeconds`) | report the selected seconds | high (not executed) | CupertinoDatePicker.TimerHourAsWritten | CupertinoDatePicker.TimerHour |
| com.unity.uiwidgets/Runtime/widgets/editable_text.cs:209-224 | the constructor copies the caller's formatters only when the list is null, and only after replacing null by an empty list, so it copies nothing; a single-line field then gets the single-line formatter twice | one user formatter and `maxLines` 1 give two single-line formatters (`SingleLineDropsUserFormatters`) | the single-line formatter followed by the user's formatters | high (not executed) | EditableText.InputFormattersAsWritten | EditableText.InputFormatters |
| com.unity.uiwidgets/Runtime/foundation/diagnostics.cs:42-47 | `describeEnum` asserts that `ToString()` has a dot before its last character | any C# enum value, such as `DiagnosticLevel.info`, whose `ToString()` is the dot-free name "info"; the callers at diagnostics.cs:1104, 1116 and 2047 pass exactly these values (`EnumNameFailsCheck`) | the value's name, which is what a release build returns | high (not executed) | Diagnostics.DescribeEnumAsWritten | Diagnostics.DescribeEnum |
