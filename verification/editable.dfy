/** Editable text boxes (rendering/editable.cs): the whitespace table, caret
    movement by arrow keys across surrogate pairs, shift selection, the cut,
    copy, paste and select-all shortcuts, forward delete, and the word search
    helpers. Text is UTF-16 code units. */
module Editable {
  import opened Wrappers
  import opened Utf16

  // ---------------------------------------------------------------------------
  // Whitespace

  /** The 26 code units `_isWhitespace` lists: the C0 separators and space,
      no-break space, ogham space, the general-punctuation spaces and the
      ideographic space. */
  const WhitespaceUnits: set<CodeUnit> :=
    {0x9, 0xA, 0xB, 0xC, 0xD, 0x1C, 0x1D, 0x1E, 0x1F, 0x20, 0xA0, 0x1680,
     0x2000, 0x2001, 0x2002, 0x2003, 0x2004, 0x2005, 0x2006, 0x2007, 0x2008,
     0x2009, 0x200A, 0x202F, 0x205F, 0x3000}

  /** `EditableUtils._isWhitespace`, case by case as the switch lists them. */
  function IsWhitespace(u: int): (r: bool)
    ensures r <==> 0 <= u < 0x1_0000 && u in WhitespaceUnits
  {
    (0x9 <= u <= 0xD) || (0x1C <= u <= 0x20) || u == 0xA0 || u == 0x1680 ||
    (0x2000 <= u <= 0x200A) || u == 0x202F || u == 0x205F || u == 0x3000
  }

  // ---------------------------------------------------------------------------
  // Selections

  /** A selection: a base and an extent offset, in either order. */
  datatype TextSelection = TextSelection(baseOffset: int, extentOffset: int)

  function Start(s: TextSelection): int { if s.baseOffset < s.extentOffset then s.baseOffset else s.extentOffset }
  function End(s: TextSelection): int { if s.baseOffset < s.extentOffset then s.extentOffset else s.baseOffset }
  predicate IsCollapsed(s: TextSelection) { s.baseOffset == s.extentOffset }

  function CollapsedAt(offset: int): TextSelection { TextSelection(offset, offset) }

  /** The selection lies inside the text. */
  predicate InText(s: TextSelection, text: Text16) {
    0 <= Start(s) && End(s) <= |text|
  }

  function Before(s: TextSelection, text: Text16): Text16
    requires InText(s, text)
  {
    text[..Start(s)]
  }

  function Inside(s: TextSelection, text: Text16): Text16
    requires InText(s, text)
  {
    text[Start(s)..End(s)]
  }

  function After(s: TextSelection, text: Text16): Text16
    requires InText(s, text)
  {
    text[End(s)..]
  }

  datatype EditingValue = EditingValue(text: Text16, selection: TextSelection)

  // ---------------------------------------------------------------------------
  // Arrow keys

  /** The caret after an arrow key and the remembered cursor location. */
  datatype Caret = Caret(offset: int, previousCursorLocation: int)

  /** `_handleHorizontalArrows`: right moves past a whole surrogate pair (two
      units) or one unit, and only while the extent is before the end; left
      mirrors this with a low surrogate before the caret. With shift the
      remembered cursor location moves by the same amount. */
  function HandleHorizontalArrows(text: Text16, extentOffset: int, rightArrow: bool, leftArrow: bool,
                                  shift: bool, c: Caret): (r: Caret)
    requires !(rightArrow && leftArrow)
    requires 0 <= c.offset <= |text|
    ensures rightArrow && extentOffset < |text| ==>
      r.offset - c.offset == (if c.offset < |text| - 1 && IsHighSurrogate(text[c.offset]) then 2 else 1)
    ensures leftArrow && extentOffset > 0 ==>
      c.offset - r.offset == (if c.offset > 1 && IsLowSurrogate(text[c.offset - 1]) then 2 else 1)
    ensures !(rightArrow && extentOffset < |text|) && !(leftArrow && extentOffset > 0) ==> r == c
    ensures r.previousCursorLocation - c.previousCursorLocation == (if shift then r.offset - c.offset else 0)
    ensures extentOffset == c.offset ==> 0 <= r.offset <= |text|
  {
    if rightArrow && extentOffset < |text| then
      var step := if c.offset < |text| - 1 && IsHighSurrogate(text[c.offset]) then 2 else 1;
      Caret(c.offset + step, c.previousCursorLocation + (if shift then step else 0))
    else if leftArrow && extentOffset > 0 then
      var step := if c.offset > 1 && IsLowSurrogate(text[c.offset - 1]) then 2 else 1;
      Caret(c.offset - step, c.previousCursorLocation - (if shift then step else 0))
    else c
  }

  /** The unit at o starts a character: a surrogate pair with its low half
      after it, or a unit that is no surrogate half. */
  predicate StartsCharacter(text: Text16, o: int) {
    0 <= o < |text| &&
    (if IsHighSurrogate(text[o]) then o + 1 < |text| && IsLowSurrogate(text[o + 1])
     else !IsLowSurrogate(text[o]))
  }

  /** Right then left across one character returns the caret to where it
      was, for a pair and for a single unit alike. */
  lemma RightThenLeftRestoresCaret(text: Text16, o: int, prev: int, shift: bool)
    requires StartsCharacter(text, o)
    ensures var right := HandleHorizontalArrows(text, o, true, false, shift, Caret(o, prev));
            HandleHorizontalArrows(text, right.offset, false, true, shift, right) == Caret(o, prev)
  {
  }

  /** What `_handleShift` reports to `onSelectionChanged` and the new caret. */
  datatype ShiftOutcome = ShiftOutcome(offset: int, reported: Option<TextSelection>)

  /** `_handleShift`: with shift the selection from the base to the caret is
      reported with its smaller end first; without shift a non-collapsed
      selection collapses to its smaller end on left and its larger end on
      right, and the collapsed caret is reported. Nothing is reported when no
      one listens. */
  function HandleShift(listening: bool, rightArrow: bool, leftArrow: bool, shift: bool,
                       baseOffset: int, extentOffset: int, collapsed: bool, newOffset: int): (r: ShiftOutcome)
    ensures !listening ==> r == ShiftOutcome(newOffset, None)
    ensures listening ==> r.reported.Some?
    ensures listening && shift ==>
      (r.offset == newOffset && r.reported.value.baseOffset <= r.reported.value.extentOffset &&
       {r.reported.value.baseOffset, r.reported.value.extentOffset} == {baseOffset, newOffset})
    ensures listening && !shift ==> r.reported == Some(CollapsedAt(r.offset))
    ensures listening && !shift && !collapsed && leftArrow ==>
      r.offset <= baseOffset && r.offset <= extentOffset && (r.offset == baseOffset || r.offset == extentOffset)
    ensures listening && !shift && !collapsed && !leftArrow && rightArrow ==>
      r.offset >= baseOffset && r.offset >= extentOffset && (r.offset == baseOffset || r.offset == extentOffset)
    ensures listening && !shift && (collapsed || (!leftArrow && !rightArrow)) ==> r.offset == newOffset
  {
    if !listening then ShiftOutcome(newOffset, None)
    else if shift then
      if baseOffset < newOffset then ShiftOutcome(newOffset, Some(TextSelection(baseOffset, newOffset)))
      else ShiftOutcome(newOffset, Some(TextSelection(newOffset, baseOffset)))
    else
      var o := if !collapsed && leftArrow then (if baseOffset < extentOffset then baseOffset else extentOffset)
               else if !collapsed && rightArrow then (if baseOffset > extentOffset then baseOffset else extentOffset)
               else newOffset;
      ShiftOutcome(o, Some(CollapsedAt(o)))
  }

  // ---------------------------------------------------------------------------
  // Shortcuts

  /** Copy: the selected text goes to the clipboard, unless nothing is
      selected. */
  function Copy(v: EditingValue): (clip: Option<Text16>)
    requires InText(v.selection, v.text)
    ensures clip.None? <==> IsCollapsed(v.selection)
    ensures clip.Some? ==> |clip.value| == End(v.selection) - Start(v.selection) &&
                           v.text == Before(v.selection, v.text) + clip.value + After(v.selection, v.text)
  {
    if IsCollapsed(v.selection) then None else Some(Inside(v.selection, v.text))
  }

  /** Cut: a non-collapsed selection is copied and removed, leaving the caret
      where it began; a collapsed one changes nothing. */
  function Cut(v: EditingValue): (r: Option<EditingValue>)
    requires InText(v.selection, v.text)
    ensures r.None? <==> IsCollapsed(v.selection)
    ensures r.Some? ==> r.value.text == Before(v.selection, v.text) + After(v.selection, v.text)
    ensures r.Some? ==> |r.value.text| == |v.text| - (End(v.selection) - Start(v.selection))
    ensures r.Some? ==> r.value.selection == CollapsedAt(Start(v.selection)) && InText(r.value.selection, r.value.text)
  {
    if IsCollapsed(v.selection) then None
    else Some(EditingValue(Before(v.selection, v.text) + After(v.selection, v.text), CollapsedAt(Start(v.selection))))
  }

  /** Paste: the clipboard text replaces the selection and the caret lands
      after it; nothing happens when the clipboard is empty. */
  function Paste(v: EditingValue, data: Option<Text16>): (r: Option<EditingValue>)
    requires InText(v.selection, v.text)
    ensures r.Some? <==> data.Some?
    ensures r.Some? ==> r.value.text == Before(v.selection, v.text) + data.value + After(v.selection, v.text)
    ensures r.Some? ==> r.value.selection == CollapsedAt(Start(v.selection) + |data.value|) && InText(r.value.selection, r.value.text)
  {
    if data.None? then None
    else Some(EditingValue(Before(v.selection, v.text) + data.value + After(v.selection, v.text),
                           CollapsedAt(Start(v.selection) + |data.value|)))
  }

  /** Cutting a selection and pasting it straight back restores the text,
      with the caret after the restored selection. */
  lemma CutThenPasteRestores(v: EditingValue)
    requires InText(v.selection, v.text) && !IsCollapsed(v.selection)
    ensures var cut := Cut(v).value;
            Paste(cut, Copy(v)) == Some(EditingValue(v.text, CollapsedAt(End(v.selection))))
  {
    var cut := Cut(v).value;
    var s := Start(v.selection);
    assert Before(cut.selection, cut.text) == Before(v.selection, v.text);
    assert After(cut.selection, cut.text) == After(v.selection, v.text);
    assert Before(v.selection, v.text) + Inside(v.selection, v.text) + After(v.selection, v.text) == v.text;
  }

  /** Select all: base 0, extent at the end of the text. */
  function SelectAll(text: Text16): (r: TextSelection)
    ensures InText(r, text) && Start(r) == 0 && End(r) == |text|
    ensures Inside(r, text) == text
  {
    TextSelection(0, |text|)
  }

  // ---------------------------------------------------------------------------
  // Forward delete

  datatype DeleteError = SubstringOutOfRange

  /** `_handleDelete` as written: the selection and the unit after it are
      removed, two units when that unit is a high surrogate; `Substring(2)`
      fails when the high surrogate is the last unit of the text. */
  function HandleDeleteAsWritten(v: EditingValue): (r: Result<EditingValue, DeleteError>)
    requires InText(v.selection, v.text)
    ensures r.Failure? <==> |After(v.selection, v.text)| == 1 && IsHighSurrogate(v.text[End(v.selection)])
  {
    var before := Before(v.selection, v.text);
    var after := After(v.selection, v.text);
    var caret := CollapsedAt(Start(v.selection));
    if |after| > 0 then
      if IsHighSurrogate(v.text[End(v.selection)]) then
        if |after| < 2 then Failure(SubstringOutOfRange)
        else Success(EditingValue(before + after[2..], caret))
      else Success(EditingValue(before + after[1..], caret))
    else Success(EditingValue(before, caret))
  }

  /** A lone high surrogate at the end of the text makes delete throw. */
  lemma DeleteLoneHighSurrogateFails()
    ensures HandleDeleteAsWritten(EditingValue([0xD800], CollapsedAt(0))).Failure?
  {
    assert After(CollapsedAt(0), [0xD800]) == [0xD800];
  }

  /** Delete as intended: the unit after the selection goes, together with
      its low half when it starts a surrogate pair that is complete. */
  function HandleDelete(v: EditingValue): (r: EditingValue)
    requires InText(v.selection, v.text)
    ensures r.selection == CollapsedAt(Start(v.selection)) && InText(r.selection, r.text)
    ensures |After(v.selection, v.text)| == 0 ==> r.text == Before(v.selection, v.text)
    ensures |After(v.selection, v.text)| > 0 ==>
      exists k | k in {1, 2} :: k <= |After(v.selection, v.text)| &&
        r.text == Before(v.selection, v.text) + After(v.selection, v.text)[k..]
    ensures var after := After(v.selection, v.text);
            |after| >= 2 && IsHighSurrogate(after[0]) ==> r.text == Before(v.selection, v.text) + after[2..]
    ensures var after := After(v.selection, v.text);
            |after| > 0 && !(|after| >= 2 && IsHighSurrogate(after[0])) ==> r.text == Before(v.selection, v.text) + after[1..]
  {
    var before := Before(v.selection, v.text);
    var after := After(v.selection, v.text);
    var caret := CollapsedAt(Start(v.selection));
    if |after| > 0 then
      var k := if IsHighSurrogate(after[0]) && |after| >= 2 then 2 else 1;
      assert k in {1, 2};
      EditingValue(before + after[k..], caret)
    else EditingValue(before, caret)
  }

  /** Wherever the code as written does not throw, it agrees with the
      corrected delete. */
  lemma HandleDeleteAgrees(v: EditingValue)
    requires InText(v.selection, v.text) && HandleDeleteAsWritten(v).Success?
    ensures HandleDeleteAsWritten(v).value == HandleDelete(v)
  {
  }

  // ---------------------------------------------------------------------------
  // Words

  /** A range of code-unit offsets, start inclusive and end exclusive. */
  datatype TextRange = TextRange(start: int, end: int)

  /** Every offset of the range holds a whitespace unit of the text. */
  predicate OnlyWhitespaceSpec(text: Text16, range: TextRange) {
    forall i | range.start <= i < range.end :: WhitespaceAt(text, i)
  }

  /** The text holds a whitespace unit at offset i. */
  predicate WhitespaceAt(text: Text16, i: int) {
    0 <= i < |text| && IsWhitespace(text[i])
  }

  /** `_onlyWhitespace`: scans the range, reading an offset outside the text
      as 0, which is not whitespace. */
  method OnlyWhitespace(text: Text16, range: TextRange) returns (r: bool)
    ensures r <==> OnlyWhitespaceSpec(text, range)
  {
    if range.end <= range.start {
      return true;
    }
    var i := range.start;
    while i < range.end
      invariant range.start <= i <= range.end
      invariant forall j | range.start <= j < i :: WhitespaceAt(text, j)
    {
      var codeUnit: int := if 0 <= i < |text| then text[i] else 0;
      if !IsWhitespace(codeUnit) {
        assert !WhitespaceAt(text, i);
        return false;
      }
      assert WhitespaceAt(text, i);
      i := i + 1;
    }
    return true;
  }

  /** A word boundary function, as the text painter answers it: the word
      around an offset, or none. */
  type WordBoundary = int -> Option<TextRange>

  /** The painter's word at an offset never starts after that offset. */
  ghost predicate BoundaryContainsOffset(boundary: WordBoundary) {
    forall o: int {:trigger boundary(o)} :: boundary(o).Some? ==> boundary(o).value.start <= o
  }

  /** A word the walk can stand on: present, valid and not collapsed. */
  predicate UsableWord(range: Option<TextRange>) {
    range.Some? && range.value.start >= 0 && range.value.end >= 0 && range.value.start != range.value.end
  }

  /** The offsets the backward word walk asks the painter about, starting at
      o: each whitespace-only word sends it to the offset just before that
      word, and it stops after a word it cannot use or one with a
      non-whitespace unit, or once the offset is negative. */
  ghost function WalkOffsets(text: Text16, boundary: WordBoundary, o: int): (os: seq<int>)
    requires BoundaryContainsOffset(boundary)
    decreases if o < 0 then 0 else o + 1
  {
    if o < 0 then []
    else
      var range := boundary(o);
      if !UsableWord(range) || !OnlyWhitespaceSpec(text, range.value) then [o]
      else [o] + WalkOffsets(text, boundary, range.value.start - 1)
  }

  /** The word the backward walk from o ends on, if it ends on a usable word
      that is not only whitespace. */
  ghost function PreviousWordWalk(text: Text16, boundary: WordBoundary, o: int): Option<TextRange>
    requires BoundaryContainsOffset(boundary)
    decreases if o < 0 then 0 else o + 1
  {
    if o < 0 then None
    else
      var range := boundary(o);
      if !UsableWord(range) then None
      else if !OnlyWhitespaceSpec(text, range.value) then range
      else PreviousWordWalk(text, boundary, range.value.start - 1)
  }

  /** One step of the walk: the word at x is usable and only whitespace, and
      the walk goes on at y, just before that word. */
  predicate WhitespaceStep(text: Text16, boundary: WordBoundary, x: int, y: int) {
    UsableWord(boundary(x)) && OnlyWhitespaceSpec(text, boundary(x).value) && y == boundary(x).value.start - 1
  }

  /** A usable word with a unit that is not whitespace. */
  predicate NonBlankWord(text: Text16, range: Option<TextRange>) {
    UsableWord(range) && !OnlyWhitespaceSpec(text, range.value)
  }

  /** Every offset the walk from o visits lies in [0, o]. */
  lemma {:induction false} WalkOffsetsBounded(text: Text16, boundary: WordBoundary, o: int)
    requires BoundaryContainsOffset(boundary)
    ensures forall k | 0 <= k < |WalkOffsets(text, boundary, o)| :: 0 <= WalkOffsets(text, boundary, o)[k] <= o
    decreases if o < 0 then 0 else o + 1
  {
    if o >= 0 {
      var range := boundary(o);
      if UsableWord(range) && OnlyWhitespaceSpec(text, range.value) {
        assert range.value.start <= o;
        WalkOffsetsBounded(text, boundary, range.value.start - 1);
      }
    }
  }

  /** Consecutive offsets of os are whitespace steps, strictly downwards. */
  predicate Stepwise(text: Text16, boundary: WordBoundary, os: seq<int>) {
    forall k | 0 <= k < |os| - 1 :: WhitespaceStep(text, boundary, os[k], os[k + 1]) && os[k + 1] < os[k]
  }

  /** Between consecutive offsets the walk passes over a whitespace-only word
      and moves strictly down. */
  lemma {:induction false} WalkOffsetsSteps(text: Text16, boundary: WordBoundary, o: int)
    requires BoundaryContainsOffset(boundary)
    ensures Stepwise(text, boundary, WalkOffsets(text, boundary, o))
    decreases if o < 0 then 0 else o + 1
  {
    if o >= 0 {
      var range := boundary(o);
      if UsableWord(range) && OnlyWhitespaceSpec(text, range.value) {
        assert range.value.start <= o;
        WalkOffsetsSteps(text, boundary, range.value.start - 1);
        var tail := WalkOffsets(text, boundary, range.value.start - 1);
        var os := WalkOffsets(text, boundary, o);
        assert os == [o] + tail;
        assert |tail| > 0 ==> tail[0] == range.value.start - 1;
        forall k | 0 <= k < |os| - 1
          ensures WhitespaceStep(text, boundary, os[k], os[k + 1]) && os[k + 1] < os[k]
        {
          if k > 0 {
            assert os[k] == tail[k - 1] && os[k + 1] == tail[k - 1 + 1];
          }
        }
      }
    }
  }

  /** The walk finds a word exactly when the last word it asks about is
      usable and not only whitespace, and then finds that word. */
  lemma {:induction false} WalkEndsOnWord(text: Text16, boundary: WordBoundary, o: int)
    requires BoundaryContainsOffset(boundary)
    ensures var os := WalkOffsets(text, boundary, o);
      (PreviousWordWalk(text, boundary, o).Some? <==> |os| > 0 && NonBlankWord(text, boundary(os[|os| - 1]))) &&
      (PreviousWordWalk(text, boundary, o).Some? ==> PreviousWordWalk(text, boundary, o) == boundary(os[|os| - 1]))
    decreases if o < 0 then 0 else o + 1
  {
    if o >= 0 {
      var range := boundary(o);
      if UsableWord(range) && OnlyWhitespaceSpec(text, range.value) {
        assert range.value.start <= o;
        WalkEndsOnWord(text, boundary, range.value.start - 1);
        var tail := WalkOffsets(text, boundary, range.value.start - 1);
        var os := WalkOffsets(text, boundary, o);
        assert os == [o] + tail;
        if |tail| > 0 {
          assert os[|os| - 1] == tail[|tail| - 1];
        } else {
          assert !NonBlankWord(text, boundary(os[|os| - 1]));
        }
      }
    }
  }

  /** The walk from o visits offsets in [0, o], strictly downwards, passing
      only over usable whitespace-only words; the word it finds is the last
      word it asks about, and it finds none exactly when every usable word
      it reaches is only whitespace. */
  lemma PreviousWordNearest(text: Text16, boundary: WordBoundary, o: int)
    requires BoundaryContainsOffset(boundary)
    ensures var os := WalkOffsets(text, boundary, o);
      (forall k | 0 <= k < |os| :: 0 <= os[k] <= o) &&
      Stepwise(text, boundary, os) &&
      (PreviousWordWalk(text, boundary, o).Some? <==> |os| > 0 && NonBlankWord(text, boundary(os[|os| - 1]))) &&
      (PreviousWordWalk(text, boundary, o).Some? ==> PreviousWordWalk(text, boundary, o) == boundary(os[|os| - 1])) &&
      (PreviousWordWalk(text, boundary, o).None? <==> forall k | 0 <= k < |os| :: !NonBlankWord(text, boundary(os[k])))
  {
    WalkOffsetsBounded(text, boundary, o);
    WalkOffsetsSteps(text, boundary, o);
    WalkEndsOnWord(text, boundary, o);
  }

  /** `_getPreviousWord`: from the offset backwards, the first word that is
      valid, not collapsed and not only whitespace; none once the walk falls
      off the start or meets a missing, invalid or collapsed word. */
  method GetPreviousWord(text: Text16, boundary: WordBoundary, offset: int) returns (r: Option<TextRange>)
    requires BoundaryContainsOffset(boundary)
    ensures r == PreviousWordWalk(text, boundary, offset)
    ensures r.Some? ==> r.value.start >= 0 && r.value.end >= 0 && r.value.start != r.value.end
    ensures r.Some? ==> !OnlyWhitespaceSpec(text, r.value) && r.value.start <= offset
    ensures r.Some? ==> exists o: int {:trigger boundary(o)} :: o <= offset && boundary(o) == r
  {
    var o := offset;
    while o >= 0
      invariant o <= offset
      invariant PreviousWordWalk(text, boundary, o) == PreviousWordWalk(text, boundary, offset)
      decreases o
    {
      var range := boundary(o);
      if range.None? || range.value.start < 0 || range.value.end < 0 || range.value.start == range.value.end {
        return None;
      }
      var ws := OnlyWhitespace(text, range.value);
      if !ws {
        return range;
      }
      o := range.value.start - 1;
    }
    return None;
  }

  /** `_selectWordAtOffset`: past the word's end the caret stays collapsed
      where it is; with obscured text the whole text is selected; otherwise
      the word itself. */
  function SelectWordAtOffset(position: int, word: TextRange, obscureText: bool, plainTextLength: nat): (r: TextSelection)
    ensures position >= word.end ==> r == CollapsedAt(position)
    ensures position < word.end && obscureText ==> Start(r) == 0 && End(r) == plainTextLength
    ensures position < word.end && !obscureText ==> r.baseOffset == word.start && r.extentOffset == word.end
  {
    if position >= word.end then CollapsedAt(position)
    else if obscureText then TextSelection(0, plainTextLength)
    else TextSelection(word.start, word.end)
  }

  /** The selected word covers the position whenever the word does. */
  lemma SelectedWordCoversPosition(position: int, word: TextRange, obscureText: bool, plainTextLength: nat)
    requires 0 <= position && word.start <= position < word.end && position <= plainTextLength
    ensures var r := SelectWordAtOffset(position, word, obscureText, plainTextLength);
            Start(r) <= position < End(r) || (obscureText && position == plainTextLength)
  {
  }
}
