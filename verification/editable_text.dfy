/** Editable text widgets (widgets/editable_text.cs): the controller's text
    and selection setters, the composing-region spans, obscured text, the
    input actions, the formatter pipeline and the toolbar enable flags. */
module EditableText {
  import opened Wrappers
  import opened Utf16
  import Text
  import Editable

  /** `TextEditingValue`: the text, the selection and the composing region. */
  datatype Value = Value(text: Text16, selection: Editable.TextSelection, composing: Text.TextRange)

  /** `TextEditingValue.empty`. */
  function EmptyValue(): Value { Value([], Editable.CollapsedAt(-1), Text.EmptyRange()) }

  // ---------------------------------------------------------------------------
  // The controller

  /** The `text` setter: the new text with the selection collapsed at -1 and
      no composing region. */
  function SetText(v: Value, text: Text16): (r: Value)
    ensures r.text == text
    ensures Editable.IsCollapsed(r.selection) && r.selection.baseOffset == -1
    ensures !Text.IsValidRange(r.composing)
  {
    v.(text := text, selection := Editable.CollapsedAt(-1), composing := Text.EmptyRange())
  }

  datatype ControllerError = InvalidTextSelection

  /** The `selection` setter: a selection reaching past the text is
      rejected; otherwise it is taken and the composing region dropped. */
  function SetSelection(v: Value, s: Editable.TextSelection): (r: Result<Value, ControllerError>)
    ensures r.Failure? <==> Editable.Start(s) > |v.text| || Editable.End(s) > |v.text|
    ensures r.Success? ==> r.value == Value(v.text, s, Text.EmptyRange())
  {
    if Editable.Start(s) > |v.text| || Editable.End(s) > |v.text| then Failure(InvalidTextSelection)
    else Success(v.(selection := s, composing := Text.EmptyRange()))
  }

  /** A piece of a built span: its text and whether it carries the
      underlined composing style. */
  datatype Span = Span(text: Text16, composingStyle: bool)

  function Concat(spans: seq<Span>): Text16 {
    if spans == [] then [] else spans[0].text + Concat(spans[1..])
  }

  datatype SpanError = SubstringOutOfRange

  /** The three spans around a composing region: before, inside (underlined)
      and after; a `Substring` out of range fails. */
  function ComposingSpans(text: Text16, composing: Text.TextRange): (r: Result<seq<Span>, SpanError>)
    ensures r.Success? ==> |r.value| == 3 && r.value[1].composingStyle && !r.value[0].composingStyle && !r.value[2].composingStyle
  {
    if !Text.IsNormalized(composing) then Failure(SubstringOutOfRange)
    else
      var before := Text.TextBefore(composing, text);
      var inside := Text.TextInside(composing, text);
      var after := Text.TextAfter(composing, text);
      if before.Failure? || inside.Failure? || after.Failure? then Failure(SubstringOutOfRange)
      else Success([Span(before.value, false), Span(inside.value, true), Span(after.value, false)])
  }

  /** `TextEditingController.buildTextSpan`: one plain span unless a valid
      composing region is asked for, then the three composing spans. */
  function BuildTextSpan(v: Value, withComposing: bool): (r: Result<seq<Span>, SpanError>)
    ensures !Text.IsValidRange(v.composing) || !withComposing ==> r == Success([Span(v.text, false)])
    ensures Text.IsValidRange(v.composing) && withComposing ==> r == ComposingSpans(v.text, v.composing)
  {
    if !Text.IsValidRange(v.composing) || !withComposing then Success([Span(v.text, false)])
    else ComposingSpans(v.text, v.composing)
  }

  /** Whatever spans are built, they spell the value's text, and they are
      built whenever the composing region is normalized and inside the text. */
  lemma BuildTextSpanSpellsText(v: Value, withComposing: bool)
    ensures BuildTextSpan(v, withComposing).Success? ==> Concat(BuildTextSpan(v, withComposing).value) == v.text
    ensures Text.IsNormalized(v.composing) && v.composing.end <= |v.text| ==> BuildTextSpan(v, withComposing).Success?
  {
    var r := BuildTextSpan(v, withComposing);
    if Text.IsValidRange(v.composing) && withComposing && Text.IsNormalized(v.composing) && v.composing.end <= |v.text| {
      Text.RangeSplitsText(v.composing, v.text);
    }
    if r.Success? && |r.value| == 3 {
      var s := r.value;
      assert Concat(s[2..]) == s[2].text + Concat(s[3..]);
      assert Concat(s[1..]) == s[1].text + Concat(s[2..]);
      Text.RangeSplitsText(v.composing, v.text);
    }
  }

  /** After the text setter the span is always the single plain one. */
  lemma SetTextBuildsOneSpan(v: Value, text: Text16, withComposing: bool)
    ensures BuildTextSpan(SetText(v, text), withComposing) == Success([Span(text, false)])
  {
  }

  // ---------------------------------------------------------------------------
  // Obscured text

  /** `RenderEditable.obscuringCharacter`, U+2022 BULLET. */
  const ObscuringCharacter: CodeUnit := 0x2022

  function Bullets(n: nat): (r: Text16)
    ensures |r| == n && forall i | 0 <= i < n :: r[i] == ObscuringCharacter
  {
    if n == 0 then [] else Bullets(n - 1) + [ObscuringCharacter]
  }

  /** The obscured text `EditableTextState.buildTextSpan` shows: one bullet
      per unit, except that the latest typed unit stays visible while its
      ticks are pending. */
  function ObscuredText(text: Text16, ticksPending: int, latestCharIndex: int): (r: Text16)
    ensures |r| == |text|
    ensures forall i | 0 <= i < |r| ::
      r[i] == if ticksPending > 0 && i == latestCharIndex then text[i] else ObscuringCharacter
  {
    var bullets := Bullets(|text|);
    var o := if ticksPending > 0 then latestCharIndex else -1;
    if 0 <= o < |bullets| then bullets[..o] + text[o..o + 1] + bullets[o + 1..] else bullets
  }

  /** `EditableTextState.buildTextSpan`: the composing spans when the text is
      not obscured and the composing region is valid, else one span with the
      (possibly obscured) text. */
  function StateBuildTextSpan(v: Value, obscureText: bool, ticksPending: int, latestCharIndex: int): (r: Result<seq<Span>, SpanError>)
    ensures !obscureText && Text.IsValidRange(v.composing) ==> r == ComposingSpans(v.text, v.composing)
    ensures obscureText ==> r == Success([Span(ObscuredText(v.text, ticksPending, latestCharIndex), false)])
    ensures !obscureText && !Text.IsValidRange(v.composing) ==> r == Success([Span(v.text, false)])
  {
    if !obscureText && Text.IsValidRange(v.composing) then ComposingSpans(v.text, v.composing)
    else Success([Span(if obscureText then ObscuredText(v.text, ticksPending, latestCharIndex) else v.text, false)])
  }

  /** `_kObscureShowLatestCharCursorTicks`. */
  const ObscureShowLatestCharCursorTicks := 3

  datatype ObscureTicks = ObscureTicks(pending: int, latestCharIndex: int)

  /** `updateEditingValue`'s reveal of the latest character: armed only for
      obscured text that grew by exactly one unit (with no ticks on the Unity
      touch keyboard), at the prior selection's base. */
  function ArmObscureTicks(t: ObscureTicks, obscureText: bool, unityKeyboard: bool,
                           prior: Value, next: Value): (r: ObscureTicks)
    ensures r != t ==> obscureText && |next.text| == |prior.text| + 1
    ensures obscureText && |next.text| == |prior.text| + 1 ==>
      r == ObscureTicks(if unityKeyboard then 0 else ObscureShowLatestCharCursorTicks, prior.selection.baseOffset)
  {
    if next.text != prior.text && obscureText && |next.text| == |prior.text| + 1 then
      ObscureTicks(if unityKeyboard then 0 else ObscureShowLatestCharCursorTicks, prior.selection.baseOffset)
    else t
  }

  // ---------------------------------------------------------------------------
  // Actions

  datatype TextInputAction = None_ | Unspecified | Done | Go | Search | Send | Next | Previous
                           | ContinueAction | Join | Route | EmergencyCall | Newline

  /** `performAction`: what `_finalizeEditing` is called with (whether to
      unfocus), or nothing for a newline in a multi-line field. */
  function PerformAction(action: TextInputAction, maxLines: Option<int>): (r: Option<bool>)
    ensures action == Newline ==> (r.None? <==> maxLines != Some(1)) && (r.Some? ==> r.value)
    ensures action in {Done, Go, Send, Search} ==> r == Some(true)
    ensures action !in {Newline, Done, Go, Send, Search} ==> r == Some(false)
  {
    match action
    case Newline => if maxLines != Some(1) then None else Some(true)
    case Done => Some(true)
    case Go => Some(true)
    case Send => Some(true)
    case Search => Some(true)
    case _ => Some(false)
  }

  /** A single-line field finalizes on every action, and a newline there
      acts exactly like done; only a newline in a multi-line field is left
      to the text itself. */
  lemma ActionOutcomes(action: TextInputAction, maxLines: Option<int>)
    ensures PerformAction(action, Some(1)).Some?
    ensures PerformAction(action, maxLines).None? <==> action == Newline && maxLines != Some(1)
    ensures PerformAction(Newline, Some(1)) == PerformAction(Done, maxLines)
  {
  }

  // ---------------------------------------------------------------------------
  // Formatters

  /** `formatEditUpdate(oldValue, newValue)`. */
  type Formatter = (Value, Value) -> Value

  /** Runs the formatters in list order, each on the previous one's output,
      always against the same prior value. */
  function FormatAll(prior: Value, v: Value, formatters: seq<Formatter>): Value
    decreases |formatters|
  {
    if formatters == [] then v else FormatAll(prior, formatters[0](prior, v), formatters[1..])
  }

  /** Running two lists in turn is running their concatenation. */
  lemma {:induction false} FormatAllConcat(prior: Value, v: Value, f: seq<Formatter>, g: seq<Formatter>)
    ensures FormatAll(prior, v, f + g) == FormatAll(prior, FormatAll(prior, v, f), g)
    decreases |f|
  {
    if f != [] {
      assert (f + g)[0] == f[0];
      assert (f + g)[1..] == f[1..] + g;
      FormatAllConcat(prior, f[0](prior, v), f[1..], g);
    } else {
      assert f + g == g;
    }
  }

  /** The stored value and the text `onChanged` is called with, if any. */
  datatype SetOutcome = SetOutcome(value: Value, changed: Option<Text16>)

  /** `_formatAndSetValue`: when the text changed (or the input came from the
      IME) the formatters run in order and `onChanged` sees the formatted
      text; otherwise the value is stored as it is and `onChanged` is not
      called. */
  function FormatAndSetValue(prior: Value, v: Value, isIMEInput: bool, formatters: Option<seq<Formatter>>,
                             hasOnChanged: bool): (r: SetOutcome)
    ensures prior.text == v.text && !isIMEInput ==> r == SetOutcome(v, None)
    ensures formatters.None? || formatters == Some([]) ==> r.value == v
    ensures r.changed.Some? <==> (prior.text != v.text || isIMEInput) && hasOnChanged
    ensures r.changed.Some? ==> r.changed.value == r.value.text
    ensures (prior.text != v.text || isIMEInput) && formatters.Some? ==> r.value == FormatAll(prior, v, formatters.value)
  {
    var textChanged := prior.text != v.text || isIMEInput;
    var value := if textChanged && formatters.Some? && |formatters.value| > 0 then FormatAll(prior, v, formatters.value) else v;
    SetOutcome(value, if textChanged && hasOnChanged then Some(value.text) else None)
  }

  /** The formatters the widget installs: who they are. */
  datatype FormatterId = SingleLineFormatter | UserFormatter(index: nat)

  /** The constructor's formatter list as written: the user's list is
      first defaulted to empty, a single-line field then rebuilds the local
      list as just the single-line formatter (the copy meant to carry the
      user's formatters is taken only when the list is null, which it no
      longer is), and the field installs the single-line formatter followed
      by that local list. */
  function InputFormattersAsWritten(maxLines: Option<int>, user: Option<seq<FormatterId>>): (r: seq<FormatterId>)
    ensures maxLines == Some(1) ==> forall i | 0 <= i < |r| :: r[i] == SingleLineFormatter
    ensures maxLines != Some(1) ==> r == user.GetOr([])
  {
    var local := user.GetOr([]);
    var carried: seq<FormatterId> := [];
    var local := if maxLines == Some(1) then [SingleLineFormatter] + carried else local;
    if maxLines == Some(1) then [SingleLineFormatter] + local else local
  }

  /** A single-line field with one formatter of its own ends up with the
      single-line formatter twice and without the user's formatter. */
  lemma SingleLineDropsUserFormatters()
    ensures InputFormattersAsWritten(Some(1), Some([UserFormatter(0)])) == [SingleLineFormatter, SingleLineFormatter]
    ensures UserFormatter(0) in InputFormatters(Some(1), Some([UserFormatter(0)]))
  {
  }

  /** The intended formatter list: a single-line field puts the single-line
      formatter first, then the user's; any other field keeps the user's
      list (empty when none was given). */
  function InputFormatters(maxLines: Option<int>, user: Option<seq<FormatterId>>): (r: seq<FormatterId>)
    ensures maxLines == Some(1) ==> |r| > 0 && r[0] == SingleLineFormatter && r[1..] == user.GetOr([])
    ensures maxLines != Some(1) ==> r == user.GetOr([])
    ensures forall f | f in user.GetOr([]) :: f in r
  {
    if maxLines == Some(1) then [SingleLineFormatter] + user.GetOr([]) else user.GetOr([])
  }

  /** The two lists agree on multi-line fields and on single-line fields
      without formatters of their own, except for the duplicated
      single-line formatter. */
  lemma InputFormattersAgreeElsewhere(maxLines: Option<int>, user: Option<seq<FormatterId>>)
    ensures maxLines != Some(1) ==> InputFormattersAsWritten(maxLines, user) == InputFormatters(maxLines, user)
    ensures maxLines == Some(1) && user.GetOr([]) == [] ==>
              InputFormattersAsWritten(maxLines, user) == InputFormatters(maxLines, user) + [SingleLineFormatter]
  {
  }

  datatype ToolbarOptions = ToolbarOptions(copy: bool, cut: bool, paste: bool, selectAll: bool)

  /** `cutEnabled`, `copyEnabled`, `pasteEnabled`, `selectAllEnabled`: a
      read-only field never offers cut or paste; copy and select-all follow
      the options alone. */
  function EnabledActions(options: ToolbarOptions, readOnly: bool): (r: ToolbarOptions)
    ensures readOnly ==> !r.cut && !r.paste
    ensures !readOnly ==> r == options
    ensures r.copy == options.copy && r.selectAll == options.selectAll
    ensures (r.cut ==> options.cut) && (r.paste ==> options.paste)
  {
    ToolbarOptions(options.copy, options.cut && !readOnly, options.paste && !readOnly, options.selectAll)
  }

  /** Filtering the options twice changes nothing more, and a read-only
      field offers the same actions whatever the writable field would. */
  lemma EnabledActionsIdempotent(options: ToolbarOptions, readOnly: bool)
    ensures EnabledActions(EnabledActions(options, readOnly), readOnly) == EnabledActions(options, readOnly)
    ensures EnabledActions(EnabledActions(options, false), true) == EnabledActions(options, true)
    ensures EnabledActions(options, readOnly).cut <==> options.cut && !readOnly
    ensures EnabledActions(options, readOnly).paste <==> options.paste && !readOnly
  {
  }
}
