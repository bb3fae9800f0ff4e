/** The material input decorator (material2/input_decorator.cs): the
    decoration record with `copyWith` and `applyDefaults`, when the label
    floats, which border is drawn and how heavy the default one is, the
    counter, the helper/error animation, the border gap's notifications and
    the decoration's child slots. */
module InputDecorator {
  import opened Wrappers
  import SlotMaps

  /** The nullable fields of `InputDecoration` that `copyWith` can set. */
  datatype Field =
    | Icon | LabelText | LabelStyle | HelperText | HelperStyle | HintText | HintStyle | HintMaxLines
    | ErrorText | ErrorStyle | ErrorMaxLines | HasFloatingPlaceholder | IsDense | ContentPadding
    | PrefixIcon | Prefix | PrefixText | PrefixStyle | SuffixIcon | Suffix | SuffixText | SuffixStyle
    | Counter | CounterText | CounterStyle | Filled | FillColor | ErrorBorder | FocusedBorder
    | FocusedErrorBorder | DisabledBorder | EnabledBorder | Border | Enabled | AlignLabelWithHint

  /** A field's value; widgets, styles, texts and flags alike are modelled
      by one abstract value. */
  type Value = nat

  /** `InputDecoration`: the fields that are set (a missing key is null) and
      `isCollapsed`, which only `InputDecoration.collapsed` sets. */
  datatype Decoration = Decoration(fields: map<Field, Value>, isCollapsed: bool)

  /** The public constructor: never collapsed. */
  function NewDecoration(fields: map<Field, Value>): (d: Decoration)
    ensures d.fields == fields && !d.isCollapsed
  {
    Decoration(fields, false)
  }

  /** `InputDecoration.collapsed`: built through the constructor, then
      marked collapsed. */
  function Collapsed(fields: map<Field, Value>): (d: Decoration)
    ensures d.fields == fields && d.isCollapsed
  {
    var d := NewDecoration(fields);
    d.(isCollapsed := true)
  }

  /** `x ?? this.x` for every field: an override wins, else the old value. */
  function Overlay(base: map<Field, Value>, overrides: map<Field, Value>): (r: map<Field, Value>)
    ensures r.Keys == base.Keys + overrides.Keys
    ensures forall f | f in overrides :: r[f] == overrides[f]
    ensures forall f | f in base && f !in overrides :: r[f] == base[f]
  {
    base + overrides
  }

  /** `copyWith` as written: it goes through the public constructor, which
      sets `isCollapsed` to false, and never passes the old flag on. */
  function CopyWithAsWritten(d: Decoration, overrides: map<Field, Value>): (r: Decoration)
    ensures r.fields == Overlay(d.fields, overrides)
    ensures !r.isCollapsed
  {
    NewDecoration(Overlay(d.fields, overrides))
  }

  /** `copyWith` as intended: the collapsed flag survives. */
  function CopyWith(d: Decoration, overrides: map<Field, Value>): (r: Decoration)
    ensures r.fields == Overlay(d.fields, overrides)
    ensures r.isCollapsed == d.isCollapsed
  {
    Decoration(Overlay(d.fields, overrides), d.isCollapsed)
  }

  /** Copying with nothing changes nothing; copying twice is copying once
      with the later overrides winning. */
  lemma CopyWithLaws(d: Decoration, a: map<Field, Value>, b: map<Field, Value>)
    ensures CopyWith(d, map[]) == d
    ensures CopyWith(CopyWith(d, a), b) == CopyWith(d, Overlay(a, b))
  {
    assert d.fields + map[] == d.fields;
    assert (d.fields + a) + b == d.fields + (a + b);
  }

  /** The fields `applyDefaults` takes from the theme. */
  const ThemeFields: set<Field> := {
    LabelStyle, HelperStyle, HintStyle, ErrorStyle, ErrorMaxLines, HasFloatingPlaceholder, IsDense,
    ContentPadding, PrefixStyle, SuffixStyle, CounterStyle, Filled, FillColor, ErrorBorder, FocusedBorder,
    FocusedErrorBorder, DisabledBorder, EnabledBorder, Border, AlignLabelWithHint }

  /** The theme's values for the fields the decoration leaves null. */
  function ThemeDefaults(d: Decoration, theme: map<Field, Value>): (o: map<Field, Value>)
    ensures o.Keys == set f | f in theme && f in ThemeFields && f !in d.fields
  {
    map f | f in theme && f in ThemeFields && f !in d.fields :: theme[f]
  }

  /** `applyDefaults` as written, through `copyWith`. */
  function ApplyDefaultsAsWritten(d: Decoration, theme: map<Field, Value>): (r: Decoration)
    ensures !r.isCollapsed
  {
    CopyWithAsWritten(d, ThemeDefaults(d, theme))
  }

  /** `applyDefaults` as intended: each listed field is its own value if
      set, else the theme's; everything else, the collapsed flag included,
      is kept. */
  function ApplyDefaults(d: Decoration, theme: map<Field, Value>): (r: Decoration)
    ensures r.isCollapsed == d.isCollapsed
    ensures forall f | f in d.fields :: f in r.fields && r.fields[f] == d.fields[f]
    ensures forall f | f !in d.fields :: (f in r.fields <==> f in ThemeFields && f in theme) &&
                                         (f in r.fields ==> r.fields[f] == theme[f])
  {
    CopyWith(d, ThemeDefaults(d, theme))
  }

  /** Applying the theme twice is applying it once. */
  lemma ApplyDefaultsIdempotent(d: Decoration, theme: map<Field, Value>)
    ensures ApplyDefaults(ApplyDefaults(d, theme), theme) == ApplyDefaults(d, theme)
  {
    var once := ApplyDefaults(d, theme);
    assert ApplyDefaults(once, theme).fields == once.fields;
  }

  /** A collapsed decoration is no longer collapsed once the theme is
      applied, so it gets a full-weight default border. */
  lemma ApplyDefaultsUncollapses(fields: map<Field, Value>, theme: map<Field, Value>)
    ensures Collapsed(fields).isCollapsed
    ensures !ApplyDefaultsAsWritten(Collapsed(fields), theme).isCollapsed
    ensures ApplyDefaults(Collapsed(fields), theme).isCollapsed
  {
  }

  // ---------------------------------------------------------------------------
  // Label, hint and border

  /** `_labelShouldWithdraw`. */
  predicate LabelShouldWithdraw(isEmpty: bool, isFocused: bool) {
    !isEmpty || isFocused
  }

  /** `_hasInlineLabel`: the label sits in the field only while it is empty
      and unfocused, and only when there is label text. */
  predicate HasInlineLabel(isEmpty: bool, isFocused: bool, hasLabelText: bool) {
    !LabelShouldWithdraw(isEmpty, isFocused) && hasLabelText
  }

  /** `_shouldShowLabel`. */
  predicate ShouldShowLabel(isEmpty: bool, isFocused: bool, hasLabelText: bool, hasFloatingPlaceholder: Option<bool>) {
    HasInlineLabel(isEmpty, isFocused, hasLabelText) || hasFloatingPlaceholder == Some(true)
  }

  /** The label is shown inline exactly in an empty, unfocused field with
      label text; once it withdraws it stays visible only as a floating
      placeholder. */
  lemma LabelVisibility(isEmpty: bool, isFocused: bool, hasLabelText: bool, hasFloatingPlaceholder: Option<bool>)
    ensures HasInlineLabel(isEmpty, isFocused, hasLabelText) <==> isEmpty && !isFocused && hasLabelText
    ensures HasInlineLabel(isEmpty, isFocused, hasLabelText) ==>
              ShouldShowLabel(isEmpty, isFocused, hasLabelText, hasFloatingPlaceholder)
    ensures LabelShouldWithdraw(isEmpty, isFocused) ==>
              (ShouldShowLabel(isEmpty, isFocused, hasLabelText, hasFloatingPlaceholder) <==> hasFloatingPlaceholder == Some(true))
  {
  }

  /** The hint's opacity: shown only in an empty field without an inline
      label. */
  function HintOpacity(isEmpty: bool, isFocused: bool, hasLabelText: bool): (r: real)
    ensures r == 1.0 || r == 0.0
    ensures r == 1.0 <==> isEmpty && !HasInlineLabel(isEmpty, isFocused, hasLabelText)
  {
    if isEmpty && !HasInlineLabel(isEmpty, isFocused, hasLabelText) then 1.0 else 0.0
  }

  /** Hint and inline label never show together; with label text, the hint
      shows exactly in an empty focused field. */
  lemma HintAndInlineLabelExclusive(isEmpty: bool, isFocused: bool, hasLabelText: bool)
    ensures !(HintOpacity(isEmpty, isFocused, hasLabelText) == 1.0 && HasInlineLabel(isEmpty, isFocused, hasLabelText))
    ensures hasLabelText ==> (HintOpacity(isEmpty, isFocused, hasLabelText) == 1.0 <==> isEmpty && isFocused)
  {
  }

  /** The borders of a decoration, each possibly null. */
  datatype Borders<B> = Borders(error: Option<B>, disabled: Option<B>, focusedError: Option<B>,
                                focused: Option<B>, enabled: Option<B>)

  /** Disabled is `!enabled == true`: only an explicit false. */
  predicate IsDisabled(enabled: Option<bool>) {
    enabled == Some(false)
  }

  /** The border `build` draws: disabled fields use the error or disabled
      border, focused ones the focused-error or focused border, others the
      error or enabled border; a null choice falls back to the default. */
  function ChooseBorder<B>(borders: Borders<B>, enabled: Option<bool>, isFocused: bool, isError: bool, fallback: B): (r: B)
    ensures IsDisabled(enabled) ==> r == (if isError then borders.error else borders.disabled).GetOr(fallback)
    ensures !IsDisabled(enabled) && isFocused ==> r == (if isError then borders.focusedError else borders.focused).GetOr(fallback)
    ensures !IsDisabled(enabled) && !isFocused ==> r == (if isError then borders.error else borders.enabled).GetOr(fallback)
  {
    var chosen :=
      if IsDisabled(enabled) then (if isError then borders.error else borders.disabled)
      else if isFocused then (if isError then borders.focusedError else borders.focused)
      else (if isError then borders.error else borders.enabled);
    chosen.GetOr(fallback)
  }

  /** Which of the five borders was picked, for reasoning about the table. */
  datatype BorderKind = ErrorKind | DisabledKind | FocusedErrorKind | FocusedKind | EnabledKind

  function BorderKindOf(enabled: Option<bool>, isFocused: bool, isError: bool): BorderKind {
    if IsDisabled(enabled) then (if isError then ErrorKind else DisabledKind)
    else if isFocused then (if isError then FocusedErrorKind else FocusedKind)
    else (if isError then ErrorKind else EnabledKind)
  }

  /** The table is exhaustive and each border belongs to exactly the states
      it is named for: error borders only with an error, the disabled border
      only when disabled, the focused ones only when focused and enabled. */
  lemma BorderTable(enabled: Option<bool>, isFocused: bool, isError: bool)
    ensures var k := BorderKindOf(enabled, isFocused, isError);
            (k in {ErrorKind, FocusedErrorKind} <==> isError) &&
            (k == DisabledKind <==> IsDisabled(enabled) && !isError) &&
            (k in {FocusedKind, FocusedErrorKind} <==> !IsDisabled(enabled) && isFocused) &&
            (k == EnabledKind <==> !IsDisabled(enabled) && !isFocused && !isError)
  {
  }

  /** The default border's weight in `_getDefaultBorder`: none for a
      collapsed, borderless or disabled field, 2 when focused, else 1. */
  function DefaultBorderWeight(isCollapsed: bool, borderIsNone: bool, enabled: Option<bool>, isFocused: bool): (w: real)
    ensures w == 0.0 <==> isCollapsed || borderIsNone || IsDisabled(enabled)
    ensures w == 2.0 <==> !(isCollapsed || borderIsNone || IsDisabled(enabled)) && isFocused
    ensures w in {0.0, 1.0, 2.0}
  {
    if isCollapsed || borderIsNone || IsDisabled(enabled) then 0.0 else if isFocused then 2.0 else 1.0
  }

  /** The value that stands for `InputBorder.none`. */
  const NoneBorder: Value := 0

  /** The default border weight of a decoration. */
  function DecorationBorderWeight(d: Decoration, isFocused: bool, enabled: Option<bool>): real {
    DefaultBorderWeight(d.isCollapsed, Border in d.fields && d.fields[Border] == NoneBorder, enabled, isFocused)
  }

  /** A collapsed field with a visible border of its own draws no default
      border stroke until `applyDefaults` drops the flag, after which it
      draws a one-unit stroke. */
  lemma UncollapsedBorderWeight(border: Value, theme: map<Field, Value>)
    requires border != NoneBorder
    ensures DecorationBorderWeight(Collapsed(map[Border := border]), false, Some(true)) == 0.0
    ensures DecorationBorderWeight(ApplyDefaultsAsWritten(Collapsed(map[Border := border]), theme), false, Some(true)) == 1.0
    ensures DecorationBorderWeight(ApplyDefaults(Collapsed(map[Border := border]), theme), false, Some(true)) == 0.0
  {
    var d := Collapsed(map[Border := border]);
    assert ApplyDefaultsAsWritten(d, theme).fields[Border] == border;
  }

  // ---------------------------------------------------------------------------
  // Counter and helper/error

  /** What is shown as the counter. */
  datatype CounterChoice<W> = CounterWidget(widget: W) | CounterLabel(text: string) | NoCounter

  /** `build`'s counter: the widget if given, else non-empty counter text,
      else nothing. */
  function ChooseCounter<W>(counter: Option<W>, counterText: Option<string>): (r: CounterChoice<W>)
    ensures counter.Some? ==> r == CounterWidget(counter.value)
    ensures r.CounterLabel? ==> counter.None? && counterText == Some(r.text) && r.text != ""
    ensures r.NoCounter? <==> counter.None? && (counterText.None? || counterText == Some(""))
  {
    if counter.Some? then CounterWidget(counter.value)
    else if counterText.Some? && counterText.value != "" then CounterLabel(counterText.value)
    else NoCounter
  }

  /** A counter widget makes the counter text irrelevant; without one, any
      non-empty text comes back as the label, and an empty text is the same
      as none. */
  lemma CounterPrecedence<W>(w: W, t: Option<string>, u: Option<string>, text: string)
    ensures ChooseCounter(Some(w), t) == ChooseCounter(Some(w), u)
    ensures text != "" ==> ChooseCounter<W>(None, Some(text)) == CounterLabel(text)
    ensures ChooseCounter<W>(None, Some("")) == ChooseCounter<W>(None, None)
  {
  }

  /** What `_HelperErrorState.didUpdateWidget` does with its animation. */
  datatype Animation = Forward | Reverse | Unchanged

  /** `didUpdateWidget`: when an error appears or disappears, or (without an
      error) a helper does, the animation runs forward to an error and in
      reverse otherwise. */
  function HelperErrorUpdate(newError: Option<string>, newHelper: Option<string>,
                             oldError: Option<string>, oldHelper: Option<string>): (r: Animation)
    ensures r != Unchanged <==> newError.Some? != oldError.Some? ||
                                (newError.None? && newHelper.Some? != oldHelper.Some?)
    ensures r == Forward ==> newError.Some?
    ensures r == Reverse ==> newError.None?
  {
    var errorChanged := newError.Some? != oldError.Some?;
    var helperChanged := newError.None? && newHelper.Some? != oldHelper.Some?;
    if errorChanged || helperChanged then
      if newError.Some? then Forward
      else Reverse
    else Unchanged
  }

  /** Rebuilding with the same texts leaves the animation alone, an error
      appearing always animates forward, and an error going away always
      animates in reverse. */
  lemma HelperErrorSteady(error: Option<string>, helper: Option<string>, oldHelper: Option<string>)
    ensures HelperErrorUpdate(error, helper, error, helper) == Unchanged
    ensures error.Some? ==> HelperErrorUpdate(error, helper, None, oldHelper) == Forward
    ensures error.Some? ==> HelperErrorUpdate(None, helper, error, oldHelper) == Reverse
  {
  }

  // ---------------------------------------------------------------------------
  // Border gap and slots

  /** `_InputBorderGap`: start and extent. */
  datatype Gap = Gap(start: real, extent: real)

  /** A setter: the new gap and whether listeners were notified. */
  datatype GapChange = GapChange(gap: Gap, notified: bool)

  /** The `start` setter notifies only on an actual change. */
  function SetStart(g: Gap, v: real): (r: GapChange)
    ensures r.gap == g.(start := v)
    ensures r.notified <==> v != g.start
  {
    if v != g.start then GapChange(g.(start := v), true) else GapChange(g, false)
  }

  /** The `extent` setter notifies only on an actual change. */
  function SetExtent(g: Gap, v: real): (r: GapChange)
    ensures r.gap == g.(extent := v)
    ensures r.notified <==> v != g.extent
  {
    if v != g.extent then GapChange(g.(extent := v), true) else GapChange(g, false)
  }

  /** Setting the same value twice notifies at most once. */
  lemma GapNotifiesOnce(g: Gap, start: real, extent: real)
    ensures !SetStart(SetStart(g, start).gap, start).notified
    ensures !SetExtent(SetExtent(g, extent).gap, extent).notified
  {
  }

  /** `_DecorationSlot`. */
  datatype DecorationSlot = IconSlot | InputSlot | LabelSlot | HintSlot | PrefixSlot | SuffixSlot
                          | PrefixIconSlot | SuffixIconSlot | HelperErrorSlot | CounterSlot | ContainerSlot

  type Box = nat

  /** `_RenderDecoration._updateChild`, as every slot setter calls it: the
      slot maps stay inverse and only the set slot changes. */
  lemma DecorationUpdateChild(m: SlotMaps.Slots<DecorationSlot, Box>, slot: DecorationSlot, newChild: Option<Box>)
    requires SlotMaps.Inverse(m) && SlotMaps.FitsSlot(m, slot, newChild)
    ensures var r := SlotMaps.UpdateRenderChild(m, SlotMaps.ChildAt(m, slot), newChild, slot);
            SlotMaps.Inverse(r.0) && SlotMaps.ChildAt(r.0, slot) == newChild && r.1 == newChild &&
            forall s | s != slot :: SlotMaps.ChildAt(r.0, s) == SlotMaps.ChildAt(m, s)
  {
  }
}
