/** The argument checking and event conversion of the engine's embedding C
    API (engine/src/shell/platform/embedder/embedder.cc): which renderer
    configurations are accepted, how an embedder's pointer events become
    the engine's pointer data, and which platform-message, locale, metrics
    and texture calls are refused before anything reaches the engine.
    What the engine itself does with an accepted call (set the metrics,
    dispatch a packet, register a texture) is a boolean parameter. */
module Embedder {
  import opened Wrappers
  import Text

  /** `UIWidgetsEngineResult`; `Ok` is `kSuccess`. */
  datatype EngineResult = Ok | InvalidArguments | InternalInconsistency

  // ---------------------------------------------------------------------
  // Renderer configuration
  // ---------------------------------------------------------------------

  /** `UIWidgetsRendererType`; `UnknownRenderer` is any other value. */
  datatype RendererType = OpenGL | Software | UnknownRenderer

  /** Which callbacks of `UIWidgetsOpenGLRendererConfig` are non-null. */
  datatype OpenGLCallbacks = OpenGLCallbacks(makeCurrent: bool, clearCurrent: bool, present: bool, fboCallback: bool)

  /** `UIWidgetsRendererConfig`: the type tag and both variants' callbacks
      (whether `surface_present_callback` is non-null for software). */
  datatype RendererConfig = RendererConfig(rendererType: RendererType, openGL: OpenGLCallbacks, surfacePresent: bool)

  /** `IsOpenGLRendererConfigValid`. */
  predicate IsOpenGLRendererConfigValid(config: RendererConfig) {
    config.rendererType == OpenGL &&
    config.openGL.makeCurrent && config.openGL.clearCurrent && config.openGL.present && config.openGL.fboCallback
  }

  /** `IsSoftwareRendererConfigValid`. */
  predicate IsSoftwareRendererConfigValid(config: RendererConfig) {
    config.rendererType == Software && config.surfacePresent
  }

  /** `IsRendererValid`: a null configuration and an unknown type are
      refused; otherwise the configuration must be valid for its own type. */
  function IsRendererValid(config: Option<RendererConfig>): (r: bool)
    ensures config.None? ==> !r
    ensures r ==> config.value.rendererType != UnknownRenderer
    ensures config.Some? && config.value.rendererType == OpenGL ==>
              (r <==> config.value.openGL == OpenGLCallbacks(true, true, true, true))
    ensures config.Some? && config.value.rendererType == Software ==> (r <==> config.value.surfacePresent)
  {
    if config.None? then false
    else match config.value.rendererType
      case OpenGL => IsOpenGLRendererConfigValid(config.value)
      case Software => IsSoftwareRendererConfigValid(config.value)
      case UnknownRenderer => false
  }

  /** Only the callbacks of the configuration's own type matter: changing
      the other variant never changes the verdict, and a valid renderer can
      always present a frame. */
  lemma RendererValidityIgnoresOtherVariant(config: RendererConfig, otherGL: OpenGLCallbacks, otherPresent: bool)
    ensures config.rendererType == OpenGL ==>
              IsRendererValid(Some(config)) == IsRendererValid(Some(config.(surfacePresent := otherPresent)))
    ensures config.rendererType == Software ==>
              IsRendererValid(Some(config)) == IsRendererValid(Some(config.(openGL := otherGL)))
    ensures IsRendererValid(Some(config)) ==> config.openGL.present || config.surfacePresent
  {
  }

  // ---------------------------------------------------------------------
  // Pointer events
  // ---------------------------------------------------------------------

  /** `UIWidgetsPointerPhase`; `UnknownPhase` is a value outside the enum. */
  datatype PointerPhase = Cancel | Up | Down | Move | Add | Remove | Hover | MouseDown | MouseUp | UnknownPhase

  /** `PointerData::Change`. */
  datatype Change =
    | ChangeCancel | ChangeUp | ChangeDown | ChangeMove | ChangeAdd | ChangeRemove | ChangeHover
    | ChangeMouseDown | ChangeMouseUp

  /** The phase a change is named after. */
  function PhaseOf(change: Change): PointerPhase {
    match change
    case ChangeCancel => Cancel
    case ChangeUp => Up
    case ChangeDown => Down
    case ChangeMove => Move
    case ChangeAdd => Add
    case ChangeRemove => Remove
    case ChangeHover => Hover
    case ChangeMouseDown => MouseDown
    case ChangeMouseUp => MouseUp
  }

  /** `ToPointerDataChange`: each phase to the change of the same name,
      a value outside the enum to cancel. */
  function ToPointerDataChange(phase: PointerPhase): (r: Change)
    ensures phase != UnknownPhase ==> PhaseOf(r) == phase
    ensures phase == UnknownPhase ==> r == ChangeCancel
  {
    match phase
    case Cancel => ChangeCancel
    case Up => ChangeUp
    case Down => ChangeDown
    case Move => ChangeMove
    case Add => ChangeAdd
    case Remove => ChangeRemove
    case Hover => ChangeHover
    case MouseDown => ChangeMouseDown
    case MouseUp => ChangeMouseUp
    case UnknownPhase => ChangeCancel
  }

  /** Over the nine phases the conversion is a bijection: every change
      comes from exactly one phase, and distinct phases give distinct
      changes. */
  lemma PointerChangeBijective(p: PointerPhase, q: PointerPhase, c: Change)
    ensures ToPointerDataChange(PhaseOf(c)) == c
    ensures p != UnknownPhase && q != UnknownPhase && ToPointerDataChange(p) == ToPointerDataChange(q) ==> p == q
  {
    if p != UnknownPhase && q != UnknownPhase && ToPointerDataChange(p) == ToPointerDataChange(q) {
      calc {
        p;
        PhaseOf(ToPointerDataChange(p));
        PhaseOf(ToPointerDataChange(q));
        q;
      }
    }
  }

  /** `UIWidgetsPointerDeviceKind` as the embedder sets it: `Unset` is the
      value 0 of embedders that predate the field, `UnknownKind` a value
      outside the enum. */
  datatype DeviceKindField = Unset | MouseKind | TouchKind | KeyboardKind | UnknownKind

  /** `PointerData::DeviceKind`. */
  datatype DeviceKind = Mouse | Touch | Keyboard

  /** `ToPointerDataKind`: the named kinds map across, anything else to mouse. */
  function ToPointerDataKind(kind: DeviceKindField): (r: DeviceKind)
    ensures r == Touch <==> kind == TouchKind
    ensures r == Keyboard <==> kind == KeyboardKind
  {
    match kind
    case MouseKind => Mouse
    case TouchKind => Touch
    case KeyboardKind => Keyboard
    case _ => Mouse
  }

  /** The embedder field named after a pointer kind. */
  function KindFieldOf(kind: DeviceKind): DeviceKindField {
    match kind
    case Mouse => MouseKind
    case Touch => TouchKind
    case Keyboard => KeyboardKind
  }

  /** Every pointer kind comes from the field named after it, the named
      fields map one to one, and an unset or unknown field reads as mouse. */
  lemma PointerKindBijective(f: DeviceKindField, g: DeviceKindField, k: DeviceKind)
    ensures ToPointerDataKind(KindFieldOf(k)) == k
    ensures (f in {MouseKind, TouchKind, KeyboardKind} && g in {MouseKind, TouchKind, KeyboardKind} &&
             ToPointerDataKind(f) == ToPointerDataKind(g)) ==> f == g
    ensures f !in {MouseKind, TouchKind, KeyboardKind} ==> ToPointerDataKind(f) == Mouse
  {
  }

  /** `UIWidgetsPointerSignalKind`; `UnknownSignal` is a value outside the enum. */
  datatype SignalKindField = NoSignalField | ScrollField | EditorDragUpdateField | EditorDragReleaseField | UnknownSignal

  /** `PointerData::SignalKind`. */
  datatype SignalKind = NoSignal | Scroll | EditorDragUpdate | EditorDragRelease

  /** `ToPointerDataSignalKind`: the named kinds map across, anything else
      to no signal. */
  function ToPointerDataSignalKind(kind: SignalKindField): (r: SignalKind)
    ensures r == Scroll <==> kind == ScrollField
    ensures r == EditorDragUpdate <==> kind == EditorDragUpdateField
    ensures r == EditorDragRelease <==> kind == EditorDragReleaseField
  {
    match kind
    case ScrollField => Scroll
    case EditorDragUpdateField => EditorDragUpdate
    case EditorDragReleaseField => EditorDragRelease
    case _ => NoSignal
  }

  /** The embedder field named after a signal kind. */
  function SignalFieldOf(kind: SignalKind): SignalKindField {
    match kind
    case NoSignal => NoSignalField
    case Scroll => ScrollField
    case EditorDragUpdate => EditorDragUpdateField
    case EditorDragRelease => EditorDragReleaseField
  }

  /** Every signal kind comes from the field named after it, the named
      fields map one to one, and an unknown field reads as no signal. */
  lemma SignalKindBijective(f: SignalKindField, g: SignalKindField, k: SignalKind)
    ensures ToPointerDataSignalKind(SignalFieldOf(k)) == k
    ensures (f != UnknownSignal && g != UnknownSignal &&
             ToPointerDataSignalKind(f) == ToPointerDataSignalKind(g)) ==> f == g
    ensures f == UnknownSignal ==> ToPointerDataSignalKind(f) == NoSignal
  {
  }

  /** `kPointerButtonMousePrimary` and `kPointerButtonTouchContact`, both
      bit 0 of the engine's button mask. */
  const PointerButtonMousePrimary: int := 1
  const PointerButtonTouchContact: int := 1

  /** `PointerDataButtonsForLegacyEvent`: an event without a device kind
      holds the primary button exactly while it is down or moving. */
  function PointerDataButtonsForLegacyEvent(change: Change): (r: int)
    ensures r != 0 <==> change == ChangeDown || change == ChangeMove
    ensures r != 0 ==> r == PointerButtonMousePrimary
  {
    match change
    case ChangeDown => PointerButtonMousePrimary
    case ChangeMove => PointerButtonMousePrimary
    case _ => 0
  }

  /** `UIWidgetsPointerEvent`. */
  datatype PointerEvent = PointerEvent(
    timestamp: int, phase: PointerPhase, x: real, y: real, device: int,
    signalKind: SignalKindField, scrollDeltaX: real, scrollDeltaY: real,
    deviceKind: DeviceKindField, buttons: int, modifier: int)

  /** `PointerData` as the embedder fills it. */
  datatype PointerData = PointerData(
    timeStamp: int, change: Change, kind: DeviceKind, signalKind: SignalKind, device: int,
    pointerIdentifier: int, physicalX: real, physicalY: real, physicalDeltaX: real, physicalDeltaY: real,
    scrollDeltaX: real, scrollDeltaY: real, buttons: int, modifier: int)

  /** Pressing (down or move) is when contact and legacy buttons are set. */
  predicate Pressing(change: Change) {
    change == ChangeDown || change == ChangeMove
  }

  /** One iteration of `UIWidgetsEngineSendPointerEvent`'s loop: a cleared
      `PointerData` filled from the event. */
  function ToPointerData(e: PointerEvent): (d: PointerData)
    ensures d.change == ToPointerDataChange(e.phase)
    ensures d.pointerIdentifier == 0 && d.physicalDeltaX == 0.0 && d.physicalDeltaY == 0.0
    ensures d.timeStamp == e.timestamp && d.physicalX == e.x && d.physicalY == e.y && d.device == e.device
    ensures d.scrollDeltaX == e.scrollDeltaX && d.scrollDeltaY == e.scrollDeltaY && d.modifier == e.modifier
    ensures d.signalKind == ToPointerDataSignalKind(e.signalKind)
    ensures e.deviceKind == Unset ==> d.kind == Mouse && (d.buttons != 0 <==> Pressing(d.change))
    ensures e.deviceKind != Unset ==> d.kind == ToPointerDataKind(e.deviceKind)
    ensures d.kind == Touch ==> d.buttons == (if Pressing(d.change) then PointerButtonTouchContact else 0)
    ensures e.deviceKind != Unset && d.kind != Touch ==> d.buttons == e.buttons
  {
    var change := ToPointerDataChange(e.phase);
    var base := PointerData(e.timestamp, change, Mouse, ToPointerDataSignalKind(e.signalKind), e.device,
                            0, e.x, e.y, 0.0, 0.0, e.scrollDeltaX, e.scrollDeltaY, 0, e.modifier);
    if e.deviceKind == Unset then
      base.(buttons := PointerDataButtonsForLegacyEvent(change))
    else
      var kind := ToPointerDataKind(e.deviceKind);
      if kind == Touch then
        base.(kind := Touch, buttons := if change == ChangeDown || change == ChangeMove then PointerButtonTouchContact else 0)
      else
        base.(kind := kind, buttons := e.buttons)
  }

  /** An event from an embedder that predates the device kind reads exactly
      like a mouse event carrying the synthesized buttons; and a touch
      event's own buttons are never looked at. */
  lemma LegacyEventIsMouse(e: PointerEvent, otherButtons: int)
    requires e.deviceKind == Unset
    ensures ToPointerData(e) ==
            ToPointerData(e.(deviceKind := MouseKind,
                             buttons := PointerDataButtonsForLegacyEvent(ToPointerDataChange(e.phase))))
    ensures ToPointerData(e.(deviceKind := TouchKind)) == ToPointerData(e.(deviceKind := TouchKind, buttons := otherButtons))
  {
  }

  /** `UIWidgetsEngineSendPointerEvent`: refuses a null engine and a null or
      empty event array, converts every event in order, and reports whether
      the engine accepted the packet. */
  method SendPointerEvent(engine: bool, pointers: Option<seq<PointerEvent>>, dispatchAccepts: bool)
    returns (r: EngineResult, packet: seq<PointerData>)
    ensures r == InvalidArguments <==> !engine || pointers.None? || |pointers.value| == 0
    ensures r == InvalidArguments ==> packet == []
    ensures r != InvalidArguments ==> |packet| == |pointers.value|
    ensures r != InvalidArguments ==> forall i :: 0 <= i < |packet| ==> packet[i] == ToPointerData(pointers.value[i])
    ensures r == Ok <==> r != InvalidArguments && dispatchAccepts
  {
    if !engine || pointers.None? || |pointers.value| == 0 {
      return InvalidArguments, [];
    }
    var events := pointers.value;
    packet := [];
    var i := 0;
    while i < |events|
      invariant 0 <= i <= |events|
      invariant |packet| == i
      invariant forall j :: 0 <= j < i ==> packet[j] == ToPointerData(events[j])
    {
      packet := packet + [ToPointerData(events[i])];
      i := i + 1;
    }
    r := if dispatchAccepts then Ok else InternalInconsistency;
  }

  // ---------------------------------------------------------------------
  // Window metrics and textures
  // ---------------------------------------------------------------------

  /** `UIWidgetsWindowMetricsEvent`. */
  datatype WindowMetricsEvent = WindowMetricsEvent(width: int, height: int, pixelRatio: real)

  /** `UIWidgetsEngineSendWindowMetricsEvent`: a null engine or metrics and
      a non-positive pixel ratio are refused, and so is metrics the engine
      rejects; this call never reports an internal inconsistency. */
  function SendWindowMetricsEvent(engine: bool, metrics: Option<WindowMetricsEvent>, engineAccepts: bool): (r: EngineResult)
    ensures r != InternalInconsistency
    ensures r == Ok <==> engine && metrics.Some? && metrics.value.pixelRatio > 0.0 && engineAccepts
  {
    if !engine || metrics.None? then InvalidArguments
    else if metrics.value.pixelRatio <= 0.0 then InvalidArguments
    else if engineAccepts then Ok
    else InvalidArguments
  }

  /** The shared checks of `UIWidgetsEngineRegisterExternalTexture`,
      `UIWidgetsEngineUnregisterExternalTexture` and
      `UIWidgetsEngineMarkExternalTextureFrameAvailable`: a null engine and
      the identifier 0 are refused before the engine is asked. */
  function TextureCall(engine: bool, textureIdentifier: int, engineAccepts: bool): (r: EngineResult)
    ensures r == InvalidArguments <==> !engine || textureIdentifier == 0
    ensures r == Ok <==> engine && textureIdentifier != 0 && engineAccepts
  {
    if !engine then InvalidArguments
    else if textureIdentifier == 0 then InvalidArguments
    else if engineAccepts then Ok
    else InternalInconsistency
  }

  /** The engine is consulted only for a well-formed call: a refused call's
      result does not depend on what the engine would have said. */
  lemma RefusedCallsIgnoreEngine(engine: bool, id: int, metrics: Option<WindowMetricsEvent>)
    ensures !engine || id == 0 ==> TextureCall(engine, id, true) == TextureCall(engine, id, false)
    ensures !engine || metrics.None? || metrics.value.pixelRatio <= 0.0 ==>
              SendWindowMetricsEvent(engine, metrics, true) == SendWindowMetricsEvent(engine, metrics, false)
  {
  }

  // ---------------------------------------------------------------------
  // Platform messages
  // ---------------------------------------------------------------------

  /** `UIWidgetsPlatformMessage`: a nullable channel, the declared size and
      a nullable data pointer (the bytes it points at). */
  datatype MessageArgument = MessageArgument(channel: Option<string>, messageSize: nat, message: Option<seq<Text.Byte>>)

  /** The engine's `PlatformMessage`: a channel and, unless built without
      data, its bytes. */
  datatype PlatformMessage = PlatformMessage(channel: string, data: Option<seq<Text.Byte>>)

  /** The message `UIWidgetsEngineSendPlatformMessage` builds, or the error
      it returns first. The data pointer must cover the declared size. */
  function BuildPlatformMessage(engine: bool, argument: Option<MessageArgument>): (r: Result<PlatformMessage, EngineResult>)
    requires argument.Some? && argument.value.message.Some? ==> argument.value.messageSize <= |argument.value.message.value|
    ensures r.Failure? ==> r.error == InvalidArguments
    ensures r.Success? <==> engine && argument.Some? && argument.value.channel.Some? &&
                            (argument.value.messageSize != 0 ==> argument.value.message.Some?)
    ensures r.Success? ==> r.value.channel == argument.value.channel.value
    ensures r.Success? ==> (r.value.data.None? <==> argument.value.messageSize == 0)
    ensures r.Success? && r.value.data.Some? ==> r.value.data.value == argument.value.message.value[..argument.value.messageSize]
  {
    if !engine || argument.None? || argument.value.channel.None? then Failure(InvalidArguments)
    else
      var a := argument.value;
      if a.messageSize != 0 && a.message.None? then Failure(InvalidArguments)
      else if a.messageSize == 0 then Success(PlatformMessage(a.channel.value, None))
      else Success(PlatformMessage(a.channel.value, Some(a.message.value[..a.messageSize])))
  }

  /** The argument an embedder passes to send a given message. */
  function ArgumentFor(m: PlatformMessage): (a: MessageArgument)
    ensures a.channel == Some(m.channel)
  {
    match m.data
    case None => MessageArgument(Some(m.channel), 0, None)
    case Some(bytes) => MessageArgument(Some(m.channel), |bytes|, Some(bytes))
  }

  /** Every message with data that is not empty, and every message without
      data, survives the trip through the C structure unchanged; a message
      whose data is present but empty arrives without data. */
  lemma PlatformMessageRoundTrip(m: PlatformMessage)
    ensures m.data != Some([]) ==> BuildPlatformMessage(true, Some(ArgumentFor(m))) == Success(m)
    ensures m.data == Some([]) ==> BuildPlatformMessage(true, Some(ArgumentFor(m))) == Success(m.(data := None))
  {
    if m.data.Some? {
      assert m.data.value[..|m.data.value|] == m.data.value;
    }
  }

  /** `UIWidgetsEngineSendPlatformMessage`: the building errors, else
      whether the engine took the message. */
  function SendPlatformMessage(engine: bool, argument: Option<MessageArgument>, engineAccepts: bool): (r: EngineResult)
    requires argument.Some? && argument.value.message.Some? ==> argument.value.messageSize <= |argument.value.message.value|
    ensures r == InvalidArguments <==> BuildPlatformMessage(engine, argument).Failure?
    ensures r == Ok <==> BuildPlatformMessage(engine, argument).Success? && engineAccepts
    ensures r == InternalInconsistency ==> engine && argument.Some? && argument.value.channel.Some?
  {
    var built := BuildPlatformMessage(engine, argument);
    if built.Failure? then built.error
    else if engineAccepts then Ok
    else InternalInconsistency
  }

  // ---------------------------------------------------------------------
  // Locales
  // ---------------------------------------------------------------------

  /** `UIWidgetsLocale`: four nullable codes. */
  datatype Locale = Locale(languageCode: Option<string>, countryCode: Option<string>,
                           scriptCode: Option<string>, variantCode: Option<string>)

  /** The language code is required and must not be empty. */
  predicate HasLanguage(l: Locale) {
    l.languageCode.Some? && |l.languageCode.value| > 0
  }

  /** The four strings a locale contributes to `args`, an absent optional
      code written as the empty string. */
  function LocaleStrings(l: Locale): (s: seq<string>)
    requires HasLanguage(l)
    ensures |s| == 4 && s[0] == l.languageCode.value
    ensures s[1] == l.countryCode.GetOr("") && s[2] == l.scriptCode.GetOr("") && s[3] == l.variantCode.GetOr("")
  {
    [l.languageCode.value, l.countryCode.GetOr(""), l.scriptCode.GetOr(""), l.variantCode.GetOr("")]
  }

  /** The `args` array of the `setLocale` message, or nothing when some
      locale lacks a language code. */
  function SetLocaleArgs(locales: seq<Locale>): (r: Option<seq<string>>)
    ensures r.None? <==> exists i :: 0 <= i < |locales| && !HasLanguage(locales[i])
    ensures r.Some? ==> |r.value| == 4 * |locales|
    ensures r.Some? ==> forall i, k :: 0 <= i < |locales| && 0 <= k < 4 ==> r.value[4 * i + k] == LocaleStrings(locales[i])[k]
  {
    if |locales| == 0 then Some([])
    else if !HasLanguage(locales[0]) then None
    else
      var rest := SetLocaleArgs(locales[1..]);
      if rest.None? then
        assert forall i :: 0 <= i < |locales| - 1 ==> locales[1..][i] == locales[i + 1];
        None
      else
        var r := LocaleStrings(locales[0]) + rest.value;
        Some(r)
  }

  /** `a non-empty string or null`, the reading of an optional code. */
  function NonEmpty(s: string): Option<string> {
    if s == "" then None else Some(s)
  }

  /** A locale as the engine reads it back: an empty optional code is the
      same as an absent one. */
  function Normalized(l: Locale): Locale {
    Locale(l.languageCode, NonEmpty(l.countryCode.GetOr("")), NonEmpty(l.scriptCode.GetOr("")),
           NonEmpty(l.variantCode.GetOr("")))
  }

  /** Reading `args` back into locales, four strings at a time. */
  function ParseLocaleArgs(args: seq<string>): (r: seq<Locale>)
    requires |args| % 4 == 0
    ensures |r| == |args| / 4
    decreases |args|
  {
    if |args| == 0 then []
    else [Locale(Some(args[0]), NonEmpty(args[1]), NonEmpty(args[2]), NonEmpty(args[3]))] + ParseLocaleArgs(args[4..])
  }

  /** The `args` array loses nothing but the distinction between an absent
      and an empty optional code. */
  lemma {:induction false} LocaleArgsRoundTrip(locales: seq<Locale>)
    requires forall i :: 0 <= i < |locales| ==> HasLanguage(locales[i])
    ensures SetLocaleArgs(locales).Some?
    ensures |SetLocaleArgs(locales).value| % 4 == 0
    ensures ParseLocaleArgs(SetLocaleArgs(locales).value) == seq(|locales|, i requires 0 <= i < |locales| => Normalized(locales[i]))
    decreases |locales|
  {
    var args := SetLocaleArgs(locales).value;
    if |locales| > 0 {
      var tail := locales[1..];
      LocaleArgsRoundTrip(tail);
      var restArgs := SetLocaleArgs(tail).value;
      assert args == LocaleStrings(locales[0]) + restArgs;
      assert args[4..] == restArgs;
      var expected := seq(|locales|, i requires 0 <= i < |locales| => Normalized(locales[i]));
      var expectedTail := seq(|tail|, i requires 0 <= i < |tail| => Normalized(tail[i]));
      assert expected == [Normalized(locales[0])] + expectedTail;
    }
  }

  /** `UIWidgetsEngineUpdateLocales`: no locales at all succeeds at once; a
      null array, or a locale without a language code, is refused; else the
      `setLocale` message goes out on the localization channel. The array
      holds `localesCount` entries. */
  function UpdateLocales(engine: bool, locales: Option<seq<Locale>>, localesCount: nat, dispatchAccepts: bool): (r: EngineResult)
    requires locales.Some? ==> |locales.value| == localesCount
    ensures engine && localesCount == 0 ==> r == Ok
    ensures r == InvalidArguments <==>
              !engine ||
              (localesCount != 0 && (locales.None? || exists i :: 0 <= i < localesCount && !HasLanguage(locales.value[i])))
    ensures r == InternalInconsistency <==> r != InvalidArguments && localesCount != 0 && !dispatchAccepts
  {
    if !engine then InvalidArguments
    else if localesCount == 0 then Ok
    else if locales.None? then InvalidArguments
    else
      var args := SetLocaleArgs(locales.value);
      if args.None? then InvalidArguments
      else if dispatchAccepts then Ok
      else InternalInconsistency
  }
}
