/** Diagnostics properties (foundation/diagnostics.cs): how a property turns
    its value into a description, which level it reports, and the small
    naming helpers `describeEnum` and `shortHash`. A property's value is
    generic; the subclasses' `valueToString` overrides are separate
    functions whose result feeds the shared `toDescription`. */
module Diagnostics {
  import opened Wrappers

  /** `DiagnosticLevel`, in declaration order. */
  datatype Level = Hidden | Fine | Debug | Info | Warning | Hint | Summary | Error | Off

  // ---------------------------------------------------------------------------
  // describeEnum

  /** The position of the first '.', as `IndexOf(".")`. */
  function IndexOfDot(s: string): (r: int)
    ensures -1 <= r < |s|
    ensures r >= 0 ==> s[r] == '.'
    ensures forall i | 0 <= i < |s| && (r < 0 || i < r) :: s[i] != '.'
  {
    if s == [] then -1
    else if s[0] == '.' then 0
    else
      var rest := IndexOfDot(s[1..]);
      if rest < 0 then -1 else rest + 1
  }

  /** `describeEnum` with its debug check: the check asks for a dot that is
      not the last character, and a failing check is `None`. */
  function DescribeEnumAsWritten(description: string): (r: Option<string>)
    ensures r.Some? <==> 0 <= IndexOfDot(description) < |description| - 1
    ensures r.Some? ==> r.value == DescribeEnum(description)
  {
    var indexOfDot := IndexOfDot(description);
    if indexOfDot != -1 && indexOfDot < |description| - 1 then Some(description[indexOfDot + 1..])
    else None
  }

  /** `describeEnum` as a release build runs it: the text after the first
      '.', which is the whole name when there is no dot (`Substring(0)`). */
  function DescribeEnum(description: string): (r: string)
    ensures IndexOfDot(description) < 0 ==> r == description
    ensures |r| <= |description|
    ensures IndexOfDot(description) >= 0 ==>
      |r| < |description| && description[..|description| - |r|] + r == description &&
      description[|description| - |r| - 1] == '.'
    ensures forall i | 0 <= i < |description| - |r| - 1 :: description[i] != '.'
    ensures IndexOfDot(description) < |description| - 1 ==> 0 < |r| || description == []
  {
    var dot := IndexOfDot(description);
    if dot < 0 then
      description
    else
      var r := description[dot + 1..];
      assert description[..dot + 1] + r == description;
      r
  }

  /** A C# enum value's name, which holds no dot, fails the debug check,
      while the release reading gives the name itself. */
  lemma EnumNameFailsCheck(name: string)
    requires |name| > 0
    requires forall i | 0 <= i < |name| :: name[i] != '.'
    ensures DescribeEnumAsWritten(name).None?
    ensures DescribeEnum(name) == name
  {
  }

  /** An enum value named `Type.name`, with no dot in the type name,
      describes as `name`. */
  lemma DescribeEnumOfQualified(typeName: string, name: string)
    requires forall i | 0 <= i < |typeName| :: typeName[i] != '.'
    requires |name| > 0
    ensures IndexOfDot(typeName + "." + name) == |typeName|
    ensures DescribeEnum(typeName + "." + name) == name
  {
    var d := typeName + "." + name;
    var i := IndexOfDot(d);
    assert d[|typeName|] == '.';
    assert forall k | 0 <= k < |typeName| :: d[k] == typeName[k];
    assert i == |typeName|;
    assert d[i + 1..] == name;
  }

  // ---------------------------------------------------------------------------
  // shortHash

  predicate IsUpperHexDigit(c: char) {
    '0' <= c <= '9' || 'A' <= c <= 'F'
  }

  function HexDigit(d: nat): (c: char)
    requires d < 16
    ensures IsUpperHexDigit(c) && DigitValue(c) == d
  {
    if d < 10 then '0' + d as char else 'A' + (d - 10) as char
  }

  function DigitValue(c: char): (d: nat)
    requires IsUpperHexDigit(c)
    ensures d < 16
  {
    if c <= '9' then c as nat - '0' as nat else c as nat - 'A' as nat + 10
  }

  predicate IsUpperHex(s: string) {
    forall i | 0 <= i < |s| :: IsUpperHexDigit(s[i])
  }

  /** The number an upper-case hexadecimal string denotes. */
  function HexValue(s: string): nat
    requires IsUpperHex(s)
  {
    if s == [] then 0 else HexValue(s[..|s| - 1]) * 16 + DigitValue(s[|s| - 1])
  }

  function Pow16(k: nat): (r: nat)
    ensures r >= 1
  {
    if k == 0 then 1 else 16 * Pow16(k - 1)
  }

  /** `ToString("X")`: upper-case hexadecimal without leading zeros. */
  function ToHex(n: nat): (r: string)
    ensures IsUpperHex(r) && |r| >= 1
    ensures |r| > 1 ==> r[0] != '0'
    decreases n
  {
    if n < 16 then [HexDigit(n)] else ToHex(n / 16) + [HexDigit(n % 16)]
  }

  /** `PadLeft(width, '0')`. */
  function PadLeft(s: string, width: nat): (r: string)
    ensures |r| == if |s| < width then width else |s|
    ensures r[|r| - |s|..] == s
    ensures forall i | 0 <= i < |r| - |s| :: r[i] == '0'
  {
    if |s| < width then seq(width - |s|, _ => '0') + s else s
  }

  /** `shortHash`: the low 20 bits of the hash code (two's complement, so
      the Euclidean remainder), in upper-case hex padded to five digits. */
  function ShortHash(hashCode: int): (r: string)
    ensures |r| == 5 && IsUpperHex(r)
    ensures HexValue(r) == hashCode % 0x100000
  {
    var low := hashCode % 0x100000;
    var hex := ToHex(low);
    ToHexValue(low);
    ToHexLength(low, 5);
    var r := PadLeft(hex, 5);
    assert r == r[..|r| - |hex|] + hex;
    LeadingZeros(r[..|r| - |hex|], hex);
    r
  }

  lemma {:induction false} ToHexValue(n: nat)
    ensures HexValue(ToHex(n)) == n
    decreases n
  {
    if n >= 16 {
      ToHexValue(n / 16);
      var r := ToHex(n);
      assert r[..|r| - 1] == ToHex(n / 16);
    }
  }

  lemma {:induction false} ToHexLength(n: nat, k: nat)
    requires k >= 1 && n < Pow16(k)
    ensures |ToHex(n)| <= k
    decreases n
  {
    if n >= 16 {
      ToHexLength(n / 16, k - 1);
    }
  }

  /** Leading zeros do not change the value. */
  lemma {:induction false} LeadingZeros(zeros: string, s: string)
    requires forall i | 0 <= i < |zeros| :: zeros[i] == '0'
    requires IsUpperHex(s)
    ensures IsUpperHex(zeros + s) && HexValue(zeros + s) == HexValue(s)
    decreases |s|
  {
    if s == [] {
      assert zeros + s == zeros;
      AllZeros(zeros);
    } else {
      var t := zeros + s;
      assert t[..|t| - 1] == zeros + s[..|s| - 1];
      LeadingZeros(zeros, s[..|s| - 1]);
    }
  }

  lemma {:induction false} AllZeros(zeros: string)
    requires forall i | 0 <= i < |zeros| :: zeros[i] == '0'
    ensures IsUpperHex(zeros) && HexValue(zeros) == 0
    decreases |zeros|
  {
    if zeros != [] {
      AllZeros(zeros[..|zeros| - 1]);
    }
  }

  /** Hash codes that agree in their low 20 bits have the same short hash. */
  lemma ShortHashLowBits(a: int, b: int)
    requires a % 0x100000 == b % 0x100000
    ensures ShortHash(a) == ShortHash(b)
  {
  }

  // ---------------------------------------------------------------------------
  // DiagnosticsProperty

  /** The default value: none (`kNoDefaultValue`), or some possibly-null value. */
  datatype Default<V> = NoDefault | DefaultIs(value: Option<V>)

  /** What the constructor is told about the default: nothing, the explicit
      null marker `kNullDefaultValue`, or a value. */
  datatype DefaultArg<V> = NoDefaultArg | NullDefaultArg | DefaultArg(value: V)

  /** A property once its value is known: `exception` names the type of what
      a lazy value's computation threw. */
  datatype Property<V> = Property(
    name: string, value: Option<V>, description: Option<string>,
    ifNull: Option<string>, ifEmpty: Option<string>, tooltip: Option<string>,
    missingIfNull: bool, defaultValue: Default<V>, defaultLevel: Level,
    exception: Option<string>, showName: bool)

  /** A lazy value: computed once, possibly throwing. */
  datatype Computed<V> = Returned(value: Option<V>) | Threw(exceptionType: string)

  function DefaultOf<V>(d: DefaultArg<V>): (r: Default<V>)
    ensures d.NoDefaultArg? <==> r.NoDefault?
    ensures d.NullDefaultArg? ==> r == DefaultIs(None)
    ensures d.DefaultArg? ==> r == DefaultIs(Some(d.value))
  {
    match d
    case NoDefaultArg => NoDefault
    case NullDefaultArg => DefaultIs(None)
    case DefaultArg(v) => DefaultIs(Some(v))
  }

  /** The constructor for a computed value: `ifNull` falls back to
      "MISSING" when `missingIfNull` is set. */
  function MakeProperty<V>(name: string, computed: Computed<V>, description: Option<string>,
                           ifNull: Option<string>, ifEmpty: Option<string>, tooltip: Option<string>,
                           missingIfNull: bool, defaultValue: DefaultArg<V>, level: Level,
                           showName: bool): (p: Property<V>)
    ensures p.ifNull == (if ifNull.Some? then ifNull else if missingIfNull then Some("MISSING") else None)
    ensures computed.Returned? ==> p.value == computed.value && p.exception.None?
    ensures computed.Threw? ==> p.value.None? && p.exception == Some(computed.exceptionType)
    ensures p.defaultLevel == level && p.description == description && p.tooltip == tooltip
    ensures p.defaultValue.NoDefault? <==> defaultValue.NoDefaultArg?
  {
    Property(name,
             if computed.Returned? then computed.value else None,
             description,
             if ifNull.Some? then ifNull else if missingIfNull then Some("MISSING") else None,
             ifEmpty, tooltip, missingIfNull, DefaultOf(defaultValue), level,
             if computed.Threw? then Some(computed.exceptionType) else None,
             showName)
  }

  /** `level`: hidden by default wins, then an exception is an error, then
      a missing required value a warning, then a value equal to the default
      is fine, and otherwise the default level. */
  function PropertyLevel<V(==)>(p: Property<V>): (r: Level)
    ensures p.defaultLevel == Hidden ==> r == Hidden
    ensures p.defaultLevel != Hidden && p.exception.Some? ==> r == Error
    ensures p.defaultLevel != Hidden && p.exception.None? && p.value.None? && p.missingIfNull ==> r == Warning
    ensures r == Fine && p.defaultLevel != Fine ==>
      p.defaultValue.DefaultIs? && p.defaultValue.value == p.value
    ensures r !in {Hidden, Error, Warning, Fine} ==> r == p.defaultLevel
    ensures (p.defaultLevel != Hidden && p.exception.None? && !(p.value.None? && p.missingIfNull) &&
             p.defaultValue.DefaultIs? && p.defaultValue.value == p.value) ==> r == Fine
    ensures (p.defaultLevel != Hidden && p.exception.None? && !(p.value.None? && p.missingIfNull) &&
             !(p.defaultValue.DefaultIs? && p.defaultValue.value == p.value)) ==> r == p.defaultLevel
  {
    if p.defaultLevel == Hidden then Hidden
    else if p.exception.Some? then Error
    else if p.value.None? && p.missingIfNull then Warning
    else if p.defaultValue.DefaultIs? && p.defaultValue.value == p.value then Fine
    else p.defaultLevel
  }

  /** `_addTooltip`. */
  function AddTooltip<V>(p: Property<V>, text: string): (r: string)
    ensures p.tooltip.None? ==> r == text
    ensures p.tooltip.Some? ==> |r| == |text| + |p.tooltip.value| + 2 && r[..|text|] == text &&
                                r[|text|] == '(' && r[|r| - 1] == ')'
  {
    if p.tooltip.None? then text else text + "(" + p.tooltip.value + ")"
  }

  /** `toDescription`, given the subclass's `valueToString` result: an
      explicit description, then the exception, then `ifNull` for a null
      value, then the value text with `ifEmpty` standing in for empty text;
      all but the exception carry the tooltip. */
  function ToDescription<V>(p: Property<V>, valueText: string): (r: string)
    ensures p.description.Some? ==> r == AddTooltip(p, p.description.value)
    ensures p.description.None? && p.exception.Some? ==> r == "EXCEPTION (" + p.exception.value + ")"
    ensures p.description.None? && p.exception.None? && p.ifNull.Some? && p.value.None? ==>
      r == AddTooltip(p, p.ifNull.value)
    ensures p.description.None? && p.exception.None? && !(p.ifNull.Some? && p.value.None?) ==>
      r == AddTooltip(p, if valueText == [] && p.ifEmpty.Some? then p.ifEmpty.value else valueText)
  {
    if p.description.Some? then AddTooltip(p, p.description.value)
    else if p.exception.Some? then "EXCEPTION (" + p.exception.value + ")"
    else if p.ifNull.Some? && p.value.None? then AddTooltip(p, p.ifNull.value)
    else
      var result := if valueText == [] && p.ifEmpty.Some? then p.ifEmpty.value else valueText;
      AddTooltip(p, result)
  }

  /** The tooltip is a suffix "(tip)" on every description except the
      exception's: dropping it gives the description without a tooltip. */
  lemma TooltipIsSuffix<V>(p: Property<V>, valueText: string, tip: string)
    requires p.tooltip == Some(tip) && (p.description.Some? || p.exception.None?)
    ensures ToDescription(p, valueText) == ToDescription(p.(tooltip := None), valueText) + "(" + tip + ")"
  {
  }

  /** A required value that is null reads "MISSING" at warning level, unless
      the caller gave its own description, `ifNull` text, or hid it. */
  lemma MissingValueIsFlagged<V>(name: string, tooltip: Option<string>, ifEmpty: Option<string>,
                                     defaultValue: DefaultArg<V>, level: Level, showName: bool, valueText: string)
    requires level != Hidden
    ensures var p := MakeProperty(name, Returned(None), None, None, ifEmpty, tooltip, true, defaultValue, level, showName);
            PropertyLevel(p) == Warning && ToDescription(p, valueText) == AddTooltip(p, "MISSING")
  {
  }

  /** The plain `valueToString`: the value's text, or "" for null. */
  function PlainValueToString<V>(value: Option<V>, show: V -> string): (r: string)
    ensures value.None? ==> r == ""
    ensures value.Some? ==> r == show(value.value)
  {
    if value.None? then "" else show(value.value)
  }

  // ---------------------------------------------------------------------------
  // StringProperty

  /** `Replace("\n", "\\n")`. */
  function EscapeNewlines(s: string): (r: string)
    ensures forall i | 0 <= i < |r| :: r[i] != '\n'
    ensures |r| == |s| + CountNewlines(s)
  {
    if s == [] then []
    else (if s[0] == '\n' then "\\n" else [s[0]]) + EscapeNewlines(s[1..])
  }

  function CountNewlines(s: string): nat {
    if s == [] then 0 else (if s[0] == '\n' then 1 else 0) + CountNewlines(s[1..])
  }

  /** Text without line breaks is left alone. */
  lemma {:induction false} EscapeWithoutNewlines(s: string)
    requires forall i | 0 <= i < |s| :: s[i] != '\n'
    ensures EscapeNewlines(s) == s
  {
    if s != [] {
      EscapeWithoutNewlines(s[1..]);
      assert s == [s[0]] + s[1..];
    }
  }

  /** The parent configuration, when there is one: whether properties may
      break lines. */
  type ParentConfiguration = Option<bool>

  /** `StringProperty.valueToString`: the description or the value; its
      line breaks escaped when the parent keeps properties on one line;
      quoted text in quotes, or `ifEmpty` when empty; null as "null". */
  function StringValueToString(p: Property<string>, quoted: bool, parent: ParentConfiguration): (r: string)
    ensures p.description.None? && p.value.None? ==> r == "null"
    ensures parent == Some(false) && r != "null" && !(quoted && p.ifEmpty.Some? && r == p.ifEmpty.value) ==>
      forall i | 0 <= i < |r| :: r[i] != '\n'
    ensures quoted && (p.description.Some? || p.value.Some?) && !(p.ifEmpty.Some? && r == p.ifEmpty.value) ==>
      |r| >= 2 && r[0] == '"' && r[|r| - 1] == '"'
    ensures var text := if p.description.Some? then p.description else p.value;
            quoted && text == Some([]) && p.ifEmpty.Some? ==> r == p.ifEmpty.value
    ensures var text := if p.description.Some? then p.description else p.value;
            var shown := if parent == Some(false) && text.Some? then EscapeNewlines(text.value) else text.GetOr([]);
            text.Some? && !(quoted && text.value == [] && p.ifEmpty.Some?) ==>
              r == (if quoted then "\"" + shown + "\"" else shown)
  {
    var text := if p.description.Some? then p.description else p.value;
    var escaped := if parent == Some(false) && text.Some? then Some(EscapeNewlines(text.value)) else text;
    if quoted && escaped.Some? then
      if p.ifEmpty.Some? && escaped.value == [] then p.ifEmpty.value
      else "\"" + escaped.value + "\""
    else if escaped.Some? then escaped.value
    else "null"
  }

  /** Quoted single-line text keeps its content between the quotes. */
  lemma QuotedTextRoundTrip(p: Property<string>, text: string)
    requires p.description.None? && p.value == Some(text) && text != []
    requires forall i | 0 <= i < |text| :: text[i] != '\n'
    ensures var r := StringValueToString(p, true, Some(false));
            r[1..|r| - 1] == text
  {
    EscapeWithoutNewlines(text);
  }

  // ---------------------------------------------------------------------------
  // FlagProperty and ObjectFlagProperty

  /** `FlagProperty.valueToString`: the text for the value's state if given,
      else the plain text. */
  function FlagValueToString(p: Property<bool>, ifTrue: Option<string>, ifFalse: Option<string>,
                             show: bool -> string): (r: string)
    ensures p.value == Some(true) && ifTrue.Some? ==> r == ifTrue.value
    ensures p.value == Some(false) && ifFalse.Some? ==> r == ifFalse.value
    ensures FlagText(p.value, ifTrue, ifFalse).None? ==> r == PlainValueToString(p.value, show)
  {
    if p.value == Some(true) && ifTrue.Some? then ifTrue.value
    else if p.value == Some(false) && ifFalse.Some? then ifFalse.value
    else PlainValueToString(p.value, show)
  }

  /** The text a flag has for its current state, if any. */
  function FlagText(value: Option<bool>, ifTrue: Option<string>, ifFalse: Option<string>): Option<string> {
    if value == Some(true) then ifTrue else if value == Some(false) then ifFalse else None
  }

  /** `FlagProperty.showName`. */
  function FlagShowName(p: Property<bool>, ifTrue: Option<string>, ifFalse: Option<string>): (r: bool)
    ensures FlagText(p.value, ifTrue, ifFalse).None? ==> r
    ensures FlagText(p.value, ifTrue, ifFalse).Some? ==> r == p.showName
  {
    match p.value
    case None => true
    case Some(b) => if (b && ifTrue.None?) || (!b && ifFalse.None?) then true else p.showName
  }

  /** `FlagProperty.level`: hidden when a set value has no text for its state. */
  function FlagLevel(p: Property<bool>, ifTrue: Option<string>, ifFalse: Option<string>): (r: Level)
    ensures p.value.Some? && FlagText(p.value, ifTrue, ifFalse).None? ==> r == Hidden
    ensures FlagText(p.value, ifTrue, ifFalse).Some? || p.value.None? ==> r == PropertyLevel(p)
  {
    match p.value
    case Some(b) => if (b && ifTrue.None?) || (!b && ifFalse.None?) then Hidden else PropertyLevel(p)
    case None => PropertyLevel(p)
  }

  /** A flag either shows its text for the current state, or is hidden and
      falls back to showing its name. */
  lemma FlagShownOrHidden(p: Property<bool>, ifTrue: Option<string>, ifFalse: Option<string>, show: bool -> string)
    requires p.value.Some? && p.defaultLevel != Hidden && p.exception.None?
    ensures FlagLevel(p, ifTrue, ifFalse) == Hidden <==> FlagText(p.value, ifTrue, ifFalse).None?
    ensures FlagLevel(p, ifTrue, ifFalse) == Hidden ==> FlagShowName(p, ifTrue, ifFalse)
    ensures FlagText(p.value, ifTrue, ifFalse).Some? ==>
      FlagValueToString(p, ifTrue, ifFalse, show) == FlagText(p.value, ifTrue, ifFalse).value
  {
  }

  /** `ObjectFlagProperty.valueToString`: `ifPresent` for a value, `ifNull`
      for null, else the plain text. */
  function ObjectFlagValueToString<V>(p: Property<V>, ifPresent: Option<string>, show: V -> string): (r: string)
    ensures p.value.Some? && ifPresent.Some? ==> r == ifPresent.value
    ensures p.value.None? && p.ifNull.Some? ==> r == p.ifNull.value
    ensures ObjectFlagText(p, ifPresent).None? ==> r == PlainValueToString(p.value, show)
  {
    if p.value.Some? && ifPresent.Some? then ifPresent.value
    else if p.value.None? && p.ifNull.Some? then p.ifNull.value
    else PlainValueToString(p.value, show)
  }

  /** The text an object flag has for presence or absence, if any. */
  function ObjectFlagText<V>(p: Property<V>, ifPresent: Option<string>): Option<string> {
    if p.value.Some? then ifPresent else p.ifNull
  }

  /** `ObjectFlagProperty.showName`. */
  function ObjectFlagShowName<V>(p: Property<V>, ifPresent: Option<string>): (r: bool)
    ensures ObjectFlagText(p, ifPresent).None? ==> r
    ensures ObjectFlagText(p, ifPresent).Some? ==> r == p.showName
  {
    if (p.value.Some? && ifPresent.None?) || (p.value.None? && p.ifNull.None?) then true else p.showName
  }

  /** `ObjectFlagProperty.level`: hidden without text for the current state. */
  function ObjectFlagLevel<V(==)>(p: Property<V>, ifPresent: Option<string>): (r: Level)
    ensures ObjectFlagText(p, ifPresent).None? ==> r == Hidden
    ensures ObjectFlagText(p, ifPresent).Some? ==> r == PropertyLevel(p)
  {
    if p.value.Some? && ifPresent.None? then Hidden
    else if p.value.None? && p.ifNull.None? then Hidden
    else PropertyLevel(p)
  }

  /** An object flag either shows its text, or is hidden and shows its name. */
  lemma ObjectFlagShownOrHidden<V>(p: Property<V>, ifPresent: Option<string>, show: V -> string)
    requires p.defaultLevel != Hidden && p.exception.None?
    ensures ObjectFlagLevel(p, ifPresent) == Hidden <==> ObjectFlagText(p, ifPresent).None?
    ensures ObjectFlagLevel(p, ifPresent) == Hidden ==> ObjectFlagShowName(p, ifPresent)
    ensures ObjectFlagText(p, ifPresent).Some? ==>
      ObjectFlagValueToString(p, ifPresent, show) == ObjectFlagText(p, ifPresent).value
  {
  }

  // ---------------------------------------------------------------------------
  // EnumerableProperty and FlagsSummary

  function TotalLength(items: seq<string>): nat {
    if items == [] then 0 else |items[0]| + TotalLength(items[1..])
  }

  /** `string.Join`. */
  function Join(items: seq<string>, separator: string): (r: string)
    ensures |r| == TotalLength(items) + (if items == [] then 0 else |separator| * (|items| - 1))
    ensures |items| > 0 ==> |items[0]| <= |r| && r[..|items[0]|] == items[0]
  {
    if items == [] then []
    else if |items| == 1 then items[0]
    else items[0] + separator + Join(items[1..], separator)
  }

  /** Style of the property: single-line or not. */
  datatype TreeStyle = SingleLine | OtherStyle

  /** `EnumerableProperty.valueToString`: "null" for null, `ifEmpty` (or
      "[]") for an empty list, else the items joined by ", " (or by line
      breaks for a multi-line style when the parent allows them). */
  function EnumerableValueToString(value: Option<seq<string>>, ifEmpty: Option<string>, style: TreeStyle,
                                   parent: ParentConfiguration): (r: string)
    ensures value.None? ==> r == "null"
    ensures value == Some([]) ==> r == (if ifEmpty.Some? then ifEmpty.value else "[]")
    ensures value.Some? && |value.value| == 1 ==> r == value.value[0]
    ensures value.Some? && value.value != [] && (parent == Some(false) || style == SingleLine) ==>
      r == Join(value.value, ", ")
    ensures value.Some? && value.value != [] && parent != Some(false) && style != SingleLine ==>
      r == Join(value.value, "\n")
  {
    if value.None? then "null"
    else if value.value == [] then (if ifEmpty.Some? then ifEmpty.value else "[]")
    else if parent == Some(false) then Join(value.value, ", ")
    else Join(value.value, if style == SingleLine then ", " else "\n")
  }

  /** `EnumerableProperty.level`: an empty list without `ifEmpty` is fine,
      unless the property is hidden anyway. */
  function EnumerableLevel(p: Property<seq<string>>): (r: Level)
    ensures p.ifEmpty.None? && p.value == Some([]) && PropertyLevel(p) != Hidden ==> r == Fine
    ensures !(p.ifEmpty.None? && p.value == Some([])) ==> r == PropertyLevel(p)
    ensures PropertyLevel(p) == Hidden ==> r == Hidden
  {
    if p.ifEmpty.None? && p.value == Some([]) && PropertyLevel(p) != Hidden then Fine else PropertyLevel(p)
  }

  /** A `FlagsSummary` entry: the key and whether its value is non-null. */
  datatype Entry = Entry(key: string, present: bool)

  /** `_formattedValues`: the keys with non-null values, in key order. */
  function FormattedValues(entries: seq<Entry>): (r: seq<string>)
    ensures |r| <= |entries|
    ensures forall k :: k in r <==> exists i :: 0 <= i < |entries| && entries[i].present && entries[i].key == k
  {
    if entries == [] then []
    else
      var rest := FormattedValues(entries[1..]);
      if entries[0].present then [entries[0].key] + rest else rest
  }

  /** The summary of two runs of entries is the summary of the first followed
      by that of the second: the keys come out in entry order. */
  lemma {:induction false} FormattedValuesConcat(a: seq<Entry>, b: seq<Entry>)
    ensures FormattedValues(a + b) == FormattedValues(a) + FormattedValues(b)
  {
    if a == [] {
      assert a + b == b;
    } else {
      assert (a + b)[0] == a[0] && (a + b)[1..] == a[1..] + b;
      FormattedValuesConcat(a[1..], b);
      var x, y := FormattedValues(a[1..]), FormattedValues(b);
      if a[0].present {
        assert [a[0].key] + (x + y) == ([a[0].key] + x) + y;
      }
    }
  }

  /** One entry contributes its key exactly when its value is non-null. */
  lemma FormattedValuesSingle(e: Entry)
    ensures FormattedValues([e]) == (if e.present then [e.key] else [])
  {
  }

  /** Dictionary keys are distinct, and so is each key in the summary. */
  lemma {:induction false} FormattedValuesDistinct(entries: seq<Entry>)
    requires forall i, j | 0 <= i < j < |entries| :: entries[i].key != entries[j].key
    ensures forall i, j | 0 <= i < j < |FormattedValues(entries)| :: FormattedValues(entries)[i] != FormattedValues(entries)[j]
  {
    if entries != [] {
      var rest := FormattedValues(entries[1..]);
      FormattedValuesDistinct(entries[1..]);
      if entries[0].present {
        assert forall i | 0 <= i < |entries[1..]| :: entries[1..][i].key == entries[i + 1].key != entries[0].key;
        DistinctCons(entries[0].key, rest);
      }
    }
  }

  /** Prefixing a fresh key keeps a list of keys free of repeats. */
  lemma DistinctCons(k: string, rest: seq<string>)
    requires k !in rest
    requires forall i, j | 0 <= i < j < |rest| :: rest[i] != rest[j]
    ensures forall i, j | 0 <= i < j < |[k] + rest| :: ([k] + rest)[i] != ([k] + rest)[j]
  {
    var r := [k] + rest;
    forall i, j | 0 <= i < j < |r| ensures r[i] != r[j] {
      assert r[j] == rest[j - 1];
      if i > 0 {
        assert r[i] == rest[i - 1];
      }
    }
  }

  /** `_hasNonNullEntry`. */
  predicate HasNonNullEntry(entries: seq<Entry>) {
    exists i :: 0 <= i < |entries| && entries[i].present
  }

  /** The summary lists something exactly when some entry is non-null. */
  lemma FormattedValuesEmpty(entries: seq<Entry>)
    ensures FormattedValues(entries) == [] <==> !HasNonNullEntry(entries)
  {
    if HasNonNullEntry(entries) {
      var i :| 0 <= i < |entries| && entries[i].present;
      assert entries[i].key in FormattedValues(entries);
    }
  }

  /** `FlagsSummary.valueToString`: `ifEmpty` when nothing is set, else
      the set keys joined by ",", or by line breaks for a multi-line style
      when the parent allows them. */
  function FlagsSummaryValueToString(entries: seq<Entry>, ifEmpty: Option<string>, style: TreeStyle,
                                     parent: ParentConfiguration): (r: string)
    ensures !HasNonNullEntry(entries) && ifEmpty.Some? ==> r == ifEmpty.value
    ensures !HasNonNullEntry(entries) && ifEmpty.None? ==> r == ""
    ensures HasNonNullEntry(entries) && (parent == Some(false) || style == SingleLine) ==>
      r == Join(FormattedValues(entries), ",")
    ensures HasNonNullEntry(entries) && parent != Some(false) && style != SingleLine ==>
      r == Join(FormattedValues(entries), "\n")
  {
    FormattedValuesEmpty(entries);
    if !HasNonNullEntry(entries) && ifEmpty.Some? then ifEmpty.value
    else if parent == Some(false) then Join(FormattedValues(entries), ",")
    else Join(FormattedValues(entries), if style == SingleLine then "," else "\n")
  }

  /** `FlagsSummary.level`: hidden when nothing is set and there is no
      `ifEmpty` text. */
  function FlagsSummaryLevel(p: Property<seq<Entry>>, entries: seq<Entry>): (r: Level)
    ensures !HasNonNullEntry(entries) && p.ifEmpty.None? ==> r == Hidden
    ensures HasNonNullEntry(entries) || p.ifEmpty.Some? ==> r == PropertyLevel(p)
  {
    if !HasNonNullEntry(entries) && p.ifEmpty.None? then Hidden else PropertyLevel(p)
  }

  // ---------------------------------------------------------------------------
  // isFiltered
  // ---------------------------------------------------------------------------

  /** The declaration order of `DiagnosticLevel`, from `hidden` to `off`. */
  function LevelIndex(l: Level): nat {
    match l
    case Hidden => 0
    case Fine => 1
    case Debug => 2
    case Info => 3
    case Warning => 4
    case Hint => 5
    case Summary => 6
    case Error => 7
    case Off => 8
  }

  /** The levels as `DiagnosticLevel` declares them. */
  const DeclarationOrder: seq<Level> := [Hidden, Fine, Debug, Info, Warning, Hint, Summary, Error, Off]

  /** `LevelIndex` is the position in the declaration: every level sits at
      its index, and each position holds the level with that index. */
  lemma LevelIndexIsDeclarationOrder()
    ensures |DeclarationOrder| == 9
    ensures forall l: Level :: LevelIndex(l) < 9 && DeclarationOrder[LevelIndex(l)] == l
    ensures forall i | 0 <= i < |DeclarationOrder| :: LevelIndex(DeclarationOrder[i]) == i
  {
  }

  /** `DiagnosticsNode.isFiltered`: a release build filters every node;
      otherwise a node is filtered when its level lies below the minimum. */
  function IsFiltered(releaseMode: bool, level: Level, minLevel: Level): (r: bool)
    ensures releaseMode ==> r
    ensures !releaseMode ==>
      (r <==> exists i, j | 0 <= i < j < |DeclarationOrder| :: DeclarationOrder[i] == level && DeclarationOrder[j] == minLevel)
    ensures !releaseMode && minLevel == Hidden ==> !r
    ensures !releaseMode && level == minLevel ==> !r
    ensures !releaseMode && level == Off ==> !r
    ensures !releaseMode && level == Hidden ==> (r <==> minLevel != Hidden)
  {
    LevelIndexIsDeclarationOrder();
    releaseMode || LevelIndex(level) < LevelIndex(minLevel)
  }

  /** Raising the minimum level only filters more nodes: whatever a higher
      minimum still shows, every lower minimum shows too. */
  lemma FilteringMonotone(level: Level, lower: Level, higher: Level)
    requires LevelIndex(lower) <= LevelIndex(higher)
    ensures !IsFiltered(false, level, higher) ==> !IsFiltered(false, level, lower)
    ensures IsFiltered(false, level, lower) ==> IsFiltered(false, level, higher)
  {
  }
}
