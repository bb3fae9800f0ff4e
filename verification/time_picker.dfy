/** The material time picker's clock arithmetic (material/time_picker.cs):
    day periods and their toggle, the hour and minute controls' neighbours,
    the header layout per time-of-day format, and the dial's rings and hour
    tables. */
module TimePicker {
  import opened Wrappers
  import Text
  import CSharpInt

  const HoursPerDay := 24
  const HoursPerPeriod := 12
  const MinutesPerHour := 60

  /** `TimeOfDay`: an hour and a minute. */
  datatype TimeOfDay = TimeOfDay(hour: int, minute: int)

  predicate ValidTime(t: TimeOfDay) {
    0 <= t.hour < HoursPerDay && 0 <= t.minute < MinutesPerHour
  }

  datatype DayPeriod = Am | Pm

  /** A time's period: the first twelve hours are before noon. */
  function Period(t: TimeOfDay): DayPeriod {
    if t.hour < HoursPerPeriod then Am else Pm
  }

  /** The first hour of the time's period. */
  function PeriodOffset(t: TimeOfDay): (r: int)
    ensures r == 0 <==> Period(t) == Am
    ensures r == 0 || r == HoursPerPeriod
  {
    if Period(t) == Am then 0 else HoursPerPeriod
  }

  /** The hour within the period, 0 to 11 for a valid time. */
  function HourOfPeriod(t: TimeOfDay): (r: int)
    ensures ValidTime(t) ==> 0 <= r < HoursPerPeriod
    ensures PeriodOffset(t) + r == t.hour
  {
    t.hour - PeriodOffset(t)
  }

  /** `_DayPeriodControl._togglePeriod`: the same hour in the other half of
      the day. */
  function TogglePeriod(t: TimeOfDay): (r: TimeOfDay)
    requires ValidTime(t)
    ensures ValidTime(r) && r.minute == t.minute
    ensures Period(r) != Period(t)
    ensures HourOfPeriod(r) == HourOfPeriod(t)
  {
    t.(hour := (t.hour + HoursPerPeriod) % HoursPerDay)
  }

  /** `_setAm`: nothing when already before noon, else toggle. */
  function SetAm(t: TimeOfDay): (r: TimeOfDay)
    requires ValidTime(t)
    ensures ValidTime(r) && Period(r) == Am
    ensures HourOfPeriod(r) == HourOfPeriod(t) && r.minute == t.minute
    ensures Period(t) == Am ==> r == t
  {
    if Period(t) == Am then t else TogglePeriod(t)
  }

  /** `_setPm`: nothing when already after noon, else toggle. */
  function SetPm(t: TimeOfDay): (r: TimeOfDay)
    requires ValidTime(t)
    ensures ValidTime(r) && Period(r) == Pm
    ensures HourOfPeriod(r) == HourOfPeriod(t) && r.minute == t.minute
    ensures Period(t) == Pm ==> r == t
  {
    if Period(t) == Pm then t else TogglePeriod(t)
  }

  /** Toggling twice is the identity, and setting a period is idempotent. */
  lemma TogglePeriodInvolution(t: TimeOfDay)
    requires ValidTime(t)
    ensures TogglePeriod(TogglePeriod(t)) == t
    ensures SetAm(SetAm(t)) == SetAm(t) && SetPm(SetPm(t)) == SetPm(t)
    ensures SetAm(SetPm(t)) == SetAm(t)
  {
  }

  /** `hoursFromSelected` on a 24-hour dial: the hour moves around the
      whole day. */
  function HoursFromSelected24(t: TimeOfDay, hoursToAdd: int): (r: TimeOfDay)
    requires ValidTime(t) && hoursToAdd >= -HoursPerDay
    ensures ValidTime(r) && r.minute == t.minute
    ensures (r.hour - t.hour - hoursToAdd) % HoursPerDay == 0
  {
    t.(hour := (t.hour + hoursToAdd + HoursPerDay) % HoursPerDay)
  }

  /** `hoursFromSelected` on a 12-hour dial as written: the period offset is
      added inside the remainder, so the result always lands before noon. */
  function HoursFromSelected12AsWritten(t: TimeOfDay, hoursToAdd: int): (r: TimeOfDay)
    requires ValidTime(t) && hoursToAdd >= -HoursPerPeriod
    ensures ValidTime(r) && r.minute == t.minute
    ensures Period(r) == Am
  {
    t.(hour := (PeriodOffset(t) + (HourOfPeriod(t) + hoursToAdd) + HoursPerPeriod) % HoursPerPeriod)
  }

  /** The next hour after 1 p.m. on a 12-hour dial comes out as 2 a.m. */
  lemma NextHourAfterOnePmIsMorning()
    ensures HoursFromSelected12AsWritten(TimeOfDay(13, 0), 1) == TimeOfDay(2, 0)
  {
  }

  /** `hoursFromSelected` on a 12-hour dial as intended: cycle through the
      twelve hours without changing the period. */
  function HoursFromSelected12(t: TimeOfDay, hoursToAdd: int): (r: TimeOfDay)
    requires ValidTime(t) && hoursToAdd >= -HoursPerPeriod
    ensures ValidTime(r) && r.minute == t.minute
    ensures Period(r) == Period(t)
    ensures (HourOfPeriod(r) - HourOfPeriod(t) - hoursToAdd) % HoursPerPeriod == 0
  {
    t.(hour := PeriodOffset(t) + (HourOfPeriod(t) + hoursToAdd + HoursPerPeriod) % HoursPerPeriod)
  }

  /** The next and previous hours undo each other on both dials, and the
      two 12-hour versions agree before noon. */
  lemma HourNeighboursInverse(t: TimeOfDay)
    requires ValidTime(t)
    ensures HoursFromSelected24(HoursFromSelected24(t, 1), -1) == t
    ensures HoursFromSelected12(HoursFromSelected12(t, 1), -1) == t
    ensures Period(t) == Am ==> HoursFromSelected12AsWritten(t, 1) == HoursFromSelected12(t, 1)
  {
    Hour24Inverse(t);
    Hour12Inverse(t);
    Hour12AgreeBeforeNoon(t);
  }

  lemma Hour24Inverse(t: TimeOfDay)
    requires ValidTime(t)
    ensures HoursFromSelected24(HoursFromSelected24(t, 1), -1) == t
  {
    var h := t.hour;
    CSharpInt.ModSmall(h + 1 + HoursPerDay, HoursPerDay);
    var next := if h < HoursPerDay - 1 then h + 1 else 0;
    assert HoursFromSelected24(t, 1) == t.(hour := next);
    CSharpInt.ModSmall(next - 1 + HoursPerDay, HoursPerDay);
  }

  lemma Hour12Inverse(t: TimeOfDay)
    requires ValidTime(t)
    ensures HoursFromSelected12(HoursFromSelected12(t, 1), -1) == t
  {
    var p := HourOfPeriod(t);
    CSharpInt.ModSmall(p + 1 + HoursPerPeriod, HoursPerPeriod);
    var next := if p < HoursPerPeriod - 1 then p + 1 else 0;
    var u := HoursFromSelected12(t, 1);
    assert u == t.(hour := PeriodOffset(t) + next);
    assert HourOfPeriod(u) == next;
    CSharpInt.ModSmall(next - 1 + HoursPerPeriod, HoursPerPeriod);
  }

  lemma Hour12AgreeBeforeNoon(t: TimeOfDay)
    requires ValidTime(t)
    ensures Period(t) == Am ==> HoursFromSelected12AsWritten(t, 1) == HoursFromSelected12(t, 1)
  {
  }

  /** `_MinuteControl`'s next minute. */
  function NextMinute(t: TimeOfDay): (r: TimeOfDay)
    requires ValidTime(t)
    ensures ValidTime(r) && r.hour == t.hour
    ensures r.minute == if t.minute == MinutesPerHour - 1 then 0 else t.minute + 1
  {
    t.(minute := (t.minute + 1) % MinutesPerHour)
  }

  /** `_MinuteControl`'s previous minute. */
  function PreviousMinute(t: TimeOfDay): (r: TimeOfDay)
    requires ValidTime(t)
    ensures ValidTime(r) && r.hour == t.hour
    ensures r.minute == if t.minute == 0 then MinutesPerHour - 1 else t.minute - 1
  {
    t.(minute := (t.minute - 1 + MinutesPerHour) % MinutesPerHour)
  }

  lemma MinuteNeighboursInverse(t: TimeOfDay)
    requires ValidTime(t)
    ensures PreviousMinute(NextMinute(t)) == t && NextMinute(PreviousMinute(t)) == t
  {
  }

  // ---------------------------------------------------------------------------
  // Header layout

  /** The locale's time-of-day formats. */
  datatype TimeOfDayFormat = HColonMmSpaceA | HColonMm | HHDotMm | ASpaceHColonMm | FrenchCanadian | HHColonMm

  /** A header fragment: the hour, a literal separator, the minute or the
      day-period control. */
  datatype Fragment = HourFragment | Separator(text: string) | MinuteFragment | PeriodFragment

  /** `_TimePickerHeaderPiece`: the piece with a non-negative pivot index is
      the one the header centres. */
  datatype Piece = Piece(pivotIndex: int, fragments: seq<Fragment>)

  /** `_TimePickerHeaderFormat`. */
  datatype HeaderFormat = HeaderFormat(centerpieceIndex: nat, pieces: seq<Piece>)

  /** The last index whose piece has a pivot, as the loop in `format` finds
      it. */
  function LastPivot(pieces: seq<Piece>): (r: Option<nat>)
    ensures r.Some? ==> r.value < |pieces| && pieces[r.value].pivotIndex >= 0 &&
                        forall j | r.value < j < |pieces| :: pieces[j].pivotIndex < 0
    ensures r.None? <==> forall j | 0 <= j < |pieces| :: pieces[j].pivotIndex < 0
  {
    if |pieces| == 0 then None
    else if pieces[|pieces| - 1].pivotIndex >= 0 then Some(|pieces| - 1)
    else LastPivot(pieces[..|pieces| - 1])
  }

  /** `format`: one or two pieces, the second placed first right to left;
      the header needs a centre piece. */
  function Format(direction: Text.TextDirection, piece1: Piece, piece2: Option<Piece>): (r: Option<HeaderFormat>)
    ensures r.Some? ==> 0 < |r.value.pieces| <= 2 && r.value.centerpieceIndex < |r.value.pieces| &&
                        r.value.pieces[r.value.centerpieceIndex].pivotIndex >= 0
    ensures r.Some? ==> (direction == Text.Ltr ==> r.value.pieces[0] == piece1) &&
                        (direction == Text.Rtl ==> r.value.pieces[|r.value.pieces| - 1] == piece1)
    ensures r.None? <==> piece1.pivotIndex < 0 && (piece2.None? || piece2.value.pivotIndex < 0)
  {
    var pieces :=
      if direction == Text.Ltr then [piece1] + (if piece2.Some? then [piece2.value] else [])
      else (if piece2.Some? then [piece2.value] else []) + [piece1];
    match LastPivot(pieces)
    case None => None
    case Some(i) => Some(HeaderFormat(i, pieces))
  }

  /** The hour-and-minute piece with the given separator, centred. */
  function HourMinutePiece(separator: string): Piece {
    Piece(1, [HourFragment, Separator(separator), MinuteFragment])
  }

  const PeriodPiece := Piece(-1, [PeriodFragment])

  /** `_buildHeaderFormat`. */
  function BuildHeaderFormat(format: TimeOfDayFormat, direction: Text.TextDirection): Option<HeaderFormat> {
    match format
    case HColonMmSpaceA => Format(direction, HourMinutePiece(":"), Some(PeriodPiece))
    case HColonMm => Format(direction, HourMinutePiece(":"), None)
    case HHDotMm => Format(direction, HourMinutePiece("."), None)
    case ASpaceHColonMm => Format(direction, PeriodPiece, Some(HourMinutePiece(":")))
    case FrenchCanadian => Format(direction, HourMinutePiece("h"), None)
    case HHColonMm => Format(direction, HourMinutePiece(":"), None)
  }

  /** Whether a format shows the day-period control. */
  predicate ShowsPeriod(format: TimeOfDayFormat) {
    format == HColonMmSpaceA || format == ASpaceHColonMm
  }

  /** A single centred piece is the whole header. */
  lemma FormatSingle(direction: Text.TextDirection, piece: Piece)
    requires piece.pivotIndex >= 0
    ensures Format(direction, piece, None) == Some(HeaderFormat(0, [piece]))
  {
    if direction == Text.Ltr {
      assert [piece] + [] == [piece];
    } else {
      assert [] + [piece] == [piece];
    }
  }

  /** Of two pieces where only `centre` has a pivot, `centre` is the centre
      piece wherever the direction puts it. */
  lemma FormatPair(direction: Text.TextDirection, piece1: Piece, piece2: Piece, centre: Piece)
    requires centre == piece1 || centre == piece2
    requires centre.pivotIndex >= 0
    requires (if centre == piece1 then piece2 else piece1).pivotIndex < 0
    ensures var pieces := if direction == Text.Ltr then [piece1, piece2] else [piece2, piece1];
            Format(direction, piece1, Some(piece2)) ==
              Some(HeaderFormat(if pieces[0] == centre then 0 else 1, pieces))
  {
    var pieces := if direction == Text.Ltr then [piece1, piece2] else [piece2, piece1];
    assert pieces == (if direction == Text.Ltr then [piece1] + [piece2] else [piece2] + [piece1]);
    assert pieces[..1] == [pieces[0]] && [pieces[0]][..0] == [];
    assert LastPivot([]) == None;
  }

  /** The separator between hour and minute in each format. */
  function SeparatorOf(format: TimeOfDayFormat): string {
    match format
    case HHDotMm => "."
    case FrenchCanadian => "h"
    case _ => ":"
  }

  /** Each format is one of three shapes around its hour-and-minute piece. */
  lemma BuildHeaderFormatShape(format: TimeOfDayFormat, direction: Text.TextDirection)
    ensures var centre := HourMinutePiece(SeparatorOf(format));
            BuildHeaderFormat(format, direction) ==
              if format == HColonMmSpaceA then Format(direction, centre, Some(PeriodPiece))
              else if format == ASpaceHColonMm then Format(direction, PeriodPiece, Some(centre))
              else Format(direction, centre, None)
  {
    match format
    case HColonMmSpaceA =>
    case ASpaceHColonMm =>
    case HColonMm =>
    case HHDotMm =>
    case FrenchCanadian =>
    case HHColonMm =>
  }

  /** Every format in either direction has a centre piece, and it is the
      hour-and-minute piece with the format's separator; the period control
      appears exactly for the 12-hour formats. */
  lemma HeaderFormatWellFormed(format: TimeOfDayFormat, direction: Text.TextDirection)
    ensures BuildHeaderFormat(format, direction).Some?
    ensures var h := BuildHeaderFormat(format, direction).value;
            h.pieces[h.centerpieceIndex] == HourMinutePiece(SeparatorOf(format))
    ensures PeriodPiece in BuildHeaderFormat(format, direction).value.pieces <==> ShowsPeriod(format)
  {
    var centre := HourMinutePiece(SeparatorOf(format));
    BuildHeaderFormatShape(format, direction);
    if ShowsPeriod(format) {
      if format == HColonMmSpaceA {
        FormatPair(direction, centre, PeriodPiece, centre);
      } else {
        FormatPair(direction, PeriodPiece, centre, centre);
      }
    } else {
      FormatSingle(direction, centre);
      assert PeriodPiece != centre;
    }
  }

  /** `r` lists the pieces of `l` in reverse. */
  predicate Mirrors(l: seq<Piece>, r: seq<Piece>) {
    |l| == |r| && forall i | 0 <= i < |l| :: r[i] == l[|l| - 1 - i]
  }

  /** Right to left lists the pieces of left to right in reverse. */
  lemma HeaderFormatMirrored(format: TimeOfDayFormat)
    ensures BuildHeaderFormat(format, Text.Ltr).Some? && BuildHeaderFormat(format, Text.Rtl).Some?
    ensures Mirrors(BuildHeaderFormat(format, Text.Ltr).value.pieces, BuildHeaderFormat(format, Text.Rtl).value.pieces)
  {
    match format
    case HColonMmSpaceA => PairMirrored(HourMinutePiece(":"), PeriodPiece, HourMinutePiece(":"));
    case ASpaceHColonMm => PairMirrored(PeriodPiece, HourMinutePiece(":"), HourMinutePiece(":"));
    case HColonMm => SingleMirrored(HourMinutePiece(":"));
    case HHDotMm => SingleMirrored(HourMinutePiece("."));
    case FrenchCanadian => SingleMirrored(HourMinutePiece("h"));
    case HHColonMm => SingleMirrored(HourMinutePiece(":"));
  }

  /** A one-piece header is the same in both directions. */
  lemma SingleMirrored(piece: Piece)
    requires piece.pivotIndex >= 0
    ensures Format(Text.Ltr, piece, None).Some? && Format(Text.Rtl, piece, None).Some?
    ensures Mirrors(Format(Text.Ltr, piece, None).value.pieces, Format(Text.Rtl, piece, None).value.pieces)
  {
    FormatSingle(Text.Ltr, piece);
    FormatSingle(Text.Rtl, piece);
  }

  /** The two-piece headers of both directions mirror each other. */
  lemma PairMirrored(piece1: Piece, piece2: Piece, centre: Piece)
    requires centre == piece1 || centre == piece2
    requires centre.pivotIndex >= 0
    requires (if centre == piece1 then piece2 else piece1).pivotIndex < 0
    ensures Format(Text.Ltr, piece1, Some(piece2)).Some? && Format(Text.Rtl, piece1, Some(piece2)).Some?
    ensures Mirrors(Format(Text.Ltr, piece1, Some(piece2)).value.pieces, Format(Text.Rtl, piece1, Some(piece2)).value.pieces)
  {
    FormatPair(Text.Ltr, piece1, piece2, centre);
    FormatPair(Text.Rtl, piece1, piece2, centre);
  }

  // ---------------------------------------------------------------------------
  // Dial

  datatype Mode = HourMode | MinuteMode
  datatype Ring = Inner | Outer

  /** `_updateDialRingFromWidget`: on a 24-hour hour dial, hours 1 to 12 sit
      on the inner ring; everything else is on the outer ring. */
  function DialRing(mode: Mode, use24HourDials: bool, hour: int): (r: Ring)
    ensures r == Inner <==> mode == HourMode && use24HourDials && 1 <= hour <= 12
  {
    if mode == HourMode && use24HourDials then
      (if 1 <= hour && hour <= 12 then Inner else Outer)
    else Outer
  }

  /** `_selectHour`: the ring that becomes active and the time whose angle
      the dial moves to. */
  function SelectHour(mode: Mode, use24HourDials: bool, selected: TimeOfDay, hour: int): (r: (Ring, TimeOfDay))
    ensures r.0 == DialRing(mode, use24HourDials, hour)
    ensures r.1.minute == selected.minute
    ensures mode == HourMode && use24HourDials ==> r.1.hour == hour
    ensures !(mode == HourMode && use24HourDials) ==> r.1.hour == hour + PeriodOffset(selected)
  {
    if mode == HourMode && use24HourDials then
      (DialRing(mode, use24HourDials, hour), TimeOfDay(hour, selected.minute))
    else if Period(selected) == Am then
      (Outer, TimeOfDay(hour, selected.minute))
    else
      (Outer, TimeOfDay(hour + HoursPerPeriod, selected.minute))
  }

  /** `_amHours`: the inner 24-hour ring and the 12-hour dial, 12 first. */
  const AmHours: seq<int> := [12, 1, 2, 3, 4, 5, 6, 7, 8, 9, 10, 11]

  /** `_pmHours`: the outer 24-hour ring, 0 first. */
  const PmHours: seq<int> := [0, 13, 14, 15, 16, 17, 18, 19, 20, 21, 22, 23]

  /** The two tables together list every hour of the day exactly once, and
      each 24-hour label lies on the ring its table is drawn on. */
  lemma HourTablesPartitionDay()
    ensures |AmHours| == |PmHours| == HoursPerPeriod
    ensures forall h :: h in AmHours + PmHours <==> 0 <= h < HoursPerDay
    ensures forall i, j | 0 <= i < j < |AmHours + PmHours| :: (AmHours + PmHours)[i] != (AmHours + PmHours)[j]
    ensures forall h | h in AmHours :: SelectHour(HourMode, true, TimeOfDay(0, 0), h).0 == Inner
    ensures forall h | h in PmHours :: SelectHour(HourMode, true, TimeOfDay(0, 0), h).0 == Outer
  {
    HourTablesCoverDay();
    HourTablesRings();
  }

  lemma HourTablesCoverDay()
    ensures forall h :: h in AmHours + PmHours <==> 0 <= h < HoursPerDay
    ensures forall i, j | 0 <= i < j < |AmHours + PmHours| :: (AmHours + PmHours)[i] != (AmHours + PmHours)[j]
  {
    var all := AmHours + PmHours;
    HourTablesByIndex();
    forall h | 0 <= h < HoursPerDay ensures h in all {
      assert all[if h == 12 then 0 else if h == 0 then 12 else h] == h;
    }
  }

  lemma HourTablesRings()
    ensures forall h | h in AmHours :: SelectHour(HourMode, true, TimeOfDay(0, 0), h).0 == Inner
    ensures forall h | h in PmHours :: SelectHour(HourMode, true, TimeOfDay(0, 0), h).0 == Outer
  {
  }

  /** Entry i of the two tables together is hour i, except that 12 and 0
      trade places. */
  lemma HourTablesByIndex()
    ensures |AmHours + PmHours| == HoursPerDay
    ensures forall i | 0 <= i < HoursPerDay ::
      (AmHours + PmHours)[i] == if i == 0 then 12 else if i == 12 then 0 else i
  {
  }
}
