/** The material date picker's calendar rules (material2/date_picker.cs):
    month lengths, the month pager, the day grid with its weekday headers
    and first-day offset, disabled days, and the year list. */
module MaterialDatePicker {
  import opened Wrappers
  import CSharpInt

  /** `DateTime` at midnight: year, month 1 to 12, day of month. */
  datatype Date = Date(year: int, month: int, day: int)

  /** `getDaysInMonth`'s leap-year rule. */
  predicate IsLeapYear(year: int) {
    (year % 4 == 0 && year % 100 != 0) || year % 400 == 0
  }

  /** `_daysInMonth`: February is looked up separately. */
  const DaysInMonthTable: seq<int> := [31, -1, 31, 30, 31, 30, 31, 31, 30, 31, 30, 31]

  /** `getDaysInMonth`. */
  function DaysInMonth(year: int, month: int): (r: int)
    requires 1 <= month <= 12
    ensures month == 2 ==> (r == 29 <==> IsLeapYear(year)) && (r == 28 <==> !IsLeapYear(year))
    ensures month != 2 ==> r == DaysInMonthTable[month - 1]
    ensures 28 <= r <= 31
  {
    if month == 2 then
      if IsLeapYear(year) then 29 else 28
    else DaysInMonthTable[month - 1]
  }

  /** The days of the first `months` months of a year. */
  function DaysBeforeMonth(year: int, months: int): int
    requires 0 <= months <= 12
  {
    if months == 0 then 0 else DaysBeforeMonth(year, months - 1) + DaysInMonth(year, months)
  }

  /** The twelve months add up to 366 days in a leap year and 365 otherwise. */
  lemma YearLength(year: int)
    ensures DaysBeforeMonth(year, 12) == if IsLeapYear(year) then 366 else 365
  {
    var m := 1;
    while m <= 12
      invariant 1 <= m <= 13
      invariant DaysBeforeMonth(year, m - 1) ==
                  if m <= 2 then 31 * (m - 1) else 31 + DaysInMonth(year, 2) + [0, 31, 61, 92, 122, 153, 184, 214, 245, 275, 306][m - 3]
    {
      m := m + 1;
    }
  }

  /** A `DateTime` the runtime accepts. */
  predicate ValidDate(d: Date) {
    1 <= d.year <= 9999 && 1 <= d.month <= 12 && 1 <= d.day <= DaysInMonth(d.year, d.month)
  }

  /** Chronological order. */
  predicate Before(a: Date, b: Date) {
    a.year < b.year || (a.year == b.year && (a.month < b.month || (a.month == b.month && a.day < b.day)))
  }

  /** Months since the start of year zero. */
  function MonthNumber(d: Date): int {
    d.year * 12 + d.month - 1
  }

  /** `_monthDelta`. */
  function MonthDelta(start: Date, end: Date): (r: int)
    ensures r == MonthNumber(end) - MonthNumber(start)
  {
    (end.year - start.year) * 12 + end.month - start.month
  }

  /** `DateTime.AddMonths`: the same day in the month `months` later, cut
      back to that month's last day. */
  function AddMonths(d: Date, months: int): (r: Date)
    requires ValidDate(d)
    requires 12 <= MonthNumber(d) + months < 10000 * 12
    ensures ValidDate(r)
    ensures MonthDelta(d, r) == months
    ensures r.day == if d.day <= DaysInMonth(r.year, r.month) then d.day else DaysInMonth(r.year, r.month)
  {
    var n := MonthNumber(d) + months;
    var year := n / 12;
    var month := n % 12 + 1;
    var last := DaysInMonth(year, month);
    Date(year, month, if d.day <= last then d.day else last)
  }

  /** The month pager: `_monthDelta(first, last) + 1` pages, page `k`
      showing the month `k` after the first, so the pages are exactly the
      months from the first date's to the last date's, in order. */
  lemma MonthPages(first: Date, last: Date)
    requires ValidDate(first) && ValidDate(last) && !Before(last, first)
    ensures MonthDelta(first, last) + 1 >= 1
    ensures forall k | 0 <= k <= MonthDelta(first, last) ::
              MonthNumber(AddMonths(first, k)) == MonthNumber(first) + k &&
              MonthNumber(first) <= MonthNumber(AddMonths(first, k)) <= MonthNumber(last)
    ensures var p := AddMonths(first, MonthDelta(first, last)); p.year == last.year && p.month == last.month
  {
  }

  // ---------------------------------------------------------------------------
  // Day grid

  /** `_getDayHeaders`: seven narrow weekday names from the locale's first
      day of the week, wrapping around. */
  method DayHeaders(narrowWeekdays: seq<string>, firstDayOfWeekIndex: int) returns (headers: seq<string>)
    requires |narrowWeekdays| == 7 && 0 <= firstDayOfWeekIndex < 7
    ensures |headers| == 7
    ensures forall k | 0 <= k < 7 :: headers[k] == narrowWeekdays[(firstDayOfWeekIndex + k) % 7]
  {
    headers := [];
    var i := firstDayOfWeekIndex;
    CSharpInt.ModSmall(firstDayOfWeekIndex, 7);
    CSharpInt.ModSmall(firstDayOfWeekIndex + 6, 7);
    while true
      invariant 0 <= |headers| < 7
      invariant i == (firstDayOfWeekIndex + |headers|) % 7
      invariant forall k | 0 <= k < |headers| :: headers[k] == narrowWeekdays[(firstDayOfWeekIndex + k) % 7]
      decreases 7 - |headers|
    {
      CSharpInt.ModSmall(firstDayOfWeekIndex + |headers|, 7);
      CSharpInt.ModSmall(firstDayOfWeekIndex + |headers| + 1, 7);
      CSharpInt.ModSmall(i + 1, 7);
      headers := headers + [narrowWeekdays[i]];
      if i == (firstDayOfWeekIndex + 6) % 7 {
        break;
      }
      i := (i + 1) % 7;
    }
  }

  /** `_computeFirstDayOffset` as written: the weekday of the first of the
      month (0 for Sunday, as `DayOfWeek` counts) and the locale's first
      day of the week are moved to a Monday origin and subtracted with C#'s
      remainder, which is negative when the difference is. */
  function FirstDayOffsetAsWritten(firstWeekday: int, firstDayOfWeekIndex: int): (r: int)
    requires 0 <= firstWeekday < 7 && 0 <= firstDayOfWeekIndex < 7
    ensures -6 <= r <= 6
  {
    var weekdayFromMonday := (if firstWeekday == 0 then 7 else firstWeekday) - 1;
    var firstDayOfWeekFromMonday := CSharpInt.Rem(firstDayOfWeekIndex - 1, 7);
    CSharpInt.Rem(weekdayFromMonday - firstDayOfWeekFromMonday, 7)
  }

  /** A month that starts on a Monday, in a locale whose week starts on
      Tuesday, gets an offset of -1. */
  lemma NegativeFirstDayOffset()
    ensures FirstDayOffsetAsWritten(1, 2) == -1
  {
  }

  /** `_computeFirstDayOffset` as intended: the number of blank cells before
      the first of the month, so that day 1 sits under its own weekday. */
  function FirstDayOffset(firstWeekday: int, firstDayOfWeekIndex: int): (r: int)
    requires 0 <= firstWeekday < 7 && 0 <= firstDayOfWeekIndex < 7
    ensures 0 <= r < 7
    ensures (firstDayOfWeekIndex + r) % 7 == firstWeekday
  {
    (firstWeekday - firstDayOfWeekIndex) % 7
  }

  /** Where the written offset is not negative it is the intended one; the
      Sunday- and Monday-first locales never see a negative offset. */
  lemma FirstDayOffsetAgrees(firstWeekday: int, firstDayOfWeekIndex: int)
    requires 0 <= firstWeekday < 7 && 0 <= firstDayOfWeekIndex < 7
    ensures FirstDayOffsetAsWritten(firstWeekday, firstDayOfWeekIndex) >= 0 ==>
              FirstDayOffsetAsWritten(firstWeekday, firstDayOfWeekIndex) == FirstDayOffset(firstWeekday, firstDayOfWeekIndex)
    ensures firstDayOfWeekIndex <= 1 ==> FirstDayOffsetAsWritten(firstWeekday, firstDayOfWeekIndex) >= 0
  {
  }

  /** The grid cells after the headers: blanks before the first, then the
      days; a negative offset starts past day 1. */
  function GridCells(offset: int, daysInMonth: nat): (cells: seq<Option<int>>)
  {
    var count := if daysInMonth + offset > 0 then daysInMonth + offset else 0;
    seq(count, i => if i - offset + 1 < 1 then None else Some(i - offset + 1))
  }

  /** The loop in `DayPicker.build` that lays out the cells. */
  method DayCells(offset: int, daysInMonth: nat) returns (cells: seq<Option<int>>)
    ensures cells == GridCells(offset, daysInMonth)
  {
    cells := [];
    var i := 0;
    while true
      invariant 0 <= i && |cells| == i
      invariant i - offset <= daysInMonth || i == 0
      invariant forall k | 0 <= k < i :: cells[k] == (if k - offset + 1 < 1 then None else Some(k - offset + 1))
      decreases daysInMonth - (i - offset)
    {
      var day := i - offset + 1;
      if day > daysInMonth {
        break;
      }
      if day < 1 {
        cells := cells + [None];
      } else {
        cells := cells + [Some(day)];
      }
      i := i + 1;
    }
  }

  /** With an offset of 0 to 6, the grid shows that many blanks and then
      every day of the month exactly once, in order. */
  lemma GridShowsEveryDay(offset: int, daysInMonth: nat)
    requires 0 <= offset < 7
    ensures var cells := GridCells(offset, daysInMonth);
            |cells| == offset + daysInMonth &&
            (forall k | 0 <= k < offset :: cells[k].None?) &&
            (forall day | 1 <= day <= daysInMonth :: cells[offset + day - 1] == Some(day)) &&
            (forall i, j | 0 <= i < j < |cells| && cells[i].Some? :: cells[i] != cells[j])
  {
  }

  /** With the written offset of -1, the first of the month is missing from
      the grid. */
  lemma FirstOfMonthMissing(daysInMonth: nat)
    ensures Some(1) !in GridCells(FirstDayOffsetAsWritten(1, 2), daysInMonth)
    ensures Some(1) in GridCells(FirstDayOffset(1, 2), daysInMonth) <==> daysInMonth >= 1
  {
    NegativeFirstDayOffset();
    var cells := GridCells(FirstDayOffset(1, 2), daysInMonth);
    if daysInMonth >= 1 {
      assert cells[6] == Some(1);
    }
  }

  /** A day is disabled when it is after the last date, before the first,
      or rejected by the selectable-day predicate. */
  predicate IsDisabled(day: Date, first: Date, last: Date, selectable: Option<Date -> bool>) {
    Before(last, day) || Before(day, first) || (selectable.Some? && !selectable.value(day))
  }

  /** The preconditions `showDatePicker` asserts. */
  predicate PickerArgumentsOk(initial: Date, first: Date, last: Date, selectable: Option<Date -> bool>) {
    !Before(initial, first) && !Before(last, initial) && !Before(last, first) &&
    (selectable.None? || selectable.value(initial))
  }

  /** Arguments `showDatePicker` accepts make the initial day enabled. */
  lemma InitialDateEnabled(initial: Date, first: Date, last: Date, selectable: Option<Date -> bool>)
    requires PickerArgumentsOk(initial, first, last, selectable)
    ensures !IsDisabled(initial, first, last, selectable)
  {
  }

  /** Enabled days lie between the first and last dates. */
  lemma EnabledWithinRange(day: Date, first: Date, last: Date, selectable: Option<Date -> bool>)
    ensures !IsDisabled(day, first, last, selectable) ==> !Before(day, first) && !Before(last, day)
    ensures !IsDisabled(day, first, last, None) <==> !Before(day, first) && !Before(last, day)
  {
  }

  // ---------------------------------------------------------------------------
  // Years

  /** The years the year picker lists, `last.Year - first.Year + 1` of
      them counting up from the first date's. */
  function Years(first: Date, last: Date): (years: seq<int>)
    ensures |years| == if last.year >= first.year then last.year - first.year + 1 else 0
  {
    var count := if last.year >= first.year then last.year - first.year + 1 else 0;
    seq(count, i => first.year + i)
  }

  /** Each year from the first date's to the last date's is listed once,
      and no other. */
  lemma YearListCoversRange(first: Date, last: Date)
    requires !Before(last, first)
    ensures |Years(first, last)| >= 1
    ensures forall y :: y in Years(first, last) <==> first.year <= y <= last.year
    ensures forall i, j | 0 <= i < j < |Years(first, last)| :: Years(first, last)[i] != Years(first, last)[j]
  {
    var years := Years(first, last);
    forall y | first.year <= y <= last.year
      ensures y in years
    {
      assert years[y - first.year] == y;
    }
  }

  /** The picker's modes. */
  datatype Mode = DayMode | YearMode

  /** The dialog's selection state. */
  datatype DialogState = DialogState(selected: Date, mode: Mode)

  /** The date moved into [first, last]: the first date when it is earlier,
      the last when it is later, itself otherwise. */
  function ClampDate(value: Date, first: Date, last: Date): (r: Date)
    requires !Before(last, first)
    ensures !Before(r, first) && !Before(last, r)
    ensures !Before(value, first) && !Before(last, value) ==> r == value
    ensures Before(value, first) ==> r == first
    ensures Before(last, value) ==> r == last
  {
    if Before(value, first) then first else if Before(last, value) then last else value
  }

  /** `_handleYearChanged`: clamp into the allowed range; an unchanged date
      changes nothing, a new one is selected and the day view returns. */
  function HandleYearChanged(s: DialogState, value: Date, first: Date, last: Date): (r: DialogState)
    requires !Before(last, first)
    ensures var c := ClampDate(value, first, last);
            (r == s <==> c == s.selected) && (r != s ==> r == DialogState(c, DayMode))
    ensures !Before(r.selected, first) || r == s
    ensures !Before(last, r.selected) || r == s
    ensures r != s ==> r.mode == DayMode
    ensures !Before(value, first) && !Before(last, value) && value != s.selected ==> r == DialogState(value, DayMode)
    ensures Before(value, first) ==> r.selected == first || r == s
    ensures Before(last, value) ==> r.selected == last || r == s
  {
    var clamped := if Before(value, first) then first else if Before(last, value) then last else value;
    if clamped == s.selected then s else DialogState(clamped, DayMode)
  }

  /** A second identical year change does nothing. */
  lemma HandleYearChangedIdempotent(s: DialogState, value: Date, first: Date, last: Date)
    requires !Before(last, first)
    ensures var once := HandleYearChanged(s, value, first, last);
            HandleYearChanged(once, value, first, last) == once
  {
  }

  /** Why a year tap did not select a date. */
  datatype DateError = DayOutOfRange

  /** A tap on a year as written: the selected month and day in that year,
      which the runtime refuses for a day that month does not have. */
  function YearTapAsWritten(year: int, selected: Date): (r: Result<Date, DateError>)
    requires 1 <= year <= 9999 && ValidDate(selected)
    ensures r.Failure? <==> selected.day > DaysInMonth(year, selected.month)
    ensures r.Success? ==> r.value == Date(year, selected.month, selected.day) && ValidDate(r.value)
  {
    var candidate := Date(year, selected.month, selected.day);
    if ValidDate(candidate) then Success(candidate) else Failure(DayOutOfRange)
  }

  /** From 29 February 2020, tapping 2021 fails. */
  lemma LeapDayYearTapFails()
    ensures ValidDate(Date(2020, 2, 29))
    ensures YearTapAsWritten(2021, Date(2020, 2, 29)).Failure?
  {
  }

  /** A tap on a year as intended: the same month in that year, the day cut
      back to the month's length. */
  function YearTap(year: int, selected: Date): (r: Date)
    requires 1 <= year <= 9999 && ValidDate(selected)
    ensures ValidDate(r) && r.year == year && r.month == selected.month
    ensures r.day <= selected.day
    ensures r.day == selected.day <==> selected.day <= DaysInMonth(year, selected.month)
  {
    var last := DaysInMonth(year, selected.month);
    Date(year, selected.month, if selected.day <= last then selected.day else last)
  }

  /** Wherever the written tap succeeds, the intended one agrees with it. */
  lemma YearTapAgrees(year: int, selected: Date)
    requires 1 <= year <= 9999 && ValidDate(selected)
    ensures YearTapAsWritten(year, selected).Success? ==> YearTapAsWritten(year, selected).value == YearTap(year, selected)
  {
  }
}
