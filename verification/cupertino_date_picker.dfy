/** The Cupertino date and timer pickers (cupertino/date_picker.cs): the
    digit labels, the date-time picker's hour and meridiem columns and the
    region bookkeeping between them, its minute column, the last day of a
    month, and the timer picker's fields and change callbacks. */
module CupertinoDatePicker {
  import opened Wrappers
  import MaterialDatePicker
  import CSharpInt

  /** `CreateNumbers`: the digits from nine down to zero. */
  method CreateNumbers() returns (numbers: seq<string>)
    ensures |numbers| == 10
    ensures forall i | 0 <= i < 10 :: numbers[i] == [('0' as int + 9 - i) as char]
  {
    numbers := [];
    var i := 0;
    while i < 10
      invariant 0 <= i <= 10 && |numbers| == i
      invariant forall k | 0 <= k < i :: numbers[k] == [('0' as int + 9 - k) as char]
    {
      numbers := numbers + [[('0' as int + 9 - i) as char]];
      i := i + 1;
    }
  }

  /** The minute-interval conditions the date and timer pickers assert. */
  predicate ValidInterval(interval: int) {
    interval > 0 && 60 % interval == 0
  }

  /** The date-time picker's constructor conditions on minutes. */
  predicate ConstructorOk(minuteInterval: int, initialMinute: int) {
    ValidInterval(minuteInterval) && 0 <= initialMinute < 60 && initialMinute % minuteInterval == 0
  }

  /** The minute column's initial item, `initialMinute / minuteInterval`,
      lands on a label that shows the initial minute. */
  lemma InitialMinuteItem(minuteInterval: int, initialMinute: int)
    requires ConstructorOk(minuteInterval, initialMinute)
    ensures var item := initialMinute / minuteInterval;
            0 <= item < 60 / minuteInterval && item * minuteInterval == initialMinute
  {
    var item := initialMinute / minuteInterval;
    assert initialMinute == item * minuteInterval;
    assert 60 == (60 / minuteInterval) * minuteInterval;
  }

  // ---------------------------------------------------------------------------
  // Hours and meridiem

  /** The hour column's bookkeeping: which half of the wheel's 24 items the
      hour wheel is in, and which meridiem the meridiem wheel shows. */
  datatype Meridiem = Meridiem(meridiemRegion: int, selectedAmPm: int)

  /** `_isHourRegionFlipped`: the meridiem wheel disagrees with the hour
      wheel's half. */
  predicate IsHourRegionFlipped(m: Meridiem) {
    m.selectedAmPm != m.meridiemRegion
  }

  /** `_selectedHour`: a flipped region shifts the wheel's hour by twelve. */
  function SelectedHour(m: Meridiem, hourIndex: int): (r: int)
    requires 0 <= hourIndex < 24
    ensures 0 <= r < 24 && r % 12 == hourIndex % 12
    ensures IsHourRegionFlipped(m) <==> r != hourIndex
  {
    if IsHourRegionFlipped(m) then (hourIndex + 12) % 24 else hourIndex
  }

  /** The hour column's labels: the 24 items read through the flip. */
  function HourColumn(flipped: bool): (hours: seq<int>)
    ensures |hours| == 24
  {
    seq(24, index => if flipped then (index + 12) % 24 else index)
  }

  /** Either way the column lists each hour of the day once. */
  lemma HourColumnIsPermutation(flipped: bool)
    ensures forall h :: h in HourColumn(flipped) <==> 0 <= h < 24
    ensures forall i, j | 0 <= i < j < 24 :: HourColumn(flipped)[i] != HourColumn(flipped)[j]
  {
    var hours := HourColumn(flipped);
    forall h | 0 <= h < 24 ensures h in hours {
      var i := if flipped then (h + 12) % 24 else h;
      assert hours[i] == h;
    }
  }

  /** The 12-hour display of an hour, `(hour + 11) % 12 + 1`. */
  function DisplayHour(use24hFormat: bool, hour: int): (r: int)
    requires 0 <= hour < 24
    ensures use24hFormat ==> r == hour
    ensures !use24hFormat ==> 1 <= r <= 12 && r % 12 == hour % 12
  {
    if use24hFormat then hour else (hour + 11) % 12 + 1
  }

  /** `initState`: the meridiem of the initial hour, shown by both wheels,
      with the hour wheel on the initial hour. */
  function InitialMeridiem(initialHour: int): (m: Meridiem)
    requires 0 <= initialHour < 24
    ensures !IsHourRegionFlipped(m)
    ensures SelectedHour(m, initialHour) == initialHour
  {
    var amPm := initialHour / 12;
    Meridiem(amPm, amPm)
  }

  /** The wheels agree: the hour wheel's item is in its region, and the
      selected hour lies in the meridiem the meridiem wheel shows. */
  predicate Consistent(m: Meridiem, hourIndex: int) {
    0 <= hourIndex < 24 && m.meridiemRegion == hourIndex / 12 &&
    (m.selectedAmPm == 0 || m.selectedAmPm == 1) &&
    SelectedHour(m, hourIndex) / 12 == m.selectedAmPm
  }

  /** The hour wheel's `onSelectedItemChanged`: crossing into the other
      half flips both the region and the meridiem. */
  function HourChanged(m: Meridiem, index: int): (r: Meridiem)
    requires 0 <= index < 24
    ensures r.meridiemRegion == index / 12
    ensures (m.selectedAmPm == 0 || m.selectedAmPm == 1) && (m.meridiemRegion == 0 || m.meridiemRegion == 1) ==>
              (r.selectedAmPm == 0 || r.selectedAmPm == 1) && IsHourRegionFlipped(r) == IsHourRegionFlipped(m)
  {
    var regionChanged := m.meridiemRegion != index / 12;
    if regionChanged then Meridiem(index / 12, 1 - m.selectedAmPm) else m
  }

  /** The meridiem wheel's `onSelectedItemChanged`. */
  function AmPmChanged(m: Meridiem, index: int): (r: Meridiem)
    requires index == 0 || index == 1
    ensures r.selectedAmPm == index && r.meridiemRegion == m.meridiemRegion
  {
    m.(selectedAmPm := index)
  }

  /** The wheels start consistent, and each wheel's change keeps them so;
      the meridiem wheel moves the selected hour by twelve into the chosen
      half. */
  lemma MeridiemStaysConsistent(m: Meridiem, hourIndex: int, newIndex: int, amPm: int, initialHour: int)
    requires Consistent(m, hourIndex)
    requires 0 <= newIndex < 24 && (amPm == 0 || amPm == 1) && 0 <= initialHour < 24
    ensures Consistent(InitialMeridiem(initialHour), initialHour)
    ensures Consistent(HourChanged(m, newIndex), newIndex)
    ensures Consistent(AmPmChanged(m, amPm), hourIndex)
    ensures SelectedHour(AmPmChanged(m, amPm), hourIndex) % 12 == SelectedHour(m, hourIndex) % 12
  {
  }

  // ---------------------------------------------------------------------------
  // Minute column

  /** The date-time picker's minute labels as written: always 24 items,
      `index * minuteInterval`. */
  function MinuteLabelsAsWritten(minuteInterval: int): (minutes: seq<int>)
    ensures |minutes| == 24
  {
    seq(24, index => index * minuteInterval)
  }

  /** With a one-minute interval, minutes from 24 on cannot be picked; with
      five, the column runs to 115, past the last minute of an hour. */
  lemma MinuteColumnWrongLength()
    ensures 30 !in MinuteLabelsAsWritten(1)
    ensures MinuteLabelsAsWritten(5)[12] == 60
  {
    var labels := MinuteLabelsAsWritten(1);
    assert forall i | 0 <= i < 24 :: labels[i] < 24;
  }

  /** The minute labels as intended: one per interval across the hour. */
  function MinuteLabels(minuteInterval: int): (minutes: seq<int>)
    requires ValidInterval(minuteInterval)
    ensures |minutes| == 60 / minuteInterval
  {
    seq(60 / minuteInterval, index => index * minuteInterval)
  }

  /** Multiplying by a positive number keeps strict order. */
  lemma MulStrictlyMonotone(a: int, b: int, c: int)
    requires a < b && c > 0
    ensures a * c < b * c
  {
    assert b * c - a * c == (b - a) * c;
  }

  /** Multiplying by a positive number keeps strict order in both
      directions. */
  lemma MulCancel(a: int, b: int, c: int)
    requires c > 0
    ensures a * c < b * c ==> a < b
  {
    if a > b {
      MulStrictlyMonotone(b, a, c);
    }
  }

  /** The label at each index is a multiple of the interval within the
      hour. */
  lemma MinuteLabelInHour(minuteInterval: int, i: int)
    requires ValidInterval(minuteInterval) && 0 <= i < 60 / minuteInterval
    ensures 0 <= MinuteLabels(minuteInterval)[i] < 60 && MinuteLabels(minuteInterval)[i] % minuteInterval == 0
  {
    var n := 60 / minuteInterval;
    assert n * minuteInterval == 60;
    MulStrictlyMonotone(i, n, minuteInterval);
    if i > 0 {
      MulStrictlyMonotone(0, i, minuteInterval);
    }
    CSharpInt.ModUnique(i * minuteInterval, minuteInterval, i, 0);
  }

  /** Each multiple of the interval within the hour has its label. */
  lemma MinuteInLabels(minuteInterval: int, m: int)
    requires ValidInterval(minuteInterval) && 0 <= m < 60 && m % minuteInterval == 0
    ensures m in MinuteLabels(minuteInterval)
  {
    var n := 60 / minuteInterval;
    assert n * minuteInterval == 60;
    var i := m / minuteInterval;
    assert m == i * minuteInterval;
    MulCancel(-1, i, minuteInterval);
    MulCancel(i, n, minuteInterval);
    assert MinuteLabels(minuteInterval)[i] == m;
  }

  /** Every minute that is a multiple of the interval appears once, and
      nothing else. */
  lemma MinuteLabelsCoverHour(minuteInterval: int)
    requires ValidInterval(minuteInterval)
    ensures forall m :: m in MinuteLabels(minuteInterval) <==> 0 <= m < 60 && m % minuteInterval == 0
    ensures forall i, j | 0 <= i < j < |MinuteLabels(minuteInterval)| :: MinuteLabels(minuteInterval)[i] < MinuteLabels(minuteInterval)[j]
  {
    var labels := MinuteLabels(minuteInterval);
    forall i | 0 <= i < |labels| ensures 0 <= labels[i] < 60 && labels[i] % minuteInterval == 0 {
      MinuteLabelInHour(minuteInterval, i);
    }
    forall m | 0 <= m < 60 && m % minuteInterval == 0 ensures m in labels {
      MinuteInLabels(minuteInterval, m);
    }
    forall i, j | 0 <= i < j < |labels| ensures labels[i] < labels[j] {
      MulStrictlyMonotone(i, j, minuteInterval);
    }
  }

  /** A minute label's validity as written, with dates as instants: it is
      greyed when the minimum date is before it or the maximum after it. */
  predicate MinuteInvalidAsWritten(minimum: Option<int>, maximum: Option<int>, date: int) {
    (minimum.Some? && minimum.value < date) || (maximum.Some? && maximum.value > date)
  }

  /** Between a minimum and a maximum, an in-range minute is greyed out. */
  lemma InRangeMinuteGreyed()
    ensures MinuteInvalidAsWritten(Some(0), Some(100), 50)
  {
  }

  /** A minute label's validity as intended: greyed when before the minimum
      or after the maximum. */
  function MinuteInvalid(minimum: Option<int>, maximum: Option<int>, date: int): (r: bool)
    ensures !r <==> (minimum.None? || minimum.value <= date) && (maximum.None? || date <= maximum.value)
  {
    (minimum.Some? && minimum.value > date) || (maximum.Some? && maximum.value < date)
  }

  /** Only the bounds themselves are treated alike by the written test and
      the intended one; anywhere strictly inside a two-sided range the
      written test is wrong. */
  lemma MinuteValidityInverted(minimum: int, maximum: int, date: int)
    requires minimum < date < maximum
    ensures MinuteInvalidAsWritten(Some(minimum), Some(maximum), date) != MinuteInvalid(Some(minimum), Some(maximum), date)
  {
  }

  // ---------------------------------------------------------------------------
  // Date column

  /** `DateTime.Subtract` of one day. */
  function PreviousDay(d: MaterialDatePicker.Date): (r: MaterialDatePicker.Date)
    requires MaterialDatePicker.ValidDate(d) && d != MaterialDatePicker.Date(1, 1, 1)
    ensures MaterialDatePicker.ValidDate(r) && MaterialDatePicker.Before(r, d)
  {
    if d.day > 1 then d.(day := d.day - 1)
    else if d.month > 1 then MaterialDatePicker.Date(d.year, d.month - 1, MaterialDatePicker.DaysInMonth(d.year, d.month - 1))
    else MaterialDatePicker.Date(d.year - 1, 12, 31)
  }

  /** `_lastDayInMonth`: the first of the next month, less one day. It is
      the month's own length in days. */
  function LastDayInMonth(year: int, month: int): (r: MaterialDatePicker.Date)
    requires 1 <= year <= 9999 && 1 <= month <= 12 && !(year == 9999 && month == 12)
    ensures r == MaterialDatePicker.Date(year, month, MaterialDatePicker.DaysInMonth(year, month))
  {
    var next := MaterialDatePicker.AddMonths(MaterialDatePicker.Date(year, month, 1), 1);
    NextMonthFirst(year, month);
    PreviousDay(next)
  }

  /** A month later than the first of a month is the first of the next month. */
  lemma NextMonthFirst(year: int, month: int)
    requires 1 <= year <= 9999 && 1 <= month <= 12 && !(year == 9999 && month == 12)
    ensures MaterialDatePicker.AddMonths(MaterialDatePicker.Date(year, month, 1), 1) ==
      if month < 12 then MaterialDatePicker.Date(year, month + 1, 1) else MaterialDatePicker.Date(year + 1, 1, 1)
  {
    if month < 12 {
      CSharpInt.ModUnique(year * 12 + month, 12, year, month);
    } else {
      CSharpInt.ModUnique(year * 12 + month, 12, year + 1, 0);
    }
  }

  // ---------------------------------------------------------------------------
  // Timer picker

  datatype TimerMode = Hm | Ms | Hms

  /** The timer's wheels. */
  datatype Timer = Timer(hour: int, minute: int, second: int)

  /** The duration the wheels show, in seconds. */
  function Seconds(t: Timer): int {
    t.hour * 3600 + t.minute * 60 + t.second
  }

  /** The timer picker's constructor conditions. */
  predicate TimerArgumentsOk(duration: int, minuteInterval: int, secondInterval: int) {
    0 <= duration < 24 * 3600 && ValidInterval(minuteInterval) && ValidInterval(secondInterval)
  }

  /** `initState`: minutes and seconds within their unit, hours whole; the
      hour wheel is unset in minute-second mode and the second wheel in
      hour-minute mode. */
  function TimerInit(mode: TimerMode, duration: int): (t: Timer)
    requires 0 <= duration < 24 * 3600
    ensures 0 <= t.minute < 60 && 0 <= t.second < 60 && 0 <= t.hour < 24
    ensures mode == Hms ==> Seconds(t) == duration
    ensures mode == Hm ==> Seconds(t) == duration - duration % 60
    ensures mode == Ms ==> Seconds(t) == duration % 3600
  {
    var minute := (duration / 60) % 60;
    var hour := if mode != Ms then duration / 3600 else 0;
    var second := if mode != Hm then duration % 60 else 0;
    Timer(hour, minute, second)
  }

  /** A wheel change: the new wheels and the duration reported. */
  datatype TimerChange = TimerChange(timer: Timer, reported: int)

  /** The hour wheel's callback as written: a non-zero second is reported
      as the hour. */
  function TimerHourAsWritten(t: Timer, index: int): (r: TimerChange)
    ensures r.timer == t.(hour := index)
    ensures t.second == 0 ==> r.reported == Seconds(r.timer)
  {
    var timer := t.(hour := index);
    TimerChange(timer, timer.hour * 3600 + timer.minute * 60 + (if timer.second == 0 then 0 else timer.hour))
  }

  /** At 0:00:30, turning the hour wheel to 2 reports 2:00:02. */
  lemma HourCallbackReportsHourAsSeconds()
    ensures TimerHourAsWritten(Timer(0, 0, 30), 2).reported == 2 * 3600 + 2
    ensures Seconds(TimerHourAsWritten(Timer(0, 0, 30), 2).timer) == 2 * 3600 + 30
  {
  }

  /** The hour wheel's callback as intended. */
  function TimerHour(t: Timer, index: int): (r: TimerChange)
    ensures r.timer == t.(hour := index)
    ensures r.reported == Seconds(r.timer)
  {
    var timer := t.(hour := index);
    TimerChange(timer, Seconds(timer))
  }

  /** The minute wheel's callback. */
  function TimerMinute(t: Timer, index: int, minuteInterval: int): (r: TimerChange)
    ensures r.timer == t.(minute := index * minuteInterval)
    ensures r.reported == Seconds(r.timer)
  {
    var timer := t.(minute := index * minuteInterval);
    TimerChange(timer, (if timer.hour == 0 then 0 else timer.hour) * 3600 + timer.minute * 60 + (if timer.second == 0 then 0 else timer.second))
  }

  /** The second wheel's callback. */
  function TimerSecond(t: Timer, index: int, secondInterval: int): (r: TimerChange)
    ensures r.timer == t.(second := index * secondInterval)
    ensures r.reported == Seconds(r.timer)
  {
    var timer := t.(second := index * secondInterval);
    TimerChange(timer, (if timer.hour == 0 then 0 else timer.hour) * 3600 + timer.minute * 60 + timer.second)
  }

  /** Wherever the written hour callback is right, the intended one agrees;
      it is right exactly when the second is zero or equals the hour. */
  lemma HourCallbackAgrees(t: Timer, index: int)
    ensures TimerHourAsWritten(t, index).reported == TimerHour(t, index).reported <==> t.second == 0 || t.second == index
  {
  }
}
