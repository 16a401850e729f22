// DateTime: a count of 100-nanosecond ticks since 0001-01-01 00:00:00 on
// the proleptic Gregorian calendar, up to the end of 9999-12-31, and a kind
// (DateTime.cs).
module DateTimes {
  import opened Wrappers
  import opened TimeSpans
  import opened Calendar

  /** The ticks of 9999-12-31 23:59:59.9999999. */
  const MaxTicks: int := 3_155_378_975_999_999_999

  /** The milliseconds from 0001-01-01 to 10000-01-01, the bound on a scaled addition. */
  const MaxMillis: int := 315_537_897_600_000

  /** DateTimeKind: Unspecified is 0, Utc 1 and Local 2. */
  datatype Kind = Unspecified | Utc | Local

  datatype DateTime = DateTime(ticks: int, kind: Kind)

  predicate Valid(d: DateTime) { 0 <= d.ticks <= MaxTicks }

  const MinValue := DateTime(0, Unspecified)
  const MaxValue := DateTime(MaxTicks, Unspecified)

  function KindValue(k: Kind): int {
    match k
    case Unspecified => 0
    case Utc => 1
    case Local => 2
  }

  /** A DateTimeKind argument: any other integer raises ArgumentException. */
  function KindOf(kind: int): (r: Result<Kind>)
    ensures r.Ok? <==> 0 <= kind <= 2
    ensures r.Ok? ==> KindValue(r.value) == kind
    ensures r.Err? ==> r.error == Argument
  {
    if kind == 0 then Ok(Unspecified)
    else if kind == 1 then Ok(Utc)
    else if kind == 2 then Ok(Local)
    else Err(Argument)
  }

  /** new DateTime(ticks, kind): the ticks are checked before the kind. */
  function FromTicks(ticks: int, kind: int): (r: Result<DateTime>)
    ensures r.Ok? <==> 0 <= ticks <= MaxTicks && 0 <= kind <= 2
    ensures r.Ok? ==> Valid(r.value) && r.value.ticks == ticks && KindValue(r.value.kind) == kind
    ensures r.Err? ==> r.error == if 0 <= ticks <= MaxTicks then Argument else ArgumentOutOfRange
  {
    if ticks < 0 || ticks > MaxTicks then Err(ArgumentOutOfRange)
    else
      var k :- KindOf(kind);
      Ok(DateTime(ticks, k))
  }

  /** DateTime.IsLeapYear: only years 1 to 9999 are accepted. */
  function IsLeapYear(year: int): (r: Result<bool>)
    ensures r.Ok? <==> 1 <= year <= 9999
    ensures r.Ok? ==> (r.value <==> YearLength(year) == 366)
    ensures r.Err? ==> r.error == ArgumentOutOfRange
  {
    if year < 1 || year > 9999 then Err(ArgumentOutOfRange) else Ok(LeapYear(year))
  }

  /** DateTime.DaysInMonth: the month is checked before the year. */
  function DaysInMonth(year: int, month: int): (r: Result<int>)
    ensures r.Ok? <==> 1 <= year <= 9999 && 1 <= month <= 12
    ensures r.Ok? ==> 28 <= r.value <= 31 && (r.value == 29 <==> month == 2 && LeapYear(year))
    ensures r.Ok? ==> forall day :: 1 <= day <= r.value <==> ValidDate(year, month, day)
    ensures r.Err? ==> r.error == ArgumentOutOfRange
  {
    if month < 1 || month > 12 then Err(ArgumentOutOfRange)
    else if year < 1 || year > 9999 then Err(ArgumentOutOfRange)
    else Ok(MonthLength(year, month))
  }

  /** The ticks at midnight of a date: ArgumentOutOfRangeException for a year, month or day out of range. */
  function DateToTicks(year: int, month: int, day: int): (r: Result<int>)
    ensures r.Ok? <==> ValidDate(year, month, day)
    ensures r.Ok? ==> r.value == DayNumber(year, month, day) * TicksPerDay
    ensures r.Err? ==> r.error == ArgumentOutOfRange
  {
    if 1 <= year <= 9999 && 1 <= month <= 12 && 1 <= day <= MonthLength(year, month) then
      Ok(DayNumber(year, month, day) * TicksPerDay)
    else Err(ArgumentOutOfRange)
  }

  /** Hours 0 to 23, minutes and seconds 0 to 59. */
  predicate ValidTime(hour: int, minute: int, second: int) {
    0 <= hour < 24 && 0 <= minute < 60 && 0 <= second < 60
  }

  /** The ticks of a time of day: ArgumentOutOfRangeException for an hour, minute or second out of range. */
  function TimeToTicks(hour: int, minute: int, second: int): (r: Result<int>)
    ensures r.Ok? <==> ValidTime(hour, minute, second)
    ensures r.Ok? ==> r.value == ComponentTicks(0, hour, minute, second, 0)
    ensures r.Err? ==> r.error == ArgumentOutOfRange
  {
    if ValidTime(hour, minute, second) then Ok((hour * 3600 + minute * 60 + second) * TicksPerSecond)
    else Err(ArgumentOutOfRange)
  }

  /**
   * new DateTime(year, month, day, hour, minute, second, millisecond, kind):
   * the millisecond first, then the kind (ArgumentException), then the date
   * and the time. The shorter constructors are this one with millisecond 0
   * and kind Unspecified.
   */
  function Create(year: int, month: int, day: int, hour: int, minute: int, second: int, millisecond: int, kind: int): (r: Result<DateTime>)
    ensures r.Ok? <==> ValidDate(year, month, day) && ValidTime(hour, minute, second) && 0 <= millisecond < 1000 && 0 <= kind <= 2
    ensures r.Ok? ==> Valid(r.value) && KindValue(r.value.kind) == kind
    ensures r.Ok? ==> r.value.ticks == DayNumber(year, month, day) * TicksPerDay + ComponentTicks(0, hour, minute, second, millisecond)
    ensures r.Err? ==> r.error == if 0 <= millisecond < 1000 && !(0 <= kind <= 2) then Argument else ArgumentOutOfRange
  {
    if millisecond < 0 || millisecond >= 1000 then Err(ArgumentOutOfRange)
    else
      var k :- KindOf(kind);
      var date :- DateToTicks(year, month, day);
      var time :- TimeToTicks(hour, minute, second);
      var ticks := date + time + millisecond * TicksPerMillisecond;
      assert ticks <= MaxTicks by {
        DateOfDayNumber(year, month, day);
      }
      if ticks > MaxTicks then Err(Argument) else Ok(DateTime(ticks, k))
  }

  // ---- Components ----

  /** The day number of the date. */
  function DayOf(d: DateTime): int requires Valid(d) { d.ticks / TicksPerDay }

  /** The civil date of the day number: a year 1..9999, a month 1..12 and a day that month has. */
  function Year(d: DateTime): (y: int)
    requires Valid(d)
    ensures 1 <= y <= 9999
  {
    DayNumberOfDate(DayOf(d));
    DateOfDay(DayOf(d)).year
  }

  function Month(d: DateTime): (m: int)
    requires Valid(d)
    ensures 1 <= m <= 12
  {
    DayNumberOfDate(DayOf(d));
    DateOfDay(DayOf(d)).month
  }

  function Day(d: DateTime): (day: int)
    requires Valid(d)
    ensures 1 <= day <= MonthLength(Year(d), Month(d))
  {
    DayNumberOfDate(DayOf(d));
    DateOfDay(DayOf(d)).day
  }

  function Hour(d: DateTime): (h: int) requires Valid(d) ensures 0 <= h < 24 { d.ticks / TicksPerHour % 24 }
  function Minute(d: DateTime): (m: int) requires Valid(d) ensures 0 <= m < 60 { d.ticks / TicksPerMinute % 60 }
  function Second(d: DateTime): (s: int) requires Valid(d) ensures 0 <= s < 60 { d.ticks / TicksPerSecond % 60 }
  function Millisecond(d: DateTime): (ms: int) requires Valid(d) ensures 0 <= ms < 1000 { d.ticks / TicksPerMillisecond % 1000 }

  /** DateTime.DayOfWeek, 0 for Sunday. */
  function WeekDay(d: DateTime): (w: int) requires Valid(d) ensures 0 <= w < 7 { DayOfWeek(DayOf(d)) }

  /** DateTime.TimeOfDay: the ticks since midnight. */
  function TimeOfDay(d: DateTime): (t: TimeSpan)
    requires Valid(d)
    ensures 0 <= t.ticks < TicksPerDay && (d.ticks - t.ticks) % TicksPerDay == 0
  {
    TimeSpan(d.ticks % TicksPerDay)
  }

  /** DateTime.Date: midnight of the same day, with the same kind. */
  function DateOnly(d: DateTime): (m: DateTime)
    requires Valid(d)
    ensures Valid(m) && m.kind == d.kind && m.ticks % TicksPerDay == 0
    ensures m.ticks <= d.ticks < m.ticks + TicksPerDay
  {
    DateTime(d.ticks - d.ticks % TicksPerDay, d.kind)
  }

  // ---- Arithmetic ----

  /** DateTime.AddTicks: the result must stay within MinValue and MaxValue. */
  function AddTicks(d: DateTime, value: int): (r: Result<DateTime>)
    ensures r.Ok? <==> 0 <= d.ticks + value <= MaxTicks
    ensures r.Ok? ==> Valid(r.value) && r.value == DateTime(d.ticks + value, d.kind)
    ensures r.Err? ==> r.error == ArgumentOutOfRange
  {
    var ticks := d.ticks + value;
    if ticks < 0 || ticks > MaxTicks then Err(ArgumentOutOfRange) else Ok(DateTime(ticks, d.kind))
  }

  /** DateTime.Subtract(DateTime) and -: the kinds are not compared. */
  function Difference(a: DateTime, b: DateTime): (r: TimeSpan)
    requires Valid(a) && Valid(b)
    ensures TimeSpans.Valid(r) && r.ticks == a.ticks - b.ticks
  {
    TimeSpan(a.ticks - b.ticks)
  }

  /** DateTime.Add and +: the result, less the original, is the span added. */
  function Add(d: DateTime, t: TimeSpan): (r: Result<DateTime>)
    requires Valid(d) && TimeSpans.Valid(t)
    ensures r.Ok? <==> 0 <= d.ticks + t.ticks <= MaxTicks
    ensures r.Ok? ==> Valid(r.value) && r.value.kind == d.kind && Difference(r.value, d) == t
    ensures r.Err? ==> r.error == ArgumentOutOfRange
  {
    AddTicks(d, t.ticks)
  }

  /** DateTime.Subtract(TimeSpan) and -. */
  function SubtractSpan(d: DateTime, t: TimeSpan): (r: Result<DateTime>)
    ensures r.Ok? <==> 0 <= d.ticks - t.ticks <= MaxTicks
    ensures r.Ok? ==> Valid(r.value) && r.value == DateTime(d.ticks - t.ticks, d.kind)
    ensures r.Err? ==> r.error == ArgumentOutOfRange
  {
    var ticks := d.ticks - t.ticks;
    if ticks < 0 || ticks > MaxTicks then Err(ArgumentOutOfRange) else Ok(DateTime(ticks, d.kind))
  }

  /**
   * The DateTime.Add behind AddDays through AddMilliseconds, for a whole
   * value: the milliseconds must lie strictly between -MaxMillis and MaxMillis.
   */
  function AddScaled(d: DateTime, value: int, scale: int): (r: Result<DateTime>)
    requires scale >= 1
    ensures r.Ok? <==> -MaxMillis < value * scale < MaxMillis && 0 <= d.ticks + value * scale * TicksPerMillisecond <= MaxTicks
    ensures r.Ok? ==> Valid(r.value) && r.value == DateTime(d.ticks + value * scale * TicksPerMillisecond, d.kind)
    ensures r.Err? ==> r.error == ArgumentOutOfRange
  {
    var millis := value * scale;
    if millis <= -MaxMillis || millis >= MaxMillis then Err(ArgumentOutOfRange)
    else AddTicks(d, millis * TicksPerMillisecond)
  }

  /**
   * AddDays through AddMilliseconds: value units later, in ticks, when the
   * milliseconds stay inside the MaxMillis bound and the result inside the
   * DateTime range; ArgumentOutOfRangeException otherwise.
   */
  function AddDays(d: DateTime, value: int): (r: Result<DateTime>)
    ensures r.Ok? <==> -MaxMillis < value * 86_400_000 < MaxMillis && 0 <= d.ticks + value * TicksPerDay <= MaxTicks
    ensures r.Ok? ==> Valid(r.value) && r.value == DateTime(d.ticks + value * TicksPerDay, d.kind)
    ensures r.Err? ==> r.error == ArgumentOutOfRange
  {
    AddScaled(d, value, 86_400_000)
  }

  function AddHours(d: DateTime, value: int): (r: Result<DateTime>)
    ensures r.Ok? <==> -MaxMillis < value * 3_600_000 < MaxMillis && 0 <= d.ticks + value * TicksPerHour <= MaxTicks
    ensures r.Ok? ==> Valid(r.value) && r.value == DateTime(d.ticks + value * TicksPerHour, d.kind)
    ensures r.Err? ==> r.error == ArgumentOutOfRange
  {
    AddScaled(d, value, 3_600_000)
  }

  function AddMinutes(d: DateTime, value: int): (r: Result<DateTime>)
    ensures r.Ok? <==> -MaxMillis < value * 60_000 < MaxMillis && 0 <= d.ticks + value * TicksPerMinute <= MaxTicks
    ensures r.Ok? ==> Valid(r.value) && r.value == DateTime(d.ticks + value * TicksPerMinute, d.kind)
    ensures r.Err? ==> r.error == ArgumentOutOfRange
  {
    AddScaled(d, value, 60_000)
  }

  function AddSeconds(d: DateTime, value: int): (r: Result<DateTime>)
    ensures r.Ok? <==> -MaxMillis < value * 1000 < MaxMillis && 0 <= d.ticks + value * TicksPerSecond <= MaxTicks
    ensures r.Ok? ==> Valid(r.value) && r.value == DateTime(d.ticks + value * TicksPerSecond, d.kind)
    ensures r.Err? ==> r.error == ArgumentOutOfRange
  {
    AddScaled(d, value, 1000)
  }

  function AddMilliseconds(d: DateTime, value: int): (r: Result<DateTime>)
    ensures r.Ok? <==> -MaxMillis < value < MaxMillis && 0 <= d.ticks + value * TicksPerMillisecond <= MaxTicks
    ensures r.Ok? ==> Valid(r.value) && r.value == DateTime(d.ticks + value * TicksPerMillisecond, d.kind)
    ensures r.Err? ==> r.error == ArgumentOutOfRange
  {
    AddScaled(d, value, 1)
  }

  /** A month index moved by some months, written back as a year and a month 1 to 12 with C#'s truncating division. */
  datatype YearMonth = YearMonth(year: int, month: int)

  function ShiftMonth(year: int, month: int, months: int): (r: YearMonth)
    requires 1 <= month <= 12
    ensures 1 <= r.month <= 12 && r.year * 12 + r.month == year * 12 + month + months
  {
    var i := month - 1 + months;
    if i >= 0 then
      YearMonth(year + i / 12, i % 12 + 1)
    else
      var u := -(i + 1);
      assert TruncRem(i + 1, 12) == -(u % 12) && TruncDiv(i - 11, 12) == -(u / 12) - 1 by {
        TruncOfNegated(u, 12);
        TruncOfNatural(u, 12);
        TruncOfNegated(u + 12, 12);
        TruncOfNatural(u + 12, 12);
        DivModUnique(u + 12, 12, u / 12 + 1, u % 12);
      }
      YearMonth(year + TruncDiv(i - 11, 12), 12 + TruncRem(i + 1, 12))
  }

  /** A day of the month, clamped to the length of another month. */
  function ClampDay(year: int, month: int, day: int): (r: int)
    requires 1 <= year <= 9999 && 1 <= month <= 12 && 1 <= day
    ensures ValidDate(year, month, r) && r <= day && (r < day ==> r == MonthLength(year, month))
  {
    var length := MonthLength(year, month);
    assert length >= 28;
    if day > length then length else day
  }

  /** Midnight of a valid date plus a time of day below one day stays within MaxTicks. */
  lemma DayTicksBound(year: int, month: int, day: int, tod: int)
    requires ValidDate(year, month, day) && 0 <= tod < TicksPerDay
    ensures 0 <= DayNumber(year, month, day) * TicksPerDay + tod <= MaxTicks
  {
    DateOfDayNumber(year, month, day);
  }

  /** The same day of the month and time of day in another month, the day clamped to the month's length. */
  function MoveToMonth(d: DateTime, year: int, month: int): (r: DateTime)
    requires Valid(d) && 1 <= year <= 9999 && 1 <= month <= 12
    ensures Valid(r) && r.kind == d.kind
  {
    DateValid(d);
    var day := ClampDay(year, month, Day(d));
    var tod := d.ticks % TicksPerDay;
    DayTicksBound(year, month, day, tod);
    DateTime(DayNumber(year, month, day) * TicksPerDay + tod, d.kind)
  }

  /**
   * DateTime.AddMonths: at most 120000 months either way; the day is
   * clamped to the length of the new month and the time of day is kept.
   */
  function AddMonths(d: DateTime, months: int): (r: Result<DateTime>)
    requires Valid(d)
    ensures Month(d) in {1, 2, 3, 4, 5, 6, 7, 8, 9, 10, 11, 12}
    ensures r.Ok? <==> -120_000 <= months <= 120_000 && 1 <= ShiftMonth(Year(d), Month(d), months).year <= 9999
    ensures r.Ok? ==> Valid(r.value) && r.value.kind == d.kind
    ensures r.Err? ==> r.error == ArgumentOutOfRange
  {
    DateValid(d);
    if months < -120_000 || months > 120_000 then Err(ArgumentOutOfRange)
    else
      var ym := ShiftMonth(Year(d), Month(d), months);
      if ym.year < 1 || ym.year > 9999 then Err(ArgumentOutOfRange)
      else Ok(MoveToMonth(d, ym.year, ym.month))
  }

  /** DateTime.AddYears: at most 10000 years either way, then whole-year AddMonths. */
  function AddYears(d: DateTime, value: int): (r: Result<DateTime>)
    requires Valid(d)
    ensures r.Err? ==> r.error == ArgumentOutOfRange
  {
    if value < -10_000 || value > 10_000 then Err(ArgumentOutOfRange) else AddMonths(d, value * 12)
  }

  // ---- Reading components back ----

  /** The date components of a valid DateTime form a valid date. */
  lemma DateValid(d: DateTime)
    requires Valid(d)
    ensures 0 <= DayOf(d) < DaysTo10000
    ensures ValidDate(Year(d), Month(d), Day(d)) && DayNumber(Year(d), Month(d), Day(d)) == DayOf(d)
  {
    DayNumberOfDate(DayOf(d));
  }

  /** Ticks written as a day number, a time of day and the ticks below a millisecond read back those parts. */
  lemma ReadParts(n: int, hour: int, minute: int, second: int, millisecond: int, sub: int)
    requires 0 <= n < DaysTo10000 && ValidTime(hour, minute, second) && 0 <= millisecond < 1000 && 0 <= sub < TicksPerMillisecond
    ensures var ticks := n * TicksPerDay + ComponentTicks(0, hour, minute, second, millisecond) + sub;
      0 <= ticks <= MaxTicks && ticks / TicksPerDay == n
      && ticks % TicksPerDay == ComponentTicks(0, hour, minute, second, millisecond) + sub
      && ticks / TicksPerHour % 24 == hour && ticks / TicksPerMinute % 60 == minute
      && ticks / TicksPerSecond % 60 == second && ticks / TicksPerMillisecond % 1000 == millisecond
  {
    var tod := ComponentTicks(0, hour, minute, second, millisecond) + sub;
    var ticks := n * TicksPerDay + tod;
    DivModUnique(ticks, TicksPerDay, n, tod);
    var hs := n * 24 + hour;
    DivModUnique(ticks, TicksPerHour, hs, ticks - hs * TicksPerHour);
    DivModUnique(hs, 24, n, hour);
    var mins := hs * 60 + minute;
    DivModUnique(ticks, TicksPerMinute, mins, ticks - mins * TicksPerMinute);
    DivModUnique(mins, 60, hs, minute);
    var secs := mins * 60 + second;
    DivModUnique(ticks, TicksPerSecond, secs, ticks - secs * TicksPerSecond);
    DivModUnique(secs, 60, mins, second);
    var millis := secs * 1000 + millisecond;
    DivModUnique(ticks, TicksPerMillisecond, millis, sub);
    DivModUnique(millis, 1000, secs, millisecond);
  }

  /** Ticks written as a valid date, a time of day and the ticks below a millisecond read back those components. */
  lemma ReadComponents(d: DateTime, year: int, month: int, day: int, hour: int, minute: int, second: int, millisecond: int, sub: int)
    requires ValidDate(year, month, day) && ValidTime(hour, minute, second) && 0 <= millisecond < 1000 && 0 <= sub < TicksPerMillisecond
    requires d.ticks == DayNumber(year, month, day) * TicksPerDay + ComponentTicks(0, hour, minute, second, millisecond) + sub
    ensures Valid(d) && DayOf(d) == DayNumber(year, month, day)
    ensures Year(d) == year && Month(d) == month && Day(d) == day
    ensures Hour(d) == hour && Minute(d) == minute && Second(d) == second && Millisecond(d) == millisecond
  {
    DateOfDayNumber(year, month, day);
    ReadParts(DayNumber(year, month, day), hour, minute, second, millisecond, sub);
  }

  /** A constructed DateTime reads back every component it was given, and its kind. */
  lemma CreateReadBack(year: int, month: int, day: int, hour: int, minute: int, second: int, millisecond: int, kind: int)
    requires Create(year, month, day, hour, minute, second, millisecond, kind).Ok?
    ensures var d := Create(year, month, day, hour, minute, second, millisecond, kind).value;
      && Year(d) == year && Month(d) == month && Day(d) == day
      && Hour(d) == hour && Minute(d) == minute && Second(d) == second && Millisecond(d) == millisecond
      && KindValue(d.kind) == kind
  {
    CreateReadsClock(year, month, day, hour, minute, second, millisecond, kind);
    DateOfDayNumber(year, month, day);
  }

  /** A constructed DateTime lies on the day numbered by its date and reads its time of day and kind. */
  lemma CreateReadsClock(year: int, month: int, day: int, hour: int, minute: int, second: int, millisecond: int, kind: int)
    requires Create(year, month, day, hour, minute, second, millisecond, kind).Ok?
    ensures ValidDate(year, month, day)
    ensures var d := Create(year, month, day, hour, minute, second, millisecond, kind).value;
      && DayOf(d) == DayNumber(year, month, day)
      && Hour(d) == hour && Minute(d) == minute && Second(d) == second && Millisecond(d) == millisecond
      && KindValue(d.kind) == kind
  {
    var d := Create(year, month, day, hour, minute, second, millisecond, kind).value;
    var n := DayNumber(year, month, day);
    assert d.ticks == n * TicksPerDay + ComponentTicks(0, hour, minute, second, millisecond) + 0;
    ReadParts(n, hour, minute, second, millisecond, 0);
  }

  /** On non-negative ticks the span's truncating components are the date's. */
  lemma NaturalComponents(x: int)
    requires x >= 0
    ensures var t := TimeSpan(x);
      Days(t) == x / TicksPerDay && Hours(t) == x / TicksPerHour % 24 && Minutes(t) == x / TicksPerMinute % 60
      && Seconds(t) == x / TicksPerSecond % 60 && Milliseconds(t) == x / TicksPerMillisecond % 1000
      && TruncRem(x, TicksPerMillisecond) == x % TicksPerMillisecond
  {
    TruncOfNatural(x, TicksPerDay);
    TruncOfNatural(x, TicksPerHour);
    TruncOfNatural(x / TicksPerHour, 24);
    TruncOfNatural(x, TicksPerMinute);
    TruncOfNatural(x / TicksPerMinute, 60);
    TruncOfNatural(x, TicksPerSecond);
    TruncOfNatural(x / TicksPerSecond, 60);
    TruncOfNatural(x, TicksPerMillisecond);
    TruncOfNatural(x / TicksPerMillisecond, 1000);
  }

  /** Every valid DateTime is its components plus the ticks below a millisecond. */
  lemma ComponentsRebuild(d: DateTime)
    requires Valid(d)
    ensures ValidDate(Year(d), Month(d), Day(d)) && ValidTime(Hour(d), Minute(d), Second(d)) && 0 <= Millisecond(d) < 1000
    ensures DayNumber(Year(d), Month(d), Day(d)) * TicksPerDay + ComponentTicks(0, Hour(d), Minute(d), Second(d), Millisecond(d))
      + d.ticks % TicksPerMillisecond == d.ticks
  {
    DateValid(d);
    RebuildNatural(d.ticks);
    NaturalComponents(d.ticks);
  }

  /** The components of a DateTime, fed back to the constructor with its kind, give it truncated to milliseconds. */
  lemma ConstructorOfComponents(d: DateTime)
    requires Valid(d)
    ensures Create(Year(d), Month(d), Day(d), Hour(d), Minute(d), Second(d), Millisecond(d), KindValue(d.kind))
      == Ok(DateTime(d.ticks - d.ticks % TicksPerMillisecond, d.kind))
  {
    ComponentsRebuild(d);
    var r := Create(Year(d), Month(d), Day(d), Hour(d), Minute(d), Second(d), Millisecond(d), KindValue(d.kind));
    assert r.Ok?;
    assert r.value.ticks == d.ticks - d.ticks % TicksPerMillisecond;
    assert r.value.kind == d.kind by {
      assert KindValue(r.value.kind) == KindValue(d.kind);
    }
  }

  // ---- Arithmetic read back ----

  /** Whole days added to a time of day leave its hour, minute, second and millisecond as they were. */
  lemma DaysAndTime(n: int, tod: int)
    requires n >= 0 && 0 <= tod < TicksPerDay
    ensures var x := n * TicksPerDay + tod;
      x / TicksPerDay == n && x % TicksPerDay == tod
      && x / TicksPerHour % 24 == tod / TicksPerHour % 24 && x / TicksPerMinute % 60 == tod / TicksPerMinute % 60
      && x / TicksPerSecond % 60 == tod / TicksPerSecond % 60 && x / TicksPerMillisecond % 1000 == tod / TicksPerMillisecond % 1000
  {
    var x := n * TicksPerDay + tod;
    DivModUnique(x, TicksPerDay, n, tod);
    assert x == tod + (n * 24) * TicksPerHour;
    ShiftUnits(tod, TicksPerHour, n * 24);
    ShiftRemainder(tod / TicksPerHour, 1, n, 24);
    assert x == tod + (n * 1440) * TicksPerMinute;
    ShiftUnits(tod, TicksPerMinute, n * 1440);
    ShiftRemainder(tod / TicksPerMinute, 24, n, 60);
    assert x == tod + (n * 86400) * TicksPerSecond;
    ShiftUnits(tod, TicksPerSecond, n * 86400);
    ShiftRemainder(tod / TicksPerSecond, 1440, n, 60);
    assert x == tod + (n * 86_400_000) * TicksPerMillisecond;
    ShiftUnits(tod, TicksPerMillisecond, n * 86_400_000);
    ShiftRemainder(tod / TicksPerMillisecond, 86400, n, 1000);
  }

  /** Some whole days and a time of day below one day read back as that day number and the same time fields. */
  lemma SameTimeOfDay(d: DateTime, n: int)
    requires Valid(d) && 0 <= n < DaysTo10000
    ensures var e := DateTime(n * TicksPerDay + d.ticks % TicksPerDay, d.kind);
      Valid(e) && DayOf(e) == n && e.ticks % TicksPerDay == d.ticks % TicksPerDay
      && Hour(e) == Hour(d) && Minute(e) == Minute(d) && Second(e) == Second(d) && Millisecond(e) == Millisecond(d)
  {
    var tod := d.ticks % TicksPerDay;
    assert n * TicksPerDay + tod <= MaxTicks;
    DaysAndTime(n, tod);
    assert d.ticks == DayOf(d) * TicksPerDay + tod;
    DaysAndTime(DayOf(d), tod);
  }

  /**
   * AddMonths moves the month index by the months added, clamps the day
   * to the new month's length and keeps the time of day and the kind.
   */
  lemma AddMonthsFields(d: DateTime, months: int)
    requires Valid(d) && AddMonths(d, months).Ok?
    ensures var r := AddMonths(d, months).value;
      && Year(r) * 12 + Month(r) == Year(d) * 12 + Month(d) + months && 1 <= Month(r) <= 12
      && Day(r) <= Day(d) && (Day(r) < Day(d) ==> Day(r) == MonthLength(Year(r), Month(r)))
      && TimeOfDay(r) == TimeOfDay(d) && r.kind == d.kind
  {
    DateValid(d);
    var ym := ShiftMonth(Year(d), Month(d), months);
    var day := ClampDay(ym.year, ym.month, Day(d));
    var n := DayNumber(ym.year, ym.month, day);
    DateOfDayNumber(ym.year, ym.month, day);
    SameTimeOfDay(d, n);
    assert AddMonths(d, months).value == DateTime(n * TicksPerDay + d.ticks % TicksPerDay, d.kind);
  }

  /** AddYears is AddMonths of twelve times the years: the year moves and the month is kept. */
  lemma AddYearsFields(d: DateTime, value: int)
    requires Valid(d)
    ensures AddYears(d, value).Ok? <==> -10_000 <= value <= 10_000 && 1 <= Year(d) + value <= 9999
    ensures AddYears(d, value).Ok? ==> var r := AddYears(d, value).value;
      && Year(r) == Year(d) + value && Month(r) == Month(d)
      && Day(r) <= Day(d) && (Day(r) < Day(d) ==> Day(r) == MonthLength(Year(r), Month(r)))
      && TimeOfDay(r) == TimeOfDay(d) && r.kind == d.kind
  {
    DateValid(d);
    if -10_000 <= value <= 10_000 {
      var ym := ShiftMonth(Year(d), Month(d), value * 12);
      assert ym.year == Year(d) + value && ym.month == Month(d);
      if AddYears(d, value).Ok? {
        AddMonthsFields(d, value * 12);
      }
    }
  }

  /** Shifting a non-negative count by whole units moves its quotient by the units and keeps its remainder. */
  lemma ShiftUnits(x: int, unit: int, value: int)
    requires x >= 0 && unit > 0 && x + value * unit >= 0
    ensures (x + value * unit) / unit == x / unit + value && (x + value * unit) % unit == x % unit
  {
    DivModUnique(x + value * unit, unit, x / unit + value, x % unit);
  }

  /** Shifting a quotient by whole multiples of a modulus keeps its remainder. */
  lemma ShiftRemainder(q: int, k: int, value: int, modulus: int)
    requires q >= 0 && modulus > 0 && q + value * k * modulus >= 0
    ensures (q + value * k * modulus) % modulus == q % modulus
  {
    ShiftUnits(q, modulus, value * k);
  }

  /** AddDays moves the day number by the days added and the weekday with it, and keeps the time of day. */
  lemma AddDaysFields(d: DateTime, value: int)
    requires Valid(d) && AddDays(d, value).Ok?
    ensures var r := AddDays(d, value).value;
      && DayOf(r) == DayOf(d) + value && TimeOfDay(r) == TimeOfDay(d)
      && WeekDay(r) == (WeekDay(d) + value) % 7
  {
    var r := AddDays(d, value).value;
    assert r.ticks == d.ticks + value * TicksPerDay;
    ShiftUnits(d.ticks, TicksPerDay, value);
    ShiftUnits(DayOf(d) + 1, 7, 0);
    assert (DayOf(d) + value + 1) % 7 == ((DayOf(d) + 1) % 7 + value) % 7 by {
      DivModUnique(DayOf(d) + value + 1, 7, (DayOf(d) + 1) / 7 + ((DayOf(d) + 1) % 7 + value) / 7, ((DayOf(d) + 1) % 7 + value) % 7);
    }
  }

  /** AddHours moves the count of whole hours by the hours added and keeps the minute, second and millisecond. */
  lemma AddHoursFields(d: DateTime, value: int)
    requires Valid(d) && AddHours(d, value).Ok?
    ensures var r := AddHours(d, value).value;
      && r.ticks / TicksPerHour == d.ticks / TicksPerHour + value
      && Minute(r) == Minute(d) && Second(r) == Second(d) && Millisecond(r) == Millisecond(d)
  {
    var r := AddHours(d, value).value;
    assert r.ticks == d.ticks + value * TicksPerHour;
    ShiftUnits(d.ticks, TicksPerHour, value);
    assert r.ticks == d.ticks + (value * 60) * TicksPerMinute;
    ShiftUnits(d.ticks, TicksPerMinute, value * 60);
    ShiftRemainder(d.ticks / TicksPerMinute, 1, value, 60);
    assert r.ticks == d.ticks + (value * 3600) * TicksPerSecond;
    ShiftUnits(d.ticks, TicksPerSecond, value * 3600);
    ShiftRemainder(d.ticks / TicksPerSecond, 60, value, 60);
    assert r.ticks == d.ticks + (value * 3_600_000) * TicksPerMillisecond;
    ShiftUnits(d.ticks, TicksPerMillisecond, value * 3_600_000);
    ShiftRemainder(d.ticks / TicksPerMillisecond, 3600, value, 1000);
  }

  /** AddMinutes moves the count of whole minutes by the minutes added and keeps the second and millisecond. */
  lemma AddMinutesFields(d: DateTime, value: int)
    requires Valid(d) && AddMinutes(d, value).Ok?
    ensures var r := AddMinutes(d, value).value;
      && r.ticks / TicksPerMinute == d.ticks / TicksPerMinute + value
      && Second(r) == Second(d) && Millisecond(r) == Millisecond(d)
  {
    var r := AddMinutes(d, value).value;
    assert r.ticks == d.ticks + value * TicksPerMinute;
    ShiftUnits(d.ticks, TicksPerMinute, value);
    assert r.ticks == d.ticks + (value * 60) * TicksPerSecond;
    ShiftUnits(d.ticks, TicksPerSecond, value * 60);
    ShiftRemainder(d.ticks / TicksPerSecond, 1, value, 60);
    assert r.ticks == d.ticks + (value * 60_000) * TicksPerMillisecond;
    ShiftUnits(d.ticks, TicksPerMillisecond, value * 60_000);
    ShiftRemainder(d.ticks / TicksPerMillisecond, 60, value, 1000);
  }

  /** AddSeconds moves the count of whole seconds by the seconds added and keeps the millisecond. */
  lemma AddSecondsFields(d: DateTime, value: int)
    requires Valid(d) && AddSeconds(d, value).Ok?
    ensures var r := AddSeconds(d, value).value;
      && r.ticks / TicksPerSecond == d.ticks / TicksPerSecond + value && Millisecond(r) == Millisecond(d)
  {
    var r := AddSeconds(d, value).value;
    assert r.ticks == d.ticks + value * TicksPerSecond;
    ShiftUnits(d.ticks, TicksPerSecond, value);
    assert r.ticks == d.ticks + (value * 1000) * TicksPerMillisecond;
    ShiftUnits(d.ticks, TicksPerMillisecond, value * 1000);
    ShiftRemainder(d.ticks / TicksPerMillisecond, 1, value, 1000);
  }

  /** AddMilliseconds moves the count of whole milliseconds by the milliseconds added and keeps the ticks below one. */
  lemma AddMillisecondsFields(d: DateTime, value: int)
    requires Valid(d) && AddMilliseconds(d, value).Ok?
    ensures var r := AddMilliseconds(d, value).value;
      && r.ticks / TicksPerMillisecond == d.ticks / TicksPerMillisecond + value
      && r.ticks % TicksPerMillisecond == d.ticks % TicksPerMillisecond
  {
    var r := AddMilliseconds(d, value).value;
    assert r.ticks == d.ticks + value * TicksPerMillisecond;
    ShiftUnits(d.ticks, TicksPerMillisecond, value);
  }

  /** DateTime.Date keeps the year, month and day and reads midnight. */
  lemma DateOnlyFields(d: DateTime)
    requires Valid(d)
    ensures var m := DateOnly(d);
      && Valid(m) && m.kind == d.kind && Year(m) == Year(d) && Month(m) == Month(d) && Day(m) == Day(d)
      && Hour(m) == 0 && Minute(m) == 0 && Second(m) == 0 && Millisecond(m) == 0
  {
    DateOnlyReads(d);
    SameDay(d, DateOnly(d));
  }

  /** DateTime.Date is a valid DateTime on the same day, at midnight. */
  lemma DateOnlyReads(d: DateTime)
    requires Valid(d)
    ensures var m := DateOnly(d);
      Valid(m) && DayOf(m) == DayOf(d) && Hour(m) == 0 && Minute(m) == 0 && Second(m) == 0 && Millisecond(m) == 0
  {
    var n, m := DayOf(d), DateOnly(d);
    assert m.ticks == n * TicksPerDay + 0 by {
      DivBounds(d.ticks, TicksPerDay);
    }
    assert n < DaysTo10000 by {
      DateValid(d);
    }
    DaysAndTime(n, 0);
  }

  /** Two DateTimes on the same day read the same year, month and day. */
  lemma SameDay(d: DateTime, m: DateTime)
    requires Valid(d) && Valid(m) && DayOf(m) == DayOf(d)
    ensures Year(m) == Year(d) && Month(m) == Month(d) && Day(m) == Day(d)
  {
  }

  /** A DateTime less its time of day is its date, and the date plus the time of day is the DateTime again. */
  lemma TimeOfDayRoundTrip(d: DateTime)
    requires Valid(d)
    ensures TimeSpans.Valid(TimeOfDay(d))
    ensures SubtractSpan(d, TimeOfDay(d)) == Ok(DateOnly(d))
    ensures Add(DateOnly(d), TimeOfDay(d)) == Ok(d)
  {
    var m := DateOnly(d);
    var t := TimeOfDay(d);
    assert 0 <= t.ticks < TicksPerDay;
    assert m.ticks + t.ticks == d.ticks;
    assert Add(m, t).value == d;
  }

  /** The time of day, read as a span, has the DateTime's hour, minute, second and millisecond and no days. */
  lemma TimeOfDayFields(d: DateTime)
    requires Valid(d)
    ensures var t := TimeOfDay(d);
      Days(t) == 0 && Hours(t) == Hour(d) && Minutes(t) == Minute(d) && Seconds(t) == Second(d)
      && Milliseconds(t) == Millisecond(d)
  {
    var tod := d.ticks % TicksPerDay;
    NaturalComponents(tod);
    DivModUnique(tod, TicksPerDay, 0, tod);
    assert d.ticks == DayOf(d) * TicksPerDay + tod;
    DaysAndTime(DayOf(d), tod);
  }

  /** Subtracting the difference of two DateTimes from the first gives the second's ticks, and the reverse difference is its negation. */
  lemma DifferenceRoundTrip(a: DateTime, b: DateTime)
    requires Valid(a) && Valid(b)
    ensures SubtractSpan(a, Difference(a, b)) == Ok(DateTime(b.ticks, a.kind))
    ensures Add(b, Difference(a, b)) == Ok(DateTime(a.ticks, b.kind))
    ensures Negate(Difference(a, b)) == Ok(Difference(b, a))
  {
  }

  /** Subtracting a span undoes adding it. */
  lemma AddSubtractInverse(d: DateTime, t: TimeSpan)
    requires Valid(d) && TimeSpans.Valid(t) && Add(d, t).Ok?
    ensures SubtractSpan(Add(d, t).value, t) == Ok(d)
  {
  }
}
