// DateTimeOffset: a UTC instant and an offset in whole minutes, no more
// than fourteen hours either way; the clock time that the components read
// is the UTC time plus the offset (DateTimeOffset.cs).
module DateTimeOffsets {
  import opened Wrappers
  import TS = TimeSpans
  import DT = DateTimes
  import Calendar

  /** The offset limits, fourteen hours either way, in minutes. */
  const MaxOffsetMinutes: int := 840

  datatype DateTimeOffset = DateTimeOffset(utcTicks: int, offsetMinutes: int)

  /** Both the UTC time and the clock time lie within DateTime's range. */
  predicate Valid(o: DateTimeOffset) {
    0 <= o.utcTicks <= DT.MaxTicks && -MaxOffsetMinutes <= o.offsetMinutes <= MaxOffsetMinutes
    && 0 <= o.utcTicks + o.offsetMinutes * TS.TicksPerMinute <= DT.MaxTicks
  }

  /** The default value, and MinValue: the first tick with offset zero. */
  const MinValue := DateTimeOffset(0, 0)
  const MaxValue := DateTimeOffset(DT.MaxTicks, 0)

  /** DateTimeOffset.Offset: whole minutes, within fourteen hours either way. */
  function Offset(o: DateTimeOffset): (t: TS.TimeSpan)
    ensures t.ticks % TS.TicksPerMinute == 0
    ensures Valid(o) ==> -14 * TS.TicksPerHour <= t.ticks <= 14 * TS.TicksPerHour
  {
    TS.TimeSpan(o.offsetMinutes * TS.TicksPerMinute)
  }

  /** DateTimeOffset.DateTime: the clock time, of kind Unspecified. */
  function Clock(o: DateTimeOffset): (d: DT.DateTime)
    requires Valid(o)
    ensures DT.Valid(d) && d.kind == DT.Unspecified
  {
    DT.DateTime(o.utcTicks + o.offsetMinutes * TS.TicksPerMinute, DT.Unspecified)
  }

  /** DateTimeOffset.Ticks: the ticks of the clock time, the UTC ticks plus the offset. */
  function Ticks(o: DateTimeOffset): (t: int)
    requires Valid(o)
    ensures 0 <= t <= DT.MaxTicks && t == o.utcTicks + Offset(o).ticks
  {
    Clock(o).ticks
  }

  /** The components read the clock time, not the UTC time. */
  function Year(o: DateTimeOffset): (y: int) requires Valid(o) ensures 1 <= y <= 9999 { DT.Year(Clock(o)) }
  function Month(o: DateTimeOffset): (m: int) requires Valid(o) ensures 1 <= m <= 12 { DT.Month(Clock(o)) }
  function Day(o: DateTimeOffset): (day: int) requires Valid(o) ensures Calendar.ValidDate(Year(o), Month(o), day) { DT.Day(Clock(o)) }
  function Hour(o: DateTimeOffset): (h: int) requires Valid(o) ensures 0 <= h < 24 { DT.Hour(Clock(o)) }
  function Minute(o: DateTimeOffset): (m: int) requires Valid(o) ensures 0 <= m < 60 { DT.Minute(Clock(o)) }
  function Second(o: DateTimeOffset): (s: int) requires Valid(o) ensures 0 <= s < 60 { DT.Second(Clock(o)) }
  function Millisecond(o: DateTimeOffset): (ms: int) requires Valid(o) ensures 0 <= ms < 1000 { DT.Millisecond(Clock(o)) }
  function WeekDay(o: DateTimeOffset): (w: int) requires Valid(o) ensures 0 <= w < 7 { DT.WeekDay(Clock(o)) }

  function TimeOfDay(o: DateTimeOffset): (t: TS.TimeSpan)
    requires Valid(o)
    ensures 0 <= t.ticks < TS.TicksPerDay && (Ticks(o) - t.ticks) % TS.TicksPerDay == 0
  {
    DT.TimeOfDay(Clock(o))
  }

  /** Two offsets are equal when they name the same UTC instant, whatever their offsets. */
  predicate SameInstant(a: DateTimeOffset, b: DateTimeOffset) { a.utcTicks == b.utcTicks }

  /**
   * The offset check: an offset that is not a whole number of minutes is an
   * ArgumentException, one beyond fourteen hours ArgumentOutOfRangeException;
   * the result is the offset in minutes.
   */
  function ValidateOffset(offset: TS.TimeSpan): (r: Result<int>)
    ensures r.Ok? <==> offset.ticks % TS.TicksPerMinute == 0 && -14 * TS.TicksPerHour <= offset.ticks <= 14 * TS.TicksPerHour
    ensures r.Ok? ==> -MaxOffsetMinutes <= r.value <= MaxOffsetMinutes && r.value * TS.TicksPerMinute == offset.ticks
    ensures r.Err? ==> r.error == if offset.ticks % TS.TicksPerMinute != 0 then Argument else ArgumentOutOfRange
  {
    // A zero remainder, and the quotient of an exact division, are the same
    // under C#'s truncating division as under Dafny's.
    if offset.ticks % TS.TicksPerMinute != 0 then Err(Argument)
    else if offset.ticks < -14 * TS.TicksPerHour || offset.ticks > 14 * TS.TicksPerHour then Err(ArgumentOutOfRange)
    else Ok(offset.ticks / TS.TicksPerMinute)
  }

  /** The UTC ticks of a clock time at an offset: ArgumentOutOfRangeException outside DateTime's range. */
  function ValidateDate(clock: int, offset: TS.TimeSpan): (r: Result<int>)
    ensures r.Ok? <==> 0 <= clock - offset.ticks <= DT.MaxTicks
    ensures r.Ok? ==> r.value == clock - offset.ticks
    ensures r.Err? ==> r.error == ArgumentOutOfRange
  {
    var utc := clock - offset.ticks;
    if utc < 0 || utc > DT.MaxTicks then Err(ArgumentOutOfRange) else Ok(utc)
  }

  /** A validated clock time at an already validated offset. */
  function AtOffset(clock: DT.DateTime, minutes: int): (r: Result<DateTimeOffset>)
    requires DT.Valid(clock) && -MaxOffsetMinutes <= minutes <= MaxOffsetMinutes
    ensures r.Ok? <==> 0 <= clock.ticks - minutes * TS.TicksPerMinute <= DT.MaxTicks
    ensures r.Ok? ==> Valid(r.value) && Clock(r.value).ticks == clock.ticks && r.value.offsetMinutes == minutes
    ensures r.Err? ==> r.error == ArgumentOutOfRange
  {
    var utc :- ValidateDate(clock.ticks, TS.TimeSpan(minutes * TS.TicksPerMinute));
    Ok(DateTimeOffset(utc, minutes))
  }

  /** new DateTimeOffset(ticks, offset): the offset first, then the ticks, then the UTC range. */
  function FromTicks(ticks: int, offset: TS.TimeSpan): (r: Result<DateTimeOffset>)
    ensures r.Ok? <==> ValidateOffset(offset).Ok? && 0 <= ticks <= DT.MaxTicks && 0 <= ticks - offset.ticks <= DT.MaxTicks
    ensures r.Ok? ==> Valid(r.value) && Ticks(r.value) == ticks && Offset(r.value) == offset
    ensures r.Err? ==> r.error == if ValidateOffset(offset).Err? then ValidateOffset(offset).error else ArgumentOutOfRange
  {
    var minutes :- ValidateOffset(offset);
    var clock :- DT.FromTicks(ticks, 0);
    AtOffset(clock, minutes)
  }

  /**
   * new DateTimeOffset(dateTime, offset): a Local time must carry the local
   * offset and a Utc time offset zero (ArgumentException); then the offset
   * and the UTC range are checked. The local offset is a parameter.
   */
  function FromDateTimeAt(d: DT.DateTime, offset: TS.TimeSpan, localOffset: TS.TimeSpan): (r: Result<DateTimeOffset>)
    requires DT.Valid(d)
    ensures r.Ok? <==> ((d.kind == DT.Local ==> offset == localOffset) && (d.kind == DT.Utc ==> offset == TS.Zero)
      && ValidateOffset(offset).Ok? && 0 <= d.ticks - offset.ticks <= DT.MaxTicks)
    ensures r.Ok? ==> Valid(r.value) && Ticks(r.value) == d.ticks && Offset(r.value) == offset
    ensures r.Err? && ((d.kind == DT.Local && offset != localOffset) || (d.kind == DT.Utc && offset != TS.Zero)) ==> r.error == Argument
  {
    if d.kind == DT.Local && offset != localOffset then Err(Argument)
    else if d.kind == DT.Utc && offset != TS.Zero then Err(Argument)
    else
      var minutes :- ValidateOffset(offset);
      AtOffset(d, minutes)
  }

  /** new DateTimeOffset(dateTime): offset zero for a Utc time, the local offset otherwise. */
  function FromDateTime(d: DT.DateTime, localOffset: TS.TimeSpan): (r: Result<DateTimeOffset>)
    requires DT.Valid(d)
    ensures r == FromDateTimeAt(d, if d.kind == DT.Utc then TS.Zero else localOffset, localOffset)
    ensures d.kind == DT.Utc ==> r.Ok? && Ticks(r.value) == d.ticks && Offset(r.value) == TS.Zero && SameInstant(r.value, DateTimeOffset(d.ticks, 0))
  {
    var offset := if d.kind == DT.Utc then TS.Zero else localOffset;
    var minutes :- ValidateOffset(offset);
    AtOffset(d, minutes)
  }

  /**
   * new DateTimeOffset(year, month, day, hour, minute, second, millisecond, offset):
   * the offset first, then the components as DateTime checks them, then the UTC range.
   */
  function Create(year: int, month: int, day: int, hour: int, minute: int, second: int, millisecond: int, offset: TS.TimeSpan): (r: Result<DateTimeOffset>)
    ensures r.Ok? <==> (ValidateOffset(offset).Ok? && DT.Create(year, month, day, hour, minute, second, millisecond, 0).Ok?
      && 0 <= DT.Create(year, month, day, hour, minute, second, millisecond, 0).value.ticks - offset.ticks <= DT.MaxTicks)
    ensures r.Ok? ==> (Valid(r.value) && Offset(r.value) == offset
      && Clock(r.value) == DT.Create(year, month, day, hour, minute, second, millisecond, 0).value)
    ensures r.Err? && ValidateOffset(offset).Err? ==> r.error == ValidateOffset(offset).error
    ensures r.Err? && ValidateOffset(offset).Ok? ==> r.error == ArgumentOutOfRange
  {
    var minutes :- ValidateOffset(offset);
    var clock :- DT.Create(year, month, day, hour, minute, second, millisecond, 0);
    AtOffset(clock, minutes)
  }

  // ---- Arithmetic: on the clock time, keeping the offset ----

  /** A clock-time result taken back to the same offset. */
  function Rezone(o: DateTimeOffset, clock: Result<DT.DateTime>): (r: Result<DateTimeOffset>)
    requires Valid(o) && (clock.Ok? ==> DT.Valid(clock.value))
    ensures r.Ok? <==> clock.Ok? && 0 <= clock.value.ticks - o.offsetMinutes * TS.TicksPerMinute <= DT.MaxTicks
    ensures r.Ok? ==> Valid(r.value) && Clock(r.value).ticks == clock.value.ticks && r.value.offsetMinutes == o.offsetMinutes
    ensures r.Err? ==> r.error == if clock.Err? then clock.error else ArgumentOutOfRange
  {
    var c :- clock;
    AtOffset(c, o.offsetMinutes)
  }

  /** DateTimeOffset.Add and +: the UTC instant moves by the span and the offset is kept. */
  function Add(o: DateTimeOffset, t: TS.TimeSpan): (r: Result<DateTimeOffset>)
    requires Valid(o) && TS.Valid(t)
    ensures r.Ok? <==> 0 <= Ticks(o) + t.ticks <= DT.MaxTicks && 0 <= o.utcTicks + t.ticks <= DT.MaxTicks
    ensures r.Ok? ==> Valid(r.value) && r.value.utcTicks == o.utcTicks + t.ticks && r.value.offsetMinutes == o.offsetMinutes
    ensures r.Err? ==> r.error == ArgumentOutOfRange
  {
    Rezone(o, DT.Add(Clock(o), t))
  }

  /** DateTimeOffset.Subtract(TimeSpan) and -: the UTC instant moves back by the span and the offset is kept. */
  function SubtractSpan(o: DateTimeOffset, t: TS.TimeSpan): (r: Result<DateTimeOffset>)
    requires Valid(o) && TS.Valid(t)
    ensures r.Ok? <==> 0 <= Ticks(o) - t.ticks <= DT.MaxTicks && 0 <= o.utcTicks - t.ticks <= DT.MaxTicks
    ensures r.Ok? ==> Valid(r.value) && r.value.utcTicks == o.utcTicks - t.ticks && r.value.offsetMinutes == o.offsetMinutes
    ensures r.Err? ==> r.error == ArgumentOutOfRange
  {
    Rezone(o, DT.SubtractSpan(Clock(o), t))
  }

  /** DateTimeOffset.Subtract(DateTimeOffset) and -: the difference of the UTC instants. */
  function Difference(a: DateTimeOffset, b: DateTimeOffset): (r: TS.TimeSpan)
    requires Valid(a) && Valid(b)
    ensures TS.Valid(r) && r.ticks == a.utcTicks - b.utcTicks
  {
    DT.Difference(DT.DateTime(a.utcTicks, DT.Unspecified), DT.DateTime(b.utcTicks, DT.Unspecified))
  }

  /**
   * AddDays through AddMilliseconds: the UTC instant moves by value units and
   * the offset is kept, when the milliseconds stay inside DateTime's bound and
   * both the clock time and the UTC time stay inside its range;
   * ArgumentOutOfRangeException otherwise.
   */
  function AddDays(o: DateTimeOffset, value: int): (r: Result<DateTimeOffset>)
    requires Valid(o)
    ensures r.Ok? <==> (-DT.MaxMillis < value * 86_400_000 < DT.MaxMillis
      && 0 <= Ticks(o) + value * TS.TicksPerDay <= DT.MaxTicks && 0 <= o.utcTicks + value * TS.TicksPerDay <= DT.MaxTicks)
    ensures r.Ok? ==> Valid(r.value) && r.value.utcTicks == o.utcTicks + value * TS.TicksPerDay && r.value.offsetMinutes == o.offsetMinutes
    ensures r.Err? ==> r.error == ArgumentOutOfRange
  {
    Rezone(o, DT.AddDays(Clock(o), value))
  }

  function AddHours(o: DateTimeOffset, value: int): (r: Result<DateTimeOffset>)
    requires Valid(o)
    ensures r.Ok? <==> (-DT.MaxMillis < value * 3_600_000 < DT.MaxMillis
      && 0 <= Ticks(o) + value * TS.TicksPerHour <= DT.MaxTicks && 0 <= o.utcTicks + value * TS.TicksPerHour <= DT.MaxTicks)
    ensures r.Ok? ==> Valid(r.value) && r.value.utcTicks == o.utcTicks + value * TS.TicksPerHour && r.value.offsetMinutes == o.offsetMinutes
    ensures r.Err? ==> r.error == ArgumentOutOfRange
  {
    Rezone(o, DT.AddHours(Clock(o), value))
  }

  function AddMinutes(o: DateTimeOffset, value: int): (r: Result<DateTimeOffset>)
    requires Valid(o)
    ensures r.Ok? <==> (-DT.MaxMillis < value * 60_000 < DT.MaxMillis
      && 0 <= Ticks(o) + value * TS.TicksPerMinute <= DT.MaxTicks && 0 <= o.utcTicks + value * TS.TicksPerMinute <= DT.MaxTicks)
    ensures r.Ok? ==> Valid(r.value) && r.value.utcTicks == o.utcTicks + value * TS.TicksPerMinute && r.value.offsetMinutes == o.offsetMinutes
    ensures r.Err? ==> r.error == ArgumentOutOfRange
  {
    Rezone(o, DT.AddMinutes(Clock(o), value))
  }

  function AddSeconds(o: DateTimeOffset, value: int): (r: Result<DateTimeOffset>)
    requires Valid(o)
    ensures r.Ok? <==> (-DT.MaxMillis < value * 1000 < DT.MaxMillis
      && 0 <= Ticks(o) + value * TS.TicksPerSecond <= DT.MaxTicks && 0 <= o.utcTicks + value * TS.TicksPerSecond <= DT.MaxTicks)
    ensures r.Ok? ==> Valid(r.value) && r.value.utcTicks == o.utcTicks + value * TS.TicksPerSecond && r.value.offsetMinutes == o.offsetMinutes
    ensures r.Err? ==> r.error == ArgumentOutOfRange
  {
    Rezone(o, DT.AddSeconds(Clock(o), value))
  }

  function AddMilliseconds(o: DateTimeOffset, value: int): (r: Result<DateTimeOffset>)
    requires Valid(o)
    ensures r.Ok? <==> (-DT.MaxMillis < value < DT.MaxMillis
      && 0 <= Ticks(o) + value * TS.TicksPerMillisecond <= DT.MaxTicks && 0 <= o.utcTicks + value * TS.TicksPerMillisecond <= DT.MaxTicks)
    ensures r.Ok? ==> Valid(r.value) && r.value.utcTicks == o.utcTicks + value * TS.TicksPerMillisecond && r.value.offsetMinutes == o.offsetMinutes
    ensures r.Err? ==> r.error == ArgumentOutOfRange
  {
    Rezone(o, DT.AddMilliseconds(Clock(o), value))
  }

  /** AddMonths and AddYears: the calendar step is taken on the clock time, and the offset is kept. */
  function AddMonths(o: DateTimeOffset, value: int): (r: Result<DateTimeOffset>)
    requires Valid(o)
    ensures r.Ok? ==> Valid(r.value) && r.value.offsetMinutes == o.offsetMinutes
    ensures r.Err? ==> r.error == ArgumentOutOfRange
  {
    Rezone(o, DT.AddMonths(Clock(o), value))
  }

  function AddYears(o: DateTimeOffset, value: int): (r: Result<DateTimeOffset>)
    requires Valid(o)
    ensures r.Ok? ==> Valid(r.value) && r.value.offsetMinutes == o.offsetMinutes
    ensures r.Err? ==> r.error == ArgumentOutOfRange
  {
    Rezone(o, DT.AddYears(Clock(o), value))
  }

  // ---- Lemmas ----

  /** Any DateTimeOffset is a pair of a valid clock time and a valid offset, and the constructor on its ticks gives it back. */
  lemma FromTicksOfParts(o: DateTimeOffset)
    requires Valid(o)
    ensures ValidateOffset(Offset(o)) == Ok(o.offsetMinutes)
    ensures FromTicks(Ticks(o), Offset(o)) == Ok(o)
  {
    assert Offset(o).ticks % TS.TicksPerMinute == 0 by {
      DivModUnique(Offset(o).ticks + 840 * TS.TicksPerMinute, TS.TicksPerMinute, o.offsetMinutes + 840, 0);
    }
  }

  /** The clock-time components of a DateTimeOffset built from a DateTime are the DateTime's. */
  lemma FromDateTimeComponents(d: DT.DateTime, offset: TS.TimeSpan, localOffset: TS.TimeSpan)
    requires DT.Valid(d) && FromDateTimeAt(d, offset, localOffset).Ok?
    ensures var o := FromDateTimeAt(d, offset, localOffset).value;
      Year(o) == DT.Year(d) && Month(o) == DT.Month(d) && Day(o) == DT.Day(d) && Hour(o) == DT.Hour(d)
      && Minute(o) == DT.Minute(d) && Second(o) == DT.Second(d) && Millisecond(o) == DT.Millisecond(d)
      && WeekDay(o) == DT.WeekDay(d) && TimeOfDay(o) == DT.TimeOfDay(d)
  {
    var o := FromDateTimeAt(d, offset, localOffset).value;
    assert Clock(o).ticks == d.ticks;
  }

  /** Subtracting a span undoes adding it, and the difference taken back is the span added. */
  lemma AddSubtractInverse(o: DateTimeOffset, t: TS.TimeSpan)
    requires Valid(o) && TS.Valid(t) && Add(o, t).Ok?
    ensures SubtractSpan(Add(o, t).value, t) == Ok(o)
    ensures Difference(Add(o, t).value, o) == t
  {
    var r := Add(o, t).value;
    assert Ticks(r) == Ticks(o) + t.ticks;
  }

  /** The difference in the other order is the negation, and both differences are independent of the offsets. */
  lemma DifferenceAntisymmetric(a: DateTimeOffset, b: DateTimeOffset)
    requires Valid(a) && Valid(b)
    ensures TS.Negate(Difference(a, b)) == Ok(Difference(b, a))
    ensures SubtractSpan(a, Difference(a, b)).Ok? ==> SameInstant(SubtractSpan(a, Difference(a, b)).value, b)
  {
  }

  /** Each clock-time addition is DateTime's on the clock time, taken back to the same offset. */
  lemma AddUnitsOnClock(o: DateTimeOffset, value: int)
    requires Valid(o)
    ensures AddDays(o, value).Ok? ==> Clock(AddDays(o, value).value) == DT.AddDays(Clock(o), value).value
    ensures AddHours(o, value).Ok? ==> Clock(AddHours(o, value).value) == DT.AddHours(Clock(o), value).value
    ensures AddMinutes(o, value).Ok? ==> Clock(AddMinutes(o, value).value) == DT.AddMinutes(Clock(o), value).value
    ensures AddSeconds(o, value).Ok? ==> Clock(AddSeconds(o, value).value) == DT.AddSeconds(Clock(o), value).value
    ensures AddMilliseconds(o, value).Ok? ==> Clock(AddMilliseconds(o, value).value) == DT.AddMilliseconds(Clock(o), value).value
    ensures AddMonths(o, value).Ok? ==> Clock(AddMonths(o, value).value) == DT.AddMonths(Clock(o), value).value
    ensures AddYears(o, value).Ok? ==> Clock(AddYears(o, value).value) == DT.AddYears(Clock(o), value).value
  {
  }
}
