// The DateTimeOffset rows of DateTimeOffset.cs, each stated over the
// model. Rows that build an offset from a Local or Unspecified DateTime
// depend on the machine's time zone: they are stated for every local
// offset a time zone can have, a whole number of minutes within fourteen
// hours.
module DateTimeOffsetExamples {
  import opened Wrappers
  import TS = TimeSpans
  import DT = DateTimes
  import opened Calendar
  import opened DateTimeOffsets
  import DateTimeExamples

  /** An offset that a time zone can have. */
  predicate LocalOffset(offset: TS.TimeSpan) { ValidateOffset(offset).Ok? }

  /** What VerifyDateTimeOffset checks: every component of the clock time, and the offset. */
  predicate Shows(o: DateTimeOffset, year: int, month: int, day: int, hour: int, minute: int, second: int, millisecond: int, offset: TS.TimeSpan)
    requires Valid(o)
  {
    Year(o) == year && Month(o) == month && Day(o) == day && Hour(o) == hour && Minute(o) == minute
    && Second(o) == second && Millisecond(o) == millisecond && Offset(o) == offset
  }

  /** A DateTimeOffset shows the components its clock time shows. */
  lemma ShowsOfClock(o: DateTimeOffset, d: DT.DateTime, year: int, month: int, day: int, hour: int, minute: int, second: int, millisecond: int, kind: int)
    requires Valid(o) && DT.Valid(d) && Clock(o).ticks == d.ticks
    requires DateTimeExamples.Shows(d, year, month, day, hour, minute, second, millisecond, kind)
    ensures Shows(o, year, month, day, hour, minute, second, millisecond, Offset(o))
  {
  }

  /** new DateTimeOffset() and default(DateTimeOffset) read 0001-01-01 00:00:00.000 at offset zero. */
  lemma EmptyRow()
    ensures Shows(MinValue, 1, 1, 1, 0, 0, 0, 0, TS.Zero)
  {
    DateTimeExamples.MinValueFields();
    ShowsOfClock(MinValue, DT.MinValue, 1, 1, 1, 0, 0, 0, 0, 0);
  }

  /** A Utc DateTime gives offset zero and shows its own components. */
  lemma UtcShows(d: DT.DateTime, year: int, month: int, day: int, hour: int, minute: int, second: int, millisecond: int, localOffset: TS.TimeSpan)
    requires DT.Valid(d) && d.kind == DT.Utc
    requires DateTimeExamples.Shows(d, year, month, day, hour, minute, second, millisecond, 1)
    ensures FromDateTime(d, localOffset).Ok? && Shows(FromDateTime(d, localOffset).value, year, month, day, hour, minute, second, millisecond, TS.Zero)
  {
    ShowsOfClock(FromDateTime(d, localOffset).value, d, year, month, day, hour, minute, second, millisecond, 1);
  }

  /** 2012-06-11 Utc gives offset zero and its own components. */
  lemma FromUtcRow(localOffset: TS.TimeSpan)
    ensures DT.Create(2012, 6, 11, 0, 0, 0, 0, 1).Ok?
    ensures var o := FromDateTime(DT.Create(2012, 6, 11, 0, 0, 0, 0, 1).value, localOffset);
      o.Ok? && Shows(o.value, 2012, 6, 11, 0, 0, 0, 0, TS.Zero)
  {
    DT.CreateReadBack(2012, 6, 11, 0, 0, 0, 0, 1);
    UtcShows(DT.Create(2012, 6, 11, 0, 0, 0, 0, 1).value, 2012, 6, 11, 0, 0, 0, 0, localOffset);
  }

  /** A Local DateTime keeps its components at any local offset. */
  lemma FromLocalRow(localOffset: TS.TimeSpan)
    requires LocalOffset(localOffset)
    ensures DT.Create(1986, 8, 15, 10, 20, 5, 4, 2).Ok?
    ensures var o := FromDateTime(DT.Create(1986, 8, 15, 10, 20, 5, 4, 2).value, localOffset);
      o.Ok? && Shows(o.value, 1986, 8, 15, 10, 20, 5, 4, localOffset)
  {
    var d := DT.Create(1986, 8, 15, 10, 20, 5, 4, 2).value;
    assert DayNumber(1986, 8, 15) == 725232;
    DT.CreateReadBack(1986, 8, 15, 10, 20, 5, 4, 2);
    FromDateTimeComponents(d, localOffset, localOffset);
  }

  /** Components one past MinValue or MaxValue, at offset zero, are out of range before any offset is applied. */
  lemma BeyondLimitsRows()
    ensures DT.Create(1, 1, 1, 0, 0, 0, -1, 1) == Err(ArgumentOutOfRange)
    ensures DT.Create(1, 1, 1, 0, 0, -1, 0, 1) == Err(ArgumentOutOfRange)
    ensures DT.Create(1, 1, 1, 0, -1, 0, 0, 1) == Err(ArgumentOutOfRange)
    ensures DT.Create(1, 1, 1, -1, 0, 0, 0, 1) == Err(ArgumentOutOfRange)
    ensures DT.Create(1, 1, 0, 0, 0, 0, 0, 1) == Err(ArgumentOutOfRange)
    ensures DT.Create(1, 0, 1, 0, 0, 0, 0, 1) == Err(ArgumentOutOfRange)
    ensures DT.Create(0, 1, 0, 0, 0, 0, 0, 1) == Err(ArgumentOutOfRange)
    ensures DT.Create(9999, 12, 31, 23, 59, 59, 1000, 1) == Err(ArgumentOutOfRange)
    ensures DT.Create(9999, 12, 31, 23, 59, 60, 999, 1) == Err(ArgumentOutOfRange)
    ensures DT.Create(9999, 12, 31, 23, 60, 59, 999, 1) == Err(ArgumentOutOfRange)
    ensures DT.Create(9999, 12, 31, 24, 59, 59, 999, 1) == Err(ArgumentOutOfRange)
    ensures DT.Create(9999, 12, 32, 23, 59, 59, 999, 1) == Err(ArgumentOutOfRange)
    ensures DT.Create(9999, 13, 31, 23, 59, 59, 999, 1) == Err(ArgumentOutOfRange)
    ensures DT.Create(10000, 12, 31, 23, 59, 59, 999, 1) == Err(ArgumentOutOfRange)
  {
  }

  /** The same components passed straight to the constructor with offset zero are out of range too. */
  lemma BeyondLimitsComponentRows()
    ensures Create(1, 1, 1, 0, 0, 0, -1, TS.Zero) == Err(ArgumentOutOfRange)
    ensures Create(1, 1, 1, 0, 0, -1, 0, TS.Zero) == Err(ArgumentOutOfRange)
    ensures Create(1, 1, 1, 0, -1, 0, 0, TS.Zero) == Err(ArgumentOutOfRange)
    ensures Create(1, 1, 1, -1, 0, 0, 0, TS.Zero) == Err(ArgumentOutOfRange)
    ensures Create(1, 1, 0, 0, 0, 0, 0, TS.Zero) == Err(ArgumentOutOfRange)
    ensures Create(1, 0, 1, 0, 0, 0, 0, TS.Zero) == Err(ArgumentOutOfRange)
    ensures Create(0, 1, 1, 0, 0, 0, 0, TS.Zero) == Err(ArgumentOutOfRange)
    ensures Create(9999, 12, 31, 23, 59, 59, 1000, TS.Zero) == Err(ArgumentOutOfRange)
    ensures Create(9999, 12, 31, 23, 59, 60, 999, TS.Zero) == Err(ArgumentOutOfRange)
    ensures Create(9999, 12, 31, 23, 60, 59, 999, TS.Zero) == Err(ArgumentOutOfRange)
    ensures Create(9999, 12, 31, 24, 59, 59, 999, TS.Zero) == Err(ArgumentOutOfRange)
    ensures Create(9999, 12, 32, 23, 59, 59, 999, TS.Zero) == Err(ArgumentOutOfRange)
    ensures Create(9999, 13, 32, 23, 59, 59, 999, TS.Zero) == Err(ArgumentOutOfRange)
    ensures Create(10000, 12, 31, 23, 59, 59, 999, TS.Zero) == Err(ArgumentOutOfRange)
  {
  }

  /** DateTime.MinValue at -14:00 and DateTime.MaxValue at +14:00 are accepted and read back their components. */
  lemma ExtremeOffsetRows(localOffset: TS.TimeSpan)
    ensures TS.FromHours(-14).Ok? && TS.FromHours(14).Ok?
    ensures var o := FromDateTimeAt(DT.MinValue, TS.FromHours(-14).value, localOffset);
      o.Ok? && Shows(o.value, 1, 1, 1, 0, 0, 0, 0, TS.FromHours(-14).value)
    ensures var o := FromDateTimeAt(DT.MaxValue, TS.FromHours(14).value, localOffset);
      o.Ok? && Shows(o.value, 9999, 12, 31, 23, 59, 59, 999, TS.FromHours(14).value)
  {
    MinValueAtMinusFourteen(localOffset);
    MaxValueAtPlusFourteen(localOffset);
  }

  lemma MinValueAtMinusFourteen(localOffset: TS.TimeSpan)
    ensures TS.FromHours(-14).Ok?
    ensures var o := FromDateTimeAt(DT.MinValue, TS.FromHours(-14).value, localOffset);
      o.Ok? && Shows(o.value, 1, 1, 1, 0, 0, 0, 0, TS.FromHours(-14).value)
  {
    DateTimeExamples.MinValueFields();
    FromDateTimeComponents(DT.MinValue, TS.FromHours(-14).value, localOffset);
  }

  lemma MaxValueAtPlusFourteen(localOffset: TS.TimeSpan)
    ensures TS.FromHours(14).Ok?
    ensures var o := FromDateTimeAt(DT.MaxValue, TS.FromHours(14).value, localOffset);
      o.Ok? && Shows(o.value, 9999, 12, 31, 23, 59, 59, 999, TS.FromHours(14).value)
  {
    DateTimeExamples.MaxValueFields();
    FromDateTimeComponents(DT.MaxValue, TS.FromHours(14).value, localOffset);
  }

  /** An offset built from a DateTime shows the DateTime's components and the offset given. */
  lemma AtShows(d: DT.DateTime, offset: TS.TimeSpan, localOffset: TS.TimeSpan, year: int, month: int, day: int, hour: int, minute: int, second: int, millisecond: int, kind: int)
    requires DT.Valid(d) && FromDateTimeAt(d, offset, localOffset).Ok?
    requires DateTimeExamples.Shows(d, year, month, day, hour, minute, second, millisecond, kind)
    ensures Shows(FromDateTimeAt(d, offset, localOffset).value, year, month, day, hour, minute, second, millisecond, offset)
  {
    ShowsOfClock(FromDateTimeAt(d, offset, localOffset).value, d, year, month, day, hour, minute, second, millisecond, kind);
  }

  /** An Unspecified DateTime at offset zero reads back its components. */
  lemma ZeroOffsetRow(localOffset: TS.TimeSpan)
    ensures DT.Create(2012, 12, 31, 13, 50, 10, 0, 0).Ok?
    ensures var o := FromDateTimeAt(DT.Create(2012, 12, 31, 13, 50, 10, 0, 0).value, TS.Zero, localOffset);
      o.Ok? && Shows(o.value, 2012, 12, 31, 13, 50, 10, 0, TS.Zero)
  {
    DT.CreateReadBack(2012, 12, 31, 13, 50, 10, 0, 0);
    AtShows(DT.Create(2012, 12, 31, 13, 50, 10, 0, 0).value, TS.Zero, localOffset, 2012, 12, 31, 13, 50, 10, 0, 0);
  }

  /**
   * A Local time with an offset no time zone has, and a Utc time with any
   * offset but zero, are ArgumentExceptions; the times are the clock's.
   */
  lemma MismatchedOffsetRows(now: DT.DateTime, utcNow: DT.DateTime, localOffset: TS.TimeSpan)
    requires DT.Valid(now) && now.kind == DT.Local && DT.Valid(utcNow) && utcNow.kind == DT.Utc
    requires LocalOffset(localOffset)
    ensures TS.FromHours(15).Ok? && TS.FromHours(-15).Ok? && TS.FromHours(1).Ok?
    ensures FromDateTimeAt(now, TS.FromHours(15).value, localOffset) == Err(Argument)
    ensures FromDateTimeAt(now, TS.FromHours(-15).value, localOffset) == Err(Argument)
    ensures FromDateTimeAt(utcNow, TS.FromHours(1).value, localOffset) == Err(Argument)
    ensures TS.FromTime(0, 0, 3).Ok? && FromDateTimeAt(utcNow, TS.FromTime(0, 0, 3).value, localOffset) == Err(Argument)
    ensures TS.FromTime(0, 0, -3).Ok? && FromDateTimeAt(utcNow, TS.FromTime(0, 0, -3).value, localOffset) == Err(Argument)
    ensures var t := TS.FromComponents(0, 0, 0, 0, 3); t.Ok? && FromDateTimeAt(utcNow, t.value, localOffset) == Err(Argument)
    ensures var t := TS.FromComponents(0, 0, 0, 0, -3); t.Ok? && FromDateTimeAt(utcNow, t.value, localOffset) == Err(Argument)
  {
  }

  /** The ticks of 0001-02-03 04:05:06.007 at offset zero read back as that time. */
  lemma TicksRow()
    ensures DT.Create(1, 2, 3, 4, 5, 6, 7, 0).Ok?
    ensures var o := FromTicks(DT.Create(1, 2, 3, 4, 5, 6, 7, 0).value.ticks, TS.Zero);
      o.Ok? && Shows(o.value, 1, 2, 3, 4, 5, 6, 7, TS.Zero)
  {
    DT.CreateReadBack(1, 2, 3, 4, 5, 6, 7, 0);
  }

  /** An offset that is not whole minutes is an ArgumentException; one beyond fourteen hours, or ticks out of range, ArgumentOutOfRangeException. */
  lemma TicksInvalidRows()
    ensures TS.FromTime(0, 0, 3).Ok? && FromTicks(0, TS.FromTime(0, 0, 3).value) == Err(Argument)
    ensures TS.FromTime(0, 0, -3).Ok? && FromTicks(0, TS.FromTime(0, 0, -3).value) == Err(Argument)
    ensures var t := TS.FromComponents(0, 0, 0, 0, 3); t.Ok? && FromTicks(0, t.value) == Err(Argument)
    ensures var t := TS.FromComponents(0, 0, 0, 0, -3); t.Ok? && FromTicks(0, t.value) == Err(Argument)
    ensures TS.FromHours(-15).Ok? && FromTicks(0, TS.FromHours(-15).value) == Err(ArgumentOutOfRange)
    ensures TS.FromHours(15).Ok? && FromTicks(0, TS.FromHours(15).value) == Err(ArgumentOutOfRange)
    ensures FromTicks(MinValue.utcTicks - 1, TS.Zero) == Err(ArgumentOutOfRange)
    ensures FromTicks(MaxValue.utcTicks + 1, TS.Zero) == Err(ArgumentOutOfRange)
  {
  }

  /** An offset built from components shows those components and the offset. */
  lemma CreateShows(year: int, month: int, day: int, hour: int, minute: int, second: int, millisecond: int, offset: TS.TimeSpan)
    requires Create(year, month, day, hour, minute, second, millisecond, offset).Ok?
    ensures Shows(Create(year, month, day, hour, minute, second, millisecond, offset).value, year, month, day, hour, minute, second, millisecond, offset)
  {
    DT.CreateReadBack(year, month, day, hour, minute, second, millisecond, 0);
    ShowsOfClock(Create(year, month, day, hour, minute, second, millisecond, offset).value,
      DT.Create(year, month, day, hour, minute, second, millisecond, 0).value, year, month, day, hour, minute, second, millisecond, 0);
  }

  /** The constructor with milliseconds reads back what it was given. */
  lemma ComponentMillisecondsRow()
    ensures var o := Create(1973, 10, 6, 14, 30, 0, 500, TS.Zero); o.Ok? && Shows(o.value, 1973, 10, 6, 14, 30, 0, 500, TS.Zero)
  {
    CreateShows(1973, 10, 6, 14, 30, 0, 500, TS.Zero);
  }

  /** The constructor without milliseconds reads back what it was given. */
  lemma ComponentSecondsRow()
    ensures var o := Create(1973, 10, 6, 14, 30, 0, 0, TS.Zero); o.Ok? && Shows(o.value, 1973, 10, 6, 14, 30, 0, 0, TS.Zero)
  {
    CreateShows(1973, 10, 6, 14, 30, 0, 0, TS.Zero);
  }

  /** The offset is checked before the components: a fractional offset is an ArgumentException, a large one out of range. */
  lemma ComponentOffsetRows(millisecond: int)
    requires millisecond == 0 || millisecond == 1
    ensures TS.FromTime(0, 0, 3).Ok? && Create(1, 1, 1, 1, 1, 1, millisecond, TS.FromTime(0, 0, 3).value) == Err(Argument)
    ensures TS.FromTime(0, 0, -3).Ok? && Create(1, 1, 1, 1, 1, 1, millisecond, TS.FromTime(0, 0, -3).value) == Err(Argument)
    ensures var t := TS.FromComponents(0, 0, 0, 0, 3); t.Ok? && Create(1, 1, 1, 1, 1, 1, millisecond, t.value) == Err(Argument)
    ensures var t := TS.FromComponents(0, 0, 0, 0, -3); t.Ok? && Create(1, 1, 1, 1, 1, 1, millisecond, t.value) == Err(Argument)
    ensures TS.FromHours(-15).Ok? && Create(1, 1, 1, 1, 1, 1, millisecond, TS.FromHours(-15).value) == Err(ArgumentOutOfRange)
    ensures TS.FromHours(15).Ok? && Create(1, 1, 1, 1, 1, 1, millisecond, TS.FromHours(15).value) == Err(ArgumentOutOfRange)
  {
  }

  /** A component out of its range, at offset zero, is an ArgumentOutOfRangeException. */
  lemma ComponentInvalidRows(millisecond: int)
    requires millisecond == 0 || millisecond == 1
    ensures Create(0, 1, 1, 1, 1, 1, millisecond, TS.Zero) == Err(ArgumentOutOfRange)
    ensures Create(10000, 1, 1, 1, 1, 1, millisecond, TS.Zero) == Err(ArgumentOutOfRange)
    ensures Create(1, 0, 1, 1, 1, 1, millisecond, TS.Zero) == Err(ArgumentOutOfRange)
    ensures Create(1, 13, 1, 1, 1, 1, millisecond, TS.Zero) == Err(ArgumentOutOfRange)
    ensures Create(1, 1, 0, 1, 1, 1, millisecond, TS.Zero) == Err(ArgumentOutOfRange)
    ensures Create(1, 1, 32, 1, 1, 1, millisecond, TS.Zero) == Err(ArgumentOutOfRange)
    ensures Create(1, 1, 1, -1, 1, 1, millisecond, TS.Zero) == Err(ArgumentOutOfRange)
    ensures Create(1, 1, 1, 24, 1, 1, millisecond, TS.Zero) == Err(ArgumentOutOfRange)
    ensures Create(1, 1, 1, 1, -1, 1, millisecond, TS.Zero) == Err(ArgumentOutOfRange)
    ensures Create(1, 1, 1, 1, 60, 1, millisecond, TS.Zero) == Err(ArgumentOutOfRange)
    ensures Create(1, 1, 1, 1, 1, -1, millisecond, TS.Zero) == Err(ArgumentOutOfRange)
    ensures Create(1, 1, 1, 1, 1, 60, millisecond, TS.Zero) == Err(ArgumentOutOfRange)
    ensures Create(1, 1, 1, 1, 1, 1, -1, TS.Zero) == Err(ArgumentOutOfRange)
    ensures Create(1, 1, 1, 1, 1, 1, 1000, TS.Zero) == Err(ArgumentOutOfRange)
  {
  }

  /** MaxValue reads 9999-12-31 23:59:59.999 and MinValue 0001-01-01 00:00:00.000, both at offset zero. */
  lemma LimitsRow()
    ensures Shows(MaxValue, 9999, 12, 31, 23, 59, 59, 999, TS.Zero)
    ensures Shows(MinValue, 1, 1, 1, 0, 0, 0, 0, TS.Zero)
  {
    DateTimeExamples.MaxValueFields();
    ShowsOfClock(MaxValue, DT.MaxValue, 9999, 12, 31, 23, 59, 59, 999, 0);
    EmptyRow();
  }

  // ---- Arithmetic rows ----

  /** A clock time a day or more inside DateTime's range can be taken to any offset a time zone has. */
  lemma InsideAtLocal(d: DT.DateTime, localOffset: TS.TimeSpan)
    requires DT.Valid(d) && d.kind != DT.Utc && LocalOffset(localOffset)
    requires TS.TicksPerDay <= d.ticks <= DT.MaxTicks - TS.TicksPerDay
    ensures FromDateTime(d, localOffset).Ok? && Clock(FromDateTime(d, localOffset).value).ticks == d.ticks
    ensures Offset(FromDateTime(d, localOffset).value) == localOffset
  {
  }

  /** A clock time in a year from 2 to 9998 lies a day or more inside DateTime's range. */
  lemma InsideOfYear(c: DT.DateTime)
    requires DT.Valid(c) && 2 <= DT.Year(c) <= 9998
    ensures TS.TicksPerDay <= c.ticks <= DT.MaxTicks - TS.TicksPerDay
  {
    DT.DateValid(c);
    var y := DT.Year(c);
    DaysBeforeYearMonotone(2, y);
    DaysBeforeYearMonotone(y, 9998);
    if DT.Month(c) < 12 {
      TableIncreasing(DaysToMonth(y), DT.Month(c), 12);
    }
    assert DT.DayOf(c) <= DaysBeforeYear(9998) + 365;
  }

  /** A clock time a day or more inside the range, taken back to the offset of a valid DateTimeOffset, is accepted. */
  lemma RezoneInside(o: DateTimeOffset, c: DT.DateTime)
    requires Valid(o) && DT.Valid(c) && c.kind == DT.Unspecified
    requires TS.TicksPerDay <= c.ticks <= DT.MaxTicks - TS.TicksPerDay
    ensures Rezone(o, Ok(c)).Ok? && Clock(Rezone(o, Ok(c)).value) == c
  {
  }

  /** The 1986-08-15 10:20:05.070 of the addition rows, at the local offset, has DateTime's Start as its clock time. */
  lemma StartAtLocal(localOffset: TS.TimeSpan)
    requires LocalOffset(localOffset)
    ensures FromDateTime(DateTimeExamples.Start, localOffset).Ok?
    ensures Valid(FromDateTime(DateTimeExamples.Start, localOffset).value)
    ensures Clock(FromDateTime(DateTimeExamples.Start, localOffset).value) == DateTimeExamples.Start
  {
    InsideAtLocal(DateTimeExamples.Start, localOffset);
  }

  /** AddDays(2) reads day 17 and AddDays(-2) day 13, at any local offset. */
  lemma AdditionDaysRows(localOffset: TS.TimeSpan)
    requires LocalOffset(localOffset)
    ensures FromDateTime(DateTimeExamples.Start, localOffset).Ok?
    ensures var o := FromDateTime(DateTimeExamples.Start, localOffset).value;
      && AddDays(o, 2).Ok? && Day(AddDays(o, 2).value) == 17
      && AddDays(o, -2).Ok? && Day(AddDays(o, -2).value) == 13
  {
    StartAtLocal(localOffset);
    var o := FromDateTime(DateTimeExamples.Start, localOffset).value;
    DateTimeExamples.AddDaysRows(2);
    DateTimeExamples.AddDaysRows(-2);
    RezoneInside(o, DT.AddDays(DateTimeExamples.Start, 2).value);
    RezoneInside(o, DT.AddDays(DateTimeExamples.Start, -2).value);
  }

  /** AddMonths(2) reads month 10 and AddMonths(-2) month 6, at any local offset. */
  lemma AdditionMonthsRows(localOffset: TS.TimeSpan, value: int)
    requires LocalOffset(localOffset) && (value == 2 || value == -2)
    ensures FromDateTime(DateTimeExamples.Start, localOffset).Ok?
    ensures var o := FromDateTime(DateTimeExamples.Start, localOffset).value;
      AddMonths(o, value).Ok? && Month(AddMonths(o, value).value) == 8 + value
  {
    StartAtLocal(localOffset);
    var o := FromDateTime(DateTimeExamples.Start, localOffset).value;
    DateTimeExamples.StartFields();
    DateTimeExamples.AddMonthsRows(value);
    DT.AddMonthsFields(DateTimeExamples.Start, value);
    var c := DT.AddMonths(DateTimeExamples.Start, value).value;
    var y, m := DT.Year(c), DT.Month(c);
    assert y * 12 + m == 1986 * 12 + 8 + value && 1 <= m <= 12;
    assert y == 1986;
    InsideOfYear(c);
    RezoneInside(o, c);
  }

  /** AddYears(10) reads year 1996 and AddYears(-10) year 1976, at any local offset. */
  lemma AdditionYearsRows(localOffset: TS.TimeSpan)
    requires LocalOffset(localOffset)
    ensures FromDateTime(DateTimeExamples.Start, localOffset).Ok?
    ensures var o := FromDateTime(DateTimeExamples.Start, localOffset).value;
      && AddYears(o, 10).Ok? && Year(AddYears(o, 10).value) == 1996
      && AddYears(o, -10).Ok? && Year(AddYears(o, -10).value) == 1976
  {
    StartAtLocal(localOffset);
    var o := FromDateTime(DateTimeExamples.Start, localOffset).value;
    DateTimeExamples.AddYearsRows();
    DT.AddYearsFields(DateTimeExamples.Start, 10);
    DT.AddYearsFields(DateTimeExamples.Start, -10);
    InsideOfYear(DT.AddYears(DateTimeExamples.Start, 10).value);
    InsideOfYear(DT.AddYears(DateTimeExamples.Start, -10).value);
    RezoneInside(o, DT.AddYears(DateTimeExamples.Start, 10).value);
    RezoneInside(o, DT.AddYears(DateTimeExamples.Start, -10).value);
  }

  /** AddHours(3) reads hour 13 and AddHours(-3) hour 7, at any local offset. */
  lemma AdditionHoursRows(localOffset: TS.TimeSpan)
    requires LocalOffset(localOffset)
    ensures FromDateTime(DateTimeExamples.Start, localOffset).Ok?
    ensures var o := FromDateTime(DateTimeExamples.Start, localOffset).value;
      && AddHours(o, 3).Ok? && Hour(AddHours(o, 3).value) == 13
      && AddHours(o, -3).Ok? && Hour(AddHours(o, -3).value) == 7
  {
    StartAtLocal(localOffset);
    var o := FromDateTime(DateTimeExamples.Start, localOffset).value;
    DateTimeExamples.AddHoursRows();
    RezoneInside(o, DT.AddHours(DateTimeExamples.Start, 3).value);
    RezoneInside(o, DT.AddHours(DateTimeExamples.Start, -3).value);
  }

  /** AddMinutes(5) reads minute 25 and AddMinutes(-5) minute 15, at any local offset. */
  lemma AdditionMinutesRows(localOffset: TS.TimeSpan)
    requires LocalOffset(localOffset)
    ensures FromDateTime(DateTimeExamples.Start, localOffset).Ok?
    ensures var o := FromDateTime(DateTimeExamples.Start, localOffset).value;
      && AddMinutes(o, 5).Ok? && Minute(AddMinutes(o, 5).value) == 25
      && AddMinutes(o, -5).Ok? && Minute(AddMinutes(o, -5).value) == 15
  {
    StartAtLocal(localOffset);
    var o := FromDateTime(DateTimeExamples.Start, localOffset).value;
    DateTimeExamples.AddMinutesRows();
    RezoneInside(o, DT.AddMinutes(DateTimeExamples.Start, 5).value);
    RezoneInside(o, DT.AddMinutes(DateTimeExamples.Start, -5).value);
  }

  /** AddSeconds(30) reads second 35 and AddSeconds(-3) second 2, at any local offset. */
  lemma AdditionSecondsRows(localOffset: TS.TimeSpan)
    requires LocalOffset(localOffset)
    ensures FromDateTime(DateTimeExamples.Start, localOffset).Ok?
    ensures var o := FromDateTime(DateTimeExamples.Start, localOffset).value;
      && AddSeconds(o, 30).Ok? && Second(AddSeconds(o, 30).value) == 35
      && AddSeconds(o, -3).Ok? && Second(AddSeconds(o, -3).value) == 2
  {
    StartAtLocal(localOffset);
    var o := FromDateTime(DateTimeExamples.Start, localOffset).value;
    DateTimeExamples.AddSecondsRows();
    RezoneInside(o, DT.AddSeconds(DateTimeExamples.Start, 30).value);
    RezoneInside(o, DT.AddSeconds(DateTimeExamples.Start, -3).value);
  }

  /** AddMilliseconds(10) reads millisecond 80 and AddMilliseconds(-10) millisecond 60, at any local offset. */
  lemma AdditionMillisecondsRows(localOffset: TS.TimeSpan)
    requires LocalOffset(localOffset)
    ensures FromDateTime(DateTimeExamples.Start, localOffset).Ok?
    ensures var o := FromDateTime(DateTimeExamples.Start, localOffset).value;
      && AddMilliseconds(o, 10).Ok? && Millisecond(AddMilliseconds(o, 10).value) == 80
      && AddMilliseconds(o, -10).Ok? && Millisecond(AddMilliseconds(o, -10).value) == 60
  {
    StartAtLocal(localOffset);
    var o := FromDateTime(DateTimeExamples.Start, localOffset).value;
    DateTimeExamples.AddMillisecondsRows();
    RezoneInside(o, DT.AddMilliseconds(DateTimeExamples.Start, 10).value);
    RezoneInside(o, DT.AddMilliseconds(DateTimeExamples.Start, -10).value);
  }

  /**
   * A local time less its time of day has the ticks of its midnight at the
   * local offset, and adding the time of day back restores its ticks.
   */
  lemma TimeOfDayAtLocal(d: DT.DateTime, localOffset: TS.TimeSpan)
    requires DT.Valid(d) && d.kind == DT.Unspecified && LocalOffset(localOffset)
    requires TS.TicksPerDay <= DT.DateOnly(d).ticks && d.ticks <= DT.MaxTicks - TS.TicksPerDay
    ensures FromDateTime(d, localOffset).Ok? && FromDateTime(DT.DateOnly(d), localOffset).Ok?
    ensures var o := FromDateTime(d, localOffset).value;
      var t := TimeOfDay(o);
      && TS.Valid(t) && SubtractSpan(o, t).Ok?
      && Ticks(SubtractSpan(o, t).value) == Ticks(FromDateTime(DT.DateOnly(d), localOffset).value)
      && Add(SubtractSpan(o, t).value, t).Ok? && Ticks(Add(SubtractSpan(o, t).value, t).value) == Ticks(o)
  {
    InsideAtLocal(d, localOffset);
    InsideAtLocal(DT.DateOnly(d), localOffset);
  }

  /** 2012-06-18 10:05:01 less its time of day has the ticks of 2012-06-18, and adding it back restores the ticks. */
  lemma AddSubtractRow(localOffset: TS.TimeSpan)
    requires LocalOffset(localOffset)
    ensures DT.Create(2012, 6, 18, 10, 5, 1, 0, 0).Ok? && DT.Create(2012, 6, 18, 0, 0, 0, 0, 0).Ok?
    ensures var dt := FromDateTime(DT.Create(2012, 6, 18, 10, 5, 1, 0, 0).value, localOffset);
      var midnight := FromDateTime(DT.Create(2012, 6, 18, 0, 0, 0, 0, 0).value, localOffset);
      && dt.Ok? && midnight.Ok? && SubtractSpan(dt.value, TimeOfDay(dt.value)).Ok?
      && Ticks(SubtractSpan(dt.value, TimeOfDay(dt.value)).value) == Ticks(midnight.value)
      && Add(SubtractSpan(dt.value, TimeOfDay(dt.value)).value, TimeOfDay(dt.value)).Ok?
      && Ticks(Add(SubtractSpan(dt.value, TimeOfDay(dt.value)).value, TimeOfDay(dt.value)).value) == Ticks(dt.value)
  {
    var n := 734671;
    assert DayNumber(2012, 6, 18) == n;
    var d := DT.DateTime(n * TS.TicksPerDay + TS.ComponentTicks(0, 10, 5, 1, 0), DT.Unspecified);
    var midnight := DT.DateTime(n * TS.TicksPerDay, DT.Unspecified);
    assert DT.Create(2012, 6, 18, 10, 5, 1, 0, 0) == Ok(d);
    assert DT.Create(2012, 6, 18, 0, 0, 0, 0, 0) == Ok(midnight);
    DT.DaysAndTime(n, TS.ComponentTicks(0, 10, 5, 1, 0));
    assert DT.DateOnly(d) == midnight;
    TimeOfDayAtLocal(d, localOffset);
  }

  /** A Utc time less a span is the Utc time less it, both at offset zero. */
  lemma UtcSubtract(d: DT.DateTime, t: TS.TimeSpan, localOffset: TS.TimeSpan)
    requires DT.Valid(d) && d.kind == DT.Utc && TS.Valid(t) && DT.SubtractSpan(d, t).Ok?
    ensures FromDateTime(d, localOffset).Ok? && FromDateTime(DT.SubtractSpan(d, t).value, localOffset).Ok?
    ensures SubtractSpan(FromDateTime(d, localOffset).value, t) == FromDateTime(DT.SubtractSpan(d, t).value, localOffset)
  {
    var e := DT.SubtractSpan(d, t).value;
    assert FromDateTime(d, localOffset) == Ok(DateTimeOffset(d.ticks, 0));
    assert FromDateTime(e, localOffset) == Ok(DateTimeOffset(e.ticks, 0));
  }

  /** 2012-06-18 10:05:01 Utc less 10:05:01 is midnight, and less -10:05:01 is 20:10:02, at offset zero. */
  lemma SubtractRows(localOffset: TS.TimeSpan)
    ensures var d := DT.Create(2012, 6, 18, 10, 5, 1, 0, 1);
      && d.Ok? && TS.FromTime(10, 5, 1).Ok? && TS.FromTime(-10, -5, -1).Ok?
      && DT.Create(2012, 6, 18, 0, 0, 0, 0, 1).Ok? && DT.Create(2012, 6, 18, 20, 10, 2, 0, 1).Ok?
      && FromDateTime(d.value, localOffset).Ok?
      && SubtractSpan(FromDateTime(d.value, localOffset).value, TS.FromTime(10, 5, 1).value)
        == FromDateTime(DT.Create(2012, 6, 18, 0, 0, 0, 0, 1).value, localOffset)
      && SubtractSpan(FromDateTime(d.value, localOffset).value, TS.FromTime(-10, -5, -1).value)
        == FromDateTime(DT.Create(2012, 6, 18, 20, 10, 2, 0, 1).value, localOffset)
  {
    DateTimeExamples.SubtractSpanRows();
    var d := DT.Create(2012, 6, 18, 10, 5, 1, 0, 1).value;
    UtcSubtract(d, TS.FromTime(10, 5, 1).value, localOffset);
    UtcSubtract(d, TS.FromTime(-10, -5, -1).value, localOffset);
  }

  /** The difference of two Utc times at offset zero is the difference of the times. */
  lemma UtcDifference(a: DT.DateTime, b: DT.DateTime, localOffset: TS.TimeSpan)
    requires DT.Valid(a) && a.kind == DT.Utc && DT.Valid(b) && b.kind == DT.Utc
    ensures FromDateTime(a, localOffset).Ok? && FromDateTime(b, localOffset).Ok?
    ensures Difference(FromDateTime(a, localOffset).value, FromDateTime(b, localOffset).value) == DT.Difference(a, b)
  {
    assert FromDateTime(a, localOffset) == Ok(DateTimeOffset(a.ticks, 0));
    assert FromDateTime(b, localOffset) == Ok(DateTimeOffset(b.ticks, 0));
  }

  /** 1996-12-06 13:02 Utc less 1996-06-03 22:15 Utc is 185.14:47:00, and the reverse its negation. */
  lemma DifferenceRows(localOffset: TS.TimeSpan)
    ensures var a := DT.Create(1996, 12, 6, 13, 2, 0, 0, 1);
      var b := DT.Create(1996, 6, 3, 22, 15, 0, 0, 1);
      && a.Ok? && b.Ok? && TS.FromDayTime(185, 14, 47, 0).Ok? && TS.FromDayTime(-185, -14, -47, 0).Ok?
      && FromDateTime(a.value, localOffset).Ok? && FromDateTime(b.value, localOffset).Ok?
      && Difference(FromDateTime(a.value, localOffset).value, FromDateTime(b.value, localOffset).value)
        == TS.FromDayTime(185, 14, 47, 0).value
      && Difference(FromDateTime(b.value, localOffset).value, FromDateTime(a.value, localOffset).value)
        == TS.FromDayTime(-185, -14, -47, 0).value
  {
    DateTimeExamples.DifferenceRows();
    var a := DT.Create(1996, 12, 6, 13, 2, 0, 0, 1).value;
    var b := DT.Create(1996, 6, 3, 22, 15, 0, 0, 1).value;
    UtcDifference(a, b, localOffset);
    UtcDifference(b, a, localOffset);
  }

  /** 2012-06-18 at any local offset is a Monday. */
  lemma DayOfWeekRow(localOffset: TS.TimeSpan)
    requires LocalOffset(localOffset)
    ensures DT.Create(2012, 6, 18, 0, 0, 0, 0, 0).Ok?
    ensures var o := FromDateTime(DT.Create(2012, 6, 18, 0, 0, 0, 0, 0).value, localOffset);
      o.Ok? && WeekDay(o.value) == 1
  {
    DateTimeExamples.MondayRow();
    var d := DT.DateTime(734671 * TS.TicksPerDay, DT.Unspecified);
    assert DT.Create(2012, 6, 18, 0, 0, 0, 0, 0) == Ok(d);
    InsideAtLocal(d, localOffset);
  }
}
