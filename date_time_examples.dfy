// The DateTime rows of DateTime.cs, each stated over the model.
module DateTimeExamples {
  import opened Wrappers
  import opened TimeSpans
  import opened Calendar
  import opened DateTimes

  /** new DateTime(999999999999999999) and its Utc twin read 3169-11-16 09:46:39.999. */
  lemma TicksComponents(kind: int)
    requires kind == 0 || kind == 1
    ensures FromTicks(999_999_999_999_999_999, kind).Ok?
    ensures var d := FromTicks(999_999_999_999_999_999, kind).value;
      Shows(d, 3169, 11, 16, 9, 46, 39, 999, kind)
  {
    var d := FromTicks(999_999_999_999_999_999, kind).value;
    assert DayNumber(3169, 11, 16) == 1157407;
    ReadComponents(d, 3169, 11, 16, 9, 46, 39, 999, 9999);
  }

  /** Ticks one outside either limit are out of range; a kind outside 0 to 2 is an ArgumentException. */
  lemma TicksInvalid()
    ensures FromTicks(DateTimes.MinValue.ticks - 1, 0) == Err(ArgumentOutOfRange)
    ensures FromTicks(DateTimes.MaxValue.ticks + 1, 0) == Err(ArgumentOutOfRange)
    ensures FromTicks(DateTimes.MinValue.ticks - 1, 1) == Err(ArgumentOutOfRange)
    ensures FromTicks(DateTimes.MaxValue.ticks + 1, 1) == Err(ArgumentOutOfRange)
    ensures FromTicks(0, -1) == Err(Argument) && FromTicks(0, 3) == Err(Argument)
  {
  }

  /** What VerifyDateTime checks: every component and the kind. */
  predicate Shows(d: DateTime, year: int, month: int, day: int, hour: int, minute: int, second: int, millisecond: int, kind: int)
    requires DateTimes.Valid(d)
  {
    Year(d) == year && Month(d) == month && Day(d) == day && Hour(d) == hour && Minute(d) == minute
    && Second(d) == second && Millisecond(d) == millisecond && KindValue(d.kind) == kind
  }

  /** new DateTime(2012, 6, 11) reads back what it was given. */
  lemma CtorDate()
    ensures Create(2012, 6, 11, 0, 0, 0, 0, 0).Ok? && Shows(Create(2012, 6, 11, 0, 0, 0, 0, 0).value, 2012, 6, 11, 0, 0, 0, 0, 0)
  {
    CreateReadBack(2012, 6, 11, 0, 0, 0, 0, 0);
  }

  /** new DateTime(2012, 12, 31, 13, 50, 10) reads back what it was given. */
  lemma CtorDateTime()
    ensures Create(2012, 12, 31, 13, 50, 10, 0, 0).Ok? && Shows(Create(2012, 12, 31, 13, 50, 10, 0, 0).value, 2012, 12, 31, 13, 50, 10, 0, 0)
  {
    CreateReadBack(2012, 12, 31, 13, 50, 10, 0, 0);
  }

  /** new DateTime(1986, 8, 15, 10, 20, 5, Local) reads back what it was given. */
  lemma CtorDateTimeKind()
    ensures Create(1986, 8, 15, 10, 20, 5, 0, 2).Ok? && Shows(Create(1986, 8, 15, 10, 20, 5, 0, 2).value, 1986, 8, 15, 10, 20, 5, 0, 2)
  {
    CreateReadBack(1986, 8, 15, 10, 20, 5, 0, 2);
  }

  /** new DateTime(1973, 10, 6, 14, 30, 0, 500) reads back what it was given. */
  lemma CtorMilliseconds()
    ensures Create(1973, 10, 6, 14, 30, 0, 500, 0).Ok? && Shows(Create(1973, 10, 6, 14, 30, 0, 500, 0).value, 1973, 10, 6, 14, 30, 0, 500, 0)
  {
    CreateReadBack(1973, 10, 6, 14, 30, 0, 500, 0);
  }

  /** new DateTime(1986, 8, 15, 10, 20, 5, 600, Local) reads back what it was given. */
  lemma CtorMillisecondsKind()
    ensures Create(1986, 8, 15, 10, 20, 5, 600, 2).Ok? && Shows(Create(1986, 8, 15, 10, 20, 5, 600, 2).value, 1986, 8, 15, 10, 20, 5, 600, 2)
  {
    CreateReadBack(1986, 8, 15, 10, 20, 5, 600, 2);
  }

  /** Every out-of-range component is an ArgumentOutOfRangeException, whatever the kind. */
  lemma ConstructorInvalid(kind: int)
    requires 0 <= kind <= 2
    ensures Create(0, 1, 1, 1, 1, 1, 1, kind) == Err(ArgumentOutOfRange)
    ensures Create(10000, 1, 1, 1, 1, 1, 1, kind) == Err(ArgumentOutOfRange)
    ensures Create(1, 0, 1, 1, 1, 1, 1, kind) == Err(ArgumentOutOfRange)
    ensures Create(1, 13, 1, 1, 1, 1, 1, kind) == Err(ArgumentOutOfRange)
    ensures Create(1, 1, 0, 1, 1, 1, 1, kind) == Err(ArgumentOutOfRange)
    ensures Create(1, 1, 32, 1, 1, 1, 1, kind) == Err(ArgumentOutOfRange)
    ensures Create(1, 1, 1, -1, 1, 1, 1, kind) == Err(ArgumentOutOfRange)
    ensures Create(1, 1, 1, 24, 1, 1, 1, kind) == Err(ArgumentOutOfRange)
    ensures Create(1, 1, 1, 1, -1, 1, 1, kind) == Err(ArgumentOutOfRange)
    ensures Create(1, 1, 1, 1, 60, 1, 1, kind) == Err(ArgumentOutOfRange)
    ensures Create(1, 1, 1, 1, 1, -1, 1, kind) == Err(ArgumentOutOfRange)
    ensures Create(1, 1, 1, 1, 1, 60, 1, kind) == Err(ArgumentOutOfRange)
    ensures Create(1, 1, 1, 1, 1, 1, -1, kind) == Err(ArgumentOutOfRange)
    ensures Create(1, 1, 1, 1, 1, 1, 1000, kind) == Err(ArgumentOutOfRange)
  {
  }

  /** A kind outside 0 to 2 with valid components is an ArgumentException. */
  lemma ConstructorKindInvalid()
    ensures Create(1, 1, 1, 1, 1, 1, 0, -1) == Err(Argument) && Create(1, 1, 1, 1, 1, 1, 0, 3) == Err(Argument)
    ensures Create(1, 1, 1, 1, 1, 1, 1, -1) == Err(Argument) && Create(1, 1, 1, 1, 1, 1, 1, 3) == Err(Argument)
  {
  }

  /** MaxValue reads 9999-12-31 23:59:59.999, Unspecified. */
  lemma MaxValueFields()
    ensures Shows(DateTimes.MaxValue, 9999, 12, 31, 23, 59, 59, 999, 0)
  {
    assert DayNumber(9999, 12, 31) == 3652058;
    ReadComponents(DateTimes.MaxValue, 9999, 12, 31, 23, 59, 59, 999, 9999);
  }

  /** MinValue reads 0001-01-01 00:00:00.000, Unspecified. */
  lemma MinValueFields()
    ensures Shows(DateTimes.MinValue, 1, 1, 1, 0, 0, 0, 0, 0)
  {
    ReadComponents(DateTimes.MinValue, 1, 1, 1, 0, 0, 0, 0, 0);
  }

  lemma LeapYears()
    ensures IsLeapYear(2004) == Ok(true) && IsLeapYear(2005) == Ok(false)
  {
  }

  /** The DateTime that the addition rows start from: 1986-08-15 10:20:05.070. */
  const Start := DateTime(626_600_448_000_000_000 + ComponentTicks(0, 10, 20, 5, 70), Unspecified)

  lemma StartFields()
    ensures Create(1986, 8, 15, 10, 20, 5, 70, 0) == Ok(Start)
    ensures Shows(Start, 1986, 8, 15, 10, 20, 5, 70, 0) && DayOf(Start) == DayNumber(1986, 8, 15)
  {
    assert DayNumber(1986, 8, 15) == 725232;
    ReadComponents(Start, 1986, 8, 15, 10, 20, 5, 70, 0);
  }

  /** A field read modulo its bound moves by a shift that keeps it within the bound. */
  lemma ShiftField(q: int, bound: int, field: int, value: int)
    requires q >= 0 && bound > 0 && q % bound == field && 0 <= field + value < bound
    ensures (q + value) % bound == field + value
  {
    DivModUnique(q + value, bound, q / bound, field + value);
  }

  /** AddDays reads the day moved by the days added while it stays in August; the rows add 2 and -2. */
  lemma AddDaysRows(value: int)
    requires -14 <= value <= 16
    ensures AddDays(Start, value).Ok? && Day(AddDays(Start, value).value) == 15 + value
  {
    StartFields();
    AddDaysFields(Start, value);
    DateOfDayNumber(1986, 8, 15 + value);
  }

  /** AddMonths reads the month moved by the months added within 1986; the rows add 2 and -2. */
  lemma AddMonthsRows(value: int)
    requires -7 <= value <= 4
    ensures AddMonths(Start, value).Ok? && Month(AddMonths(Start, value).value) == 8 + value
  {
    StartFields();
    assert ShiftMonth(1986, 8, value).year == 1986;
    AddMonthsFields(Start, value);
    var r := AddMonths(Start, value).value;
    var y, m := Year(r), Month(r);
    assert y * 12 + m == 1986 * 12 + 8 + value && 1 <= m <= 12;
    assert y == 1986;
  }

  /** AddYears(10) reads year 1996 and AddYears(-10) year 1976. */
  lemma AddYearsRows()
    ensures AddYears(Start, 10).Ok? && Year(AddYears(Start, 10).value) == 1996
    ensures AddYears(Start, -10).Ok? && Year(AddYears(Start, -10).value) == 1976
  {
    StartFields();
    AddYearsFields(Start, 10);
    AddYearsFields(Start, -10);
  }

  /** AddHours(3) reads hour 13 and AddHours(-3) hour 7. */
  lemma AddHoursRows()
    ensures AddHours(Start, 3).Ok? && Hour(AddHours(Start, 3).value) == 13
    ensures AddHours(Start, -3).Ok? && Hour(AddHours(Start, -3).value) == 7
  {
    StartFields();
    AddHoursFields(Start, 3);
    AddHoursFields(Start, -3);
    ShiftField(Start.ticks / TicksPerHour, 24, 10, 3);
    ShiftField(Start.ticks / TicksPerHour, 24, 10, -3);
  }

  /** AddMinutes(5) reads minute 25 and AddMinutes(-5) minute 15. */
  lemma AddMinutesRows()
    ensures AddMinutes(Start, 5).Ok? && Minute(AddMinutes(Start, 5).value) == 25
    ensures AddMinutes(Start, -5).Ok? && Minute(AddMinutes(Start, -5).value) == 15
  {
    StartFields();
    AddMinutesFields(Start, 5);
    AddMinutesFields(Start, -5);
    ShiftField(Start.ticks / TicksPerMinute, 60, 20, 5);
    ShiftField(Start.ticks / TicksPerMinute, 60, 20, -5);
  }

  /** AddSeconds(30) reads second 35 and AddSeconds(-3) second 2. */
  lemma AddSecondsRows()
    ensures AddSeconds(Start, 30).Ok? && Second(AddSeconds(Start, 30).value) == 35
    ensures AddSeconds(Start, -3).Ok? && Second(AddSeconds(Start, -3).value) == 2
  {
    StartFields();
    AddSecondsFields(Start, 30);
    AddSecondsFields(Start, -3);
    ShiftField(Start.ticks / TicksPerSecond, 60, 5, 30);
    ShiftField(Start.ticks / TicksPerSecond, 60, 5, -3);
  }

  /** AddMilliseconds(10) reads millisecond 80 and AddMilliseconds(-10) millisecond 60. */
  lemma AddMillisecondsRows()
    ensures AddMilliseconds(Start, 10).Ok? && Millisecond(AddMilliseconds(Start, 10).value) == 80
    ensures AddMilliseconds(Start, -10).Ok? && Millisecond(AddMilliseconds(Start, -10).value) == 60
  {
    StartFields();
    AddMillisecondsFields(Start, 10);
    AddMillisecondsFields(Start, -10);
    ShiftField(Start.ticks / TicksPerMillisecond, 1000, 70, 10);
    ShiftField(Start.ticks / TicksPerMillisecond, 1000, 70, -10);
  }

  /** 2012-06-18 is a Monday. */
  lemma MondayRow()
    ensures Create(2012, 6, 18, 0, 0, 0, 0, 0).Ok? && WeekDay(Create(2012, 6, 18, 0, 0, 0, 0, 0).value) == 1
  {
    assert DayNumber(2012, 6, 18) == 734671;
    var d := DateTime(734671 * TicksPerDay, Unspecified);
    assert Create(2012, 6, 18, 0, 0, 0, 0, 0) == Ok(d);
    DivModUnique(d.ticks, TicksPerDay, 734671, 0);
  }

  /** 2012-06-18 10:05:01 less its time of day is midnight of that day, and adding the time of day back restores it. */
  lemma TimeOfDayRow()
    ensures Create(2012, 6, 18, 10, 5, 1, 0, 0).Ok? && Create(2012, 6, 18, 0, 0, 0, 0, 0).Ok?
    ensures var d := Create(2012, 6, 18, 10, 5, 1, 0, 0).value;
      && SubtractSpan(d, TimeOfDay(d)).Ok?
      && SubtractSpan(d, TimeOfDay(d)).value.ticks == Create(2012, 6, 18, 0, 0, 0, 0, 0).value.ticks
      && DateTimes.Add(SubtractSpan(d, TimeOfDay(d)).value, TimeOfDay(d)) == Ok(d)
  {
    var d := Create(2012, 6, 18, 10, 5, 1, 0, 0).value;
    assert DayNumber(2012, 6, 18) == 734671;
    ReadComponents(d, 2012, 6, 18, 10, 5, 1, 0, 0);
    TimeOfDayRoundTrip(d);
    assert DateOnly(d).ticks == 734671 * TicksPerDay;
  }

  /** 2012-06-18 10:05:01 Utc less 10:05:01 is midnight, and less -10:05:01 is 20:10:02, both Utc. */
  lemma SubtractSpanRows()
    ensures var d := Create(2012, 6, 18, 10, 5, 1, 0, 1);
      && d.Ok? && FromTime(10, 5, 1).Ok? && FromTime(-10, -5, -1).Ok?
      && Create(2012, 6, 18, 0, 0, 0, 0, 1).Ok? && Create(2012, 6, 18, 20, 10, 2, 0, 1).Ok?
      && SubtractSpan(d.value, FromTime(10, 5, 1).value) == Create(2012, 6, 18, 0, 0, 0, 0, 1)
      && SubtractSpan(d.value, FromTime(-10, -5, -1).value) == Create(2012, 6, 18, 20, 10, 2, 0, 1)
  {
    assert DayNumber(2012, 6, 18) == 734671;
  }

  /** 1996-12-06 13:02 less 1996-06-03 22:15 is 185.14:47:00, and the reverse its negation. */
  lemma DifferenceRows()
    ensures var a := Create(1996, 12, 6, 13, 2, 0, 0, 1);
      var b := Create(1996, 6, 3, 22, 15, 0, 0, 1);
      && a.Ok? && b.Ok? && FromDayTime(185, 14, 47, 0).Ok? && FromDayTime(-185, -14, -47, 0).Ok?
      && Difference(a.value, b.value) == FromDayTime(185, 14, 47, 0).value
      && Difference(b.value, a.value) == FromDayTime(-185, -14, -47, 0).value
  {
    assert DayNumber(1996, 12, 6) == 728998;
    assert DayNumber(1996, 6, 3) == 728812;
  }
}
