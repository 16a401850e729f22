// The rows of DateTimeOffset.UnixTimeConversions.cs: instants with the Unix
// milliseconds they are expected to read, the seconds TestTime derives from
// those milliseconds, and the values the conversions refuse.
module UnixTimeExamples {
  import opened Wrappers
  import TS = TimeSpans
  import DT = DateTimes
  import opened Calendar
  import opened DateTimeOffsets
  import opened UnixTimes

  /**
   * An instant built from components at offset zero, on day number n, reads
   * the Unix milliseconds its components add up to, and the whole seconds
   * below them.
   */
  lemma CreateReads(year: int, month: int, day: int, hour: int, minute: int, second: int, millisecond: int, n: int, ms: int, s: int)
    requires ValidDate(year, month, day) && DT.ValidTime(hour, minute, second) && 0 <= millisecond < 1000
    requires DayNumber(year, month, day) == n
    requires n * 86_400_000 + hour * 3_600_000 + minute * 60_000 + second * 1000 + millisecond - EpochMilliseconds == ms
    requires s * 1000 <= ms < s * 1000 + 1000
    ensures Create(year, month, day, hour, minute, second, millisecond, TS.Zero).Ok?
    ensures var o := Create(year, month, day, hour, minute, second, millisecond, TS.Zero).value;
      ToMilliseconds(o) == ms && ToSeconds(o) == s
  {
    DT.ReadParts(n, hour, minute, second, millisecond, 0);
    var o := Create(year, month, day, hour, minute, second, millisecond, TS.Zero).value;
    assert o.utcTicks == (ms + EpochMilliseconds) * TS.TicksPerMillisecond;
    DivModUnique(o.utcTicks, TS.TicksPerMillisecond, ms + EpochMilliseconds, 0);
    SecondsOfMilliseconds(o);
    DivModUnique(ms, 1000, s, ms - s * 1000);
  }

  /** MinValue reads -62135596800000 ms and -62135596800 s; MaxValue 253402300799999 ms and 253402300799 s. */
  lemma LimitRows()
    ensures ToMilliseconds(MinValue) == -62_135_596_800_000 && ToSeconds(MinValue) == -62_135_596_800
    ensures ToMilliseconds(MaxValue) == 253_402_300_799_999 && ToSeconds(MaxValue) == 253_402_300_799
  {
  }

  /** 1970-01-01 00:00:00 is 0, and 2014-06-13 17:21:50 is 1402680110000 ms. */
  lemma EpochRows()
    ensures var o := Create(1970, 1, 1, 0, 0, 0, 0, TS.Zero);
      o.Ok? && ToMilliseconds(o.value) == 0 && ToSeconds(o.value) == 0
    ensures var o := Create(2014, 6, 13, 17, 21, 50, 0, TS.Zero);
      o.Ok? && ToMilliseconds(o.value) == 1_402_680_110_000 && ToSeconds(o.value) == 1_402_680_110
  {
    CreateReads(1970, 1, 1, 0, 0, 0, 0, 719_162, 0, 0);
    CreateReads(2014, 6, 13, 17, 21, 50, 0, 735_396, 1_402_680_110_000, 1_402_680_110);
  }

  /** 2830-12-15 01:23:45 is 27169089825000 ms, and with 399 ms 27169089825399 ms, both in second 27169089825. */
  lemma FarFutureRows()
    ensures var o := Create(2830, 12, 15, 1, 23, 45, 0, TS.Zero);
      o.Ok? && ToMilliseconds(o.value) == 27_169_089_825_000 && ToSeconds(o.value) == 27_169_089_825
    ensures var o := Create(2830, 12, 15, 1, 23, 45, 399, TS.Zero);
      o.Ok? && ToMilliseconds(o.value) == 27_169_089_825_399 && ToSeconds(o.value) == 27_169_089_825
  {
    CreateReads(2830, 12, 15, 1, 23, 45, 0, 1_033_619, 27_169_089_825_000, 27_169_089_825);
    CreateReads(2830, 12, 15, 1, 23, 45, 399, 1_033_619, 27_169_089_825_399, 27_169_089_825);
  }

  /** 9999-12-30 23:24:25 is 253402212265000 ms. */
  lemma LastDaysRow()
    ensures var o := Create(9999, 12, 30, 23, 24, 25, 0, TS.Zero);
      o.Ok? && ToMilliseconds(o.value) == 253_402_212_265_000 && ToSeconds(o.value) == 253_402_212_265
  {
    CreateReads(9999, 12, 30, 23, 24, 25, 0, 3_652_057, 253_402_212_265_000, 253_402_212_265);
  }

  /**
   * 1907-07-07 07:07:07 is -1971967973000 ms; with 1 ms and 777 ms it is
   * -1971967972999 and -1971967972223 ms, and all three lie in second
   * -1971967973, rounded down towards 0001-01-01.
   */
  lemma BeforeEpochRows()
    ensures var o := Create(1907, 7, 7, 7, 7, 7, 0, TS.Zero);
      o.Ok? && ToMilliseconds(o.value) == -1_971_967_973_000 && ToSeconds(o.value) == -1_971_967_973
    ensures var o := Create(1907, 7, 7, 7, 7, 7, 1, TS.Zero);
      o.Ok? && ToMilliseconds(o.value) == -1_971_967_972_999 && ToSeconds(o.value) == -1_971_967_973
    ensures var o := Create(1907, 7, 7, 7, 7, 7, 777, TS.Zero);
      o.Ok? && ToMilliseconds(o.value) == -1_971_967_972_223 && ToSeconds(o.value) == -1_971_967_973
  {
    CreateReads(1907, 7, 7, 7, 7, 7, 0, 696_338, -1_971_967_973_000, -1_971_967_973);
    CreateReads(1907, 7, 7, 7, 7, 7, 1, 696_338, -1_971_967_972_999, -1_971_967_973);
    CreateReads(1907, 7, 7, 7, 7, 7, 777, 696_338, -1_971_967_972_223, -1_971_967_973);
  }

  /** The ticks 601636288270011234 at offset zero read -1971967972999 ms, dropping the ticks below a millisecond. */
  lemma TicksRow()
    ensures var o := FromTicks(601_636_288_270_011_234, TS.Zero);
      o.Ok? && ToMilliseconds(o.value) == -1_971_967_972_999 && ToSeconds(o.value) == -1_971_967_973
  {
    var o := FromTicks(601_636_288_270_011_234, TS.Zero).value;
    assert o.utcTicks == 601_636_288_270_011_234;
  }

  /** Values beyond long's range or DateTimeOffset's are ArgumentOutOfRangeException, in milliseconds and in seconds. */
  lemma InvalidRows()
    ensures FromMilliseconds(Int64Min) == Err(ArgumentOutOfRange)
    ensures FromMilliseconds(Int64Max) == Err(ArgumentOutOfRange)
    ensures FromMilliseconds(-62_135_596_800_001) == Err(ArgumentOutOfRange)
    ensures FromMilliseconds(253_402_300_800_000) == Err(ArgumentOutOfRange)
    ensures FromSeconds(Int64Min) == Err(ArgumentOutOfRange)
    ensures FromSeconds(Int64Max) == Err(ArgumentOutOfRange)
    ensures FromSeconds(-62_135_596_801) == Err(ArgumentOutOfRange)
    ensures FromSeconds(253_402_300_800) == Err(ArgumentOutOfRange)
  {
  }

  /**
   * What each row checks, for any instant a row names: the TestTime built
   * from its milliseconds carries its Unix seconds, converting back from the
   * milliseconds or the seconds gives its UTC ticks truncated to that unit,
   * and converting that instant forward again gives the same count.
   */
  method CheckRow(o: DateTimeOffset) returns (t: TestTime)
    requires Valid(o)
    ensures t.instant == o && t.milliseconds == ToMilliseconds(o) && t.seconds == ToSeconds(o)
    ensures FromMilliseconds(t.milliseconds).Ok? && FromSeconds(t.seconds).Ok?
    ensures FromMilliseconds(t.milliseconds).value.utcTicks == o.utcTicks / TS.TicksPerMillisecond * TS.TicksPerMillisecond
    ensures FromSeconds(t.seconds).value.utcTicks == o.utcTicks / TS.TicksPerSecond * TS.TicksPerSecond
    ensures ToMilliseconds(FromMilliseconds(t.milliseconds).value) == t.milliseconds
    ensures ToSeconds(FromSeconds(t.seconds).value) == t.seconds
  {
    t := TestTimeOfMilliseconds(o, ToMilliseconds(o));
    TestTimeSeconds(o, t);
    InstantRoundTripMilliseconds(o);
    InstantRoundTripSeconds(o);
    MillisecondsRoundTrip(t.milliseconds);
    SecondsRoundTrip(t.seconds);
  }
}
