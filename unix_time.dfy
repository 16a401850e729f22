// Unix time: milliseconds or seconds since 1970-01-01 00:00:00 UTC, to and
// from a DateTimeOffset (DateTimeOffset.ToUnixTimeMilliseconds and
// friends), and the TestTime helper of DateTimeOffset.UnixTimeConversions.cs
// that derives the expected seconds from the expected milliseconds.
module UnixTimes {
  import opened Wrappers
  import TS = TimeSpans
  import DT = DateTimes
  import opened DateTimeOffsets

  /** The ticks, seconds and milliseconds from 0001-01-01 to the Unix epoch. */
  const EpochTicks: int := 621_355_968_000_000_000
  const EpochSeconds: int := 62_135_596_800
  const EpochMilliseconds: int := 62_135_596_800_000

  /** The Unix times of DateTimeOffset.MinValue and of the last millisecond and second of MaxValue. */
  const MinMilliseconds: int := -62_135_596_800_000
  const MaxMilliseconds: int := 253_402_300_799_999
  const MinSeconds: int := -62_135_596_800
  const MaxSeconds: int := 253_402_300_799

  /** ToUnixTimeMilliseconds: the whole milliseconds of the UTC ticks, less the epoch's. */
  function ToMilliseconds(o: DateTimeOffset): (ms: int)
    requires Valid(o)
    ensures MinMilliseconds <= ms <= MaxMilliseconds
    ensures (ms + EpochMilliseconds) * TS.TicksPerMillisecond <= o.utcTicks < (ms + EpochMilliseconds + 1) * TS.TicksPerMillisecond
  {
    o.utcTicks / TS.TicksPerMillisecond - EpochMilliseconds
  }

  /** ToUnixTimeSeconds: the whole seconds of the UTC ticks, less the epoch's. */
  function ToSeconds(o: DateTimeOffset): (s: int)
    requires Valid(o)
    ensures MinSeconds <= s <= MaxSeconds
    ensures (s + EpochSeconds) * TS.TicksPerSecond <= o.utcTicks < (s + EpochSeconds + 1) * TS.TicksPerSecond
  {
    o.utcTicks / TS.TicksPerSecond - EpochSeconds
  }

  /** FromUnixTimeMilliseconds: ArgumentOutOfRangeException outside DateTimeOffset's range; the offset is zero. */
  function FromMilliseconds(ms: int): (r: Result<DateTimeOffset>)
    ensures r.Ok? <==> MinMilliseconds <= ms <= MaxMilliseconds
    ensures r.Ok? ==> Valid(r.value) && r.value.offsetMinutes == 0 && r.value.utcTicks == ms * TS.TicksPerMillisecond + EpochTicks
    ensures r.Err? ==> r.error == ArgumentOutOfRange
  {
    if ms < MinMilliseconds || ms > MaxMilliseconds then Err(ArgumentOutOfRange)
    else Ok(DateTimeOffset(ms * TS.TicksPerMillisecond + EpochTicks, 0))
  }

  /** FromUnixTimeSeconds: ArgumentOutOfRangeException outside DateTimeOffset's range; the offset is zero. */
  function FromSeconds(s: int): (r: Result<DateTimeOffset>)
    ensures r.Ok? <==> MinSeconds <= s <= MaxSeconds
    ensures r.Ok? ==> Valid(r.value) && r.value.offsetMinutes == 0 && r.value.utcTicks == s * TS.TicksPerSecond + EpochTicks
    ensures r.Err? ==> r.error == ArgumentOutOfRange
  {
    if s < MinSeconds || s > MaxSeconds then Err(ArgumentOutOfRange)
    else Ok(DateTimeOffset(s * TS.TicksPerSecond + EpochTicks, 0))
  }

  /** A test time: an instant with its expected Unix milliseconds and seconds. */
  datatype TestTime = TestTime(instant: DateTimeOffset, milliseconds: int, seconds: int)

  /**
   * TestTime.FromMilliseconds: the seconds are the milliseconds divided by
   * 1000, truncated, then one less for a negative count with a part below
   * a second, so that they round towards 0001-01-01.
   */
  method TestTimeOfMilliseconds(instant: DateTimeOffset, milliseconds: int) returns (t: TestTime)
    ensures t.instant == instant && t.milliseconds == milliseconds
    ensures t.seconds * 1000 <= milliseconds < t.seconds * 1000 + 1000
  {
    var seconds := TruncDiv(milliseconds, 1000);
    var hasSubSecondPrecision := TruncRem(milliseconds, 1000) != 0;
    TruncRemIdentity(milliseconds, 1000);
    TruncDivBounds(milliseconds, 1000);
    if milliseconds < 0 && hasSubSecondPrecision {
      seconds := seconds - 1;
    }
    t := TestTime(instant, milliseconds, seconds);
  }

  /**
   * TestTime.FromSeconds: a test case whose milliseconds are a whole number
   * of seconds, so that they fall within the stated second and convert
   * back to it exactly.
   */
  method TestTimeOfSeconds(instant: DateTimeOffset, seconds: int) returns (t: TestTime)
    ensures t.instant == instant && t.seconds == seconds
    ensures t.seconds * 1000 <= t.milliseconds < t.seconds * 1000 + 1000
    ensures t.milliseconds % 1000 == 0
  {
    t := TestTime(instant, seconds * 1000, seconds);
  }

  // ---- Lemmas ----

  /** The Unix seconds of an instant are its Unix milliseconds divided by 1000, rounded down. */
  lemma SecondsOfMilliseconds(o: DateTimeOffset)
    requires Valid(o)
    ensures ToSeconds(o) == ToMilliseconds(o) / 1000
    ensures ToSeconds(o) * 1000 <= ToMilliseconds(o) < ToSeconds(o) * 1000 + 1000
  {
    var ms := o.utcTicks / TS.TicksPerMillisecond;
    DivModUnique(o.utcTicks, TS.TicksPerSecond, ms / 1000, o.utcTicks - ms / 1000 * TS.TicksPerSecond);
    DivModUnique(ms - EpochMilliseconds, 1000, ms / 1000 - EpochSeconds, ms % 1000);
  }

  /** Unix milliseconds read back from the instant they make. */
  lemma MillisecondsRoundTrip(ms: int)
    requires MinMilliseconds <= ms <= MaxMilliseconds
    ensures ToMilliseconds(FromMilliseconds(ms).value) == ms
  {
    DivModUnique(ms * TS.TicksPerMillisecond + EpochTicks, TS.TicksPerMillisecond, ms + EpochMilliseconds, 0);
  }

  /** Unix seconds read back from the instant they make. */
  lemma SecondsRoundTrip(s: int)
    requires MinSeconds <= s <= MaxSeconds
    ensures ToSeconds(FromSeconds(s).value) == s
  {
    DivModUnique(s * TS.TicksPerSecond + EpochTicks, TS.TicksPerSecond, s + EpochSeconds, 0);
  }

  /** An instant taken to Unix milliseconds and back is its UTC ticks truncated to the millisecond, at offset zero. */
  lemma InstantRoundTripMilliseconds(o: DateTimeOffset)
    requires Valid(o)
    ensures FromMilliseconds(ToMilliseconds(o)).Ok?
    ensures FromMilliseconds(ToMilliseconds(o)).value.utcTicks == o.utcTicks / TS.TicksPerMillisecond * TS.TicksPerMillisecond
  {
  }

  /** An instant taken to Unix seconds and back is its UTC ticks truncated to the second, at offset zero. */
  lemma InstantRoundTripSeconds(o: DateTimeOffset)
    requires Valid(o)
    ensures FromSeconds(ToSeconds(o)).Ok?
    ensures FromSeconds(ToSeconds(o)).value.utcTicks == o.utcTicks / TS.TicksPerSecond * TS.TicksPerSecond
  {
  }

  /** The seconds a TestTime derives from an instant's Unix milliseconds are the instant's Unix seconds. */
  lemma TestTimeSeconds(o: DateTimeOffset, t: TestTime)
    requires Valid(o) && t.milliseconds == ToMilliseconds(o)
    requires t.seconds * 1000 <= t.milliseconds < t.seconds * 1000 + 1000
    ensures t.seconds == ToSeconds(o)
  {
    SecondsOfMilliseconds(o);
  }
}
