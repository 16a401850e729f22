// TimeSpan: a signed count of 100-nanosecond ticks in a 64-bit integer,
// read back as days, hours, minutes, seconds and milliseconds that all
// truncate toward zero (TimeSpan.cs).
module TimeSpans {
  import opened Wrappers
  import opened Digits

  const TicksPerMillisecond: int := 10_000
  const TicksPerSecond: int := 10_000_000
  const TicksPerMinute: int := 600_000_000
  const TicksPerHour: int := 36_000_000_000
  const TicksPerDay: int := 864_000_000_000

  /** long.MaxValue / TicksPerMillisecond and long.MinValue / TicksPerMillisecond, truncated. */
  const MaxMilliseconds: int := 922_337_203_685_477
  const MinMilliseconds: int := -922_337_203_685_477

  /** long.MaxValue / TicksPerSecond and long.MinValue / TicksPerSecond, truncated. */
  const MaxSeconds: int := 922_337_203_685
  const MinSeconds: int := -922_337_203_685

  datatype TimeSpan = TimeSpan(ticks: int)

  predicate Valid(t: TimeSpan) { IsInt64(t.ticks) }

  /** new TimeSpan() and default(TimeSpan) are both Zero. */
  const Zero := TimeSpan(0)
  const MaxValue := TimeSpan(Int64Max)
  const MinValue := TimeSpan(Int64Min)

  /**
   * The component properties: C#'s truncating `/` and `%` on the ticks. Each
   * has the sign of the ticks (or is zero); Days counts the whole days in the
   * span's magnitude, and the others stay below their unit's bound.
   */
  function Days(t: TimeSpan): (d: int)
    ensures d == 0 || (d > 0) == (t.ticks > 0)
    ensures Abs(d) * TicksPerDay <= Abs(t.ticks) < (Abs(d) + 1) * TicksPerDay
  {
    TruncDivBounds(t.ticks, TicksPerDay);
    TruncDiv(t.ticks, TicksPerDay)
  }

  function Hours(t: TimeSpan): (h: int)
    ensures -24 < h < 24 && (h == 0 || (h > 0) == (t.ticks > 0))
  {
    TruncRem(TruncDiv(t.ticks, TicksPerHour), 24)
  }

  function Minutes(t: TimeSpan): (m: int)
    ensures -60 < m < 60 && (m == 0 || (m > 0) == (t.ticks > 0))
  {
    TruncRem(TruncDiv(t.ticks, TicksPerMinute), 60)
  }

  function Seconds(t: TimeSpan): (s: int)
    ensures -60 < s < 60 && (s == 0 || (s > 0) == (t.ticks > 0))
  {
    TruncRem(TruncDiv(t.ticks, TicksPerSecond), 60)
  }

  function Milliseconds(t: TimeSpan): (ms: int)
    ensures -1000 < ms < 1000 && (ms == 0 || (ms > 0) == (t.ticks > 0))
  {
    TruncRem(TruncDiv(t.ticks, TicksPerMillisecond), 1000)
  }

  /** The ticks that days, hours, minutes, seconds and milliseconds add up to. */
  function ComponentTicks(d: int, h: int, m: int, s: int, ms: int): int {
    d * TicksPerDay + h * TicksPerHour + m * TicksPerMinute + s * TicksPerSecond + ms * TicksPerMillisecond
  }

  /** Components that a span reads back: all of one sign, each below its unit's bound. */
  predicate Normal(d: int, h: int, m: int, s: int, ms: int) {
    || (d >= 0 && 0 <= h < 24 && 0 <= m < 60 && 0 <= s < 60 && 0 <= ms < 1000)
    || (d <= 0 && -24 < h <= 0 && -60 < m <= 0 && -60 < s <= 0 && -1000 < ms <= 0)
  }

  /**
   * new TimeSpan(hours, minutes, seconds): the total seconds, in 64 bits,
   * must lie within the range of the span.
   */
  function FromTime(hours: int, minutes: int, seconds: int): (r: Result<TimeSpan>)
    requires IsInt32(hours) && IsInt32(minutes) && IsInt32(seconds)
    ensures r.Ok? <==> IsInt64(ComponentTicks(0, hours, minutes, seconds, 0))
    ensures r.Ok? ==> r.value == TimeSpan(ComponentTicks(0, hours, minutes, seconds, 0))
    ensures r.Err? ==> r.error == ArgumentOutOfRange
  {
    var totalSeconds := hours * 3600 + minutes * 60 + seconds;
    if totalSeconds > MaxSeconds || totalSeconds < MinSeconds then Err(ArgumentOutOfRange)
    else Ok(TimeSpan(totalSeconds * TicksPerSecond))
  }

  /**
   * new TimeSpan(days, hours, minutes, seconds, milliseconds): the total
   * milliseconds, in 64 bits, must lie within the range of the span.
   */
  function FromComponents(days: int, hours: int, minutes: int, seconds: int, milliseconds: int): (r: Result<TimeSpan>)
    requires IsInt32(days) && IsInt32(hours) && IsInt32(minutes) && IsInt32(seconds) && IsInt32(milliseconds)
    ensures r.Ok? <==> IsInt64(ComponentTicks(days, hours, minutes, seconds, milliseconds))
    ensures r.Ok? ==> r.value == TimeSpan(ComponentTicks(days, hours, minutes, seconds, milliseconds))
    ensures r.Err? ==> r.error == ArgumentOutOfRange
  {
    var totalMilliseconds := (days * 3600 * 24 + hours * 3600 + minutes * 60 + seconds) * 1000 + milliseconds;
    if totalMilliseconds > MaxMilliseconds || totalMilliseconds < MinMilliseconds then Err(ArgumentOutOfRange)
    else Ok(TimeSpan(totalMilliseconds * TicksPerMillisecond))
  }

  /** new TimeSpan(days, hours, minutes, seconds). */
  function FromDayTime(days: int, hours: int, minutes: int, seconds: int): (r: Result<TimeSpan>)
    requires IsInt32(days) && IsInt32(hours) && IsInt32(minutes) && IsInt32(seconds)
    ensures r == FromComponents(days, hours, minutes, seconds, 0)
  {
    FromComponents(days, hours, minutes, seconds, 0)
  }

  /**
   * TimeSpan.Interval behind FromDays through FromMilliseconds: the value
   * in milliseconds is rounded half away from zero and must stay strictly
   * inside the millisecond range once rounded, else OverflowException.
   * The argument is integral here, so the rounding only adds the half.
   */
  function Interval(value: int, scale: int): (r: Result<TimeSpan>)
    requires scale >= 1
    ensures r.Ok? <==> MinMilliseconds < value * scale < MaxMilliseconds
    ensures r.Ok? ==> Valid(r.value) && r.value.ticks == value * scale * TicksPerMillisecond
    ensures r.Err? ==> r.error == Overflow
  {
    var millis := value * scale;
    // millis + 0.5 > MaxMilliseconds, or millis - 0.5 < MinMilliseconds, in halves
    var twice := if value >= 0 then 2 * millis + 1 else 2 * millis - 1;
    if twice > 2 * MaxMilliseconds || twice < 2 * MinMilliseconds then Err(Overflow)
    else Ok(TimeSpan(millis * TicksPerMillisecond))
  }

  function FromDays(value: int): (r: Result<TimeSpan>)
    ensures r.Ok? <==> MinMilliseconds < value * 86_400_000 < MaxMilliseconds
    ensures r.Ok? ==> Valid(r.value) && r.value.ticks == value * TicksPerDay
    ensures r.Err? ==> r.error == Overflow
  {
    Interval(value, 86_400_000)
  }

  function FromHours(value: int): (r: Result<TimeSpan>)
    ensures r.Ok? <==> MinMilliseconds < value * 3_600_000 < MaxMilliseconds
    ensures r.Ok? ==> Valid(r.value) && r.value.ticks == value * TicksPerHour
    ensures r.Err? ==> r.error == Overflow
  {
    Interval(value, 3_600_000)
  }

  function FromMinutes(value: int): (r: Result<TimeSpan>)
    ensures r.Ok? <==> MinMilliseconds < value * 60_000 < MaxMilliseconds
    ensures r.Ok? ==> Valid(r.value) && r.value.ticks == value * TicksPerMinute
    ensures r.Err? ==> r.error == Overflow
  {
    Interval(value, 60_000)
  }

  function FromSeconds(value: int): (r: Result<TimeSpan>)
    ensures r.Ok? <==> MinMilliseconds < value * 1000 < MaxMilliseconds
    ensures r.Ok? ==> Valid(r.value) && r.value.ticks == value * TicksPerSecond
    ensures r.Err? ==> r.error == Overflow
  {
    Interval(value, 1000)
  }

  function FromMilliseconds(value: int): (r: Result<TimeSpan>)
    ensures r.Ok? <==> MinMilliseconds < value < MaxMilliseconds
    ensures r.Ok? ==> Valid(r.value) && r.value.ticks == value * TicksPerMillisecond
    ensures r.Err? ==> r.error == Overflow
  {
    Interval(value, 1)
  }

  /** TimeSpan.Negate and unary minus: MinValue has no negation. */
  function Negate(t: TimeSpan): (r: Result<TimeSpan>)
    requires Valid(t)
    ensures r.Ok? <==> t != MinValue
    ensures r.Ok? ==> Valid(r.value) && r.value.ticks + t.ticks == 0
    ensures r.Err? ==> r.error == Overflow
  {
    if t.ticks == Int64Min then Err(Overflow) else Ok(TimeSpan(-t.ticks))
  }

  // ---- Reading components back ----

  /** Components of one sign and within bounds are what the span they add up to reads back. */
  lemma ComponentsReadBack(d: int, h: int, m: int, s: int, ms: int)
    requires Normal(d, h, m, s, ms)
    ensures var t := TimeSpan(ComponentTicks(d, h, m, s, ms));
      Days(t) == d && Hours(t) == h && Minutes(t) == m && Seconds(t) == s && Milliseconds(t) == ms
  {
    if d >= 0 && 0 <= h && 0 <= m && 0 <= s && 0 <= ms {
      ReadBackNatural(d, h, m, s, ms, 0);
    } else {
      ReadBackNegative(d, h, m, s, ms);
    }
  }

  /** The non-positive half of ComponentsReadBack, through the negated components. */
  lemma ReadBackNegative(d: int, h: int, m: int, s: int, ms: int)
    requires d <= 0 && -24 < h <= 0 && -60 < m <= 0 && -60 < s <= 0 && -1000 < ms <= 0
    ensures var t := TimeSpan(ComponentTicks(d, h, m, s, ms));
      Days(t) == d && Hours(t) == h && Minutes(t) == m && Seconds(t) == s && Milliseconds(t) == ms
  {
    var x := ComponentTicks(-d, -h, -m, -s, -ms);
    var t := TimeSpan(x);
    assert Days(t) == -d && Hours(t) == -h && Minutes(t) == -m && Seconds(t) == -s && Milliseconds(t) == -ms by {
      ReadBackNatural(-d, -h, -m, -s, -ms, 0);
      assert x + 0 == x;
    }
    NegatedComponents(x);
    assert TimeSpan(ComponentTicks(d, h, m, s, ms)) == TimeSpan(-x);
  }

  /** Every span is its components plus the ticks below a millisecond, and its components are normal. */
  lemma ComponentsRebuild(t: TimeSpan)
    ensures Normal(Days(t), Hours(t), Minutes(t), Seconds(t), Milliseconds(t))
    ensures ComponentTicks(Days(t), Hours(t), Minutes(t), Seconds(t), Milliseconds(t))
      + TruncRem(t.ticks, TicksPerMillisecond) == t.ticks
  {
    if t.ticks >= 0 {
      RebuildNatural(t.ticks);
    } else {
      var x := -t.ticks;
      RebuildNatural(x);
      NegatedComponents(x);
      assert TimeSpan(-x) == t;
      TruncOfNegated(x, TicksPerMillisecond);
    }
  }

  /** A span's components, fed back to the constructor, give the span truncated to milliseconds. */
  lemma ConstructorOfComponents(t: TimeSpan)
    requires Valid(t)
    ensures IsInt32(Days(t))
    ensures FromComponents(Days(t), Hours(t), Minutes(t), Seconds(t), Milliseconds(t))
      == Ok(TimeSpan(t.ticks - TruncRem(t.ticks, TicksPerMillisecond)))
  {
    ComponentsRebuild(t);
    var d := Days(t);
    assert Abs(d) * TicksPerDay <= Abs(t.ticks);
  }

  /** Negating a span negates each of its components. */
  lemma NegateComponents(t: TimeSpan)
    requires Valid(t) && t != MinValue
    ensures var u := Negate(t).value;
      Days(u) == -Days(t) && Hours(u) == -Hours(t) && Minutes(u) == -Minutes(t)
      && Seconds(u) == -Seconds(t) && Milliseconds(u) == -Milliseconds(t)
  {
    NegatedComponents(t.ticks);
  }

  lemma NegatedComponents(x: int)
    ensures var t, u := TimeSpan(x), TimeSpan(-x);
      Days(u) == -Days(t) && Hours(u) == -Hours(t) && Minutes(u) == -Minutes(t)
      && Seconds(u) == -Seconds(t) && Milliseconds(u) == -Milliseconds(t)
  {
    var t, u := TimeSpan(x), TimeSpan(-x);
    assert Days(u) == -Days(t) by { TruncOfNegated(x, TicksPerDay); }
    assert Hours(u) == -Hours(t) by { NegatedPart(x, TicksPerHour, 24); }
    assert Minutes(u) == -Minutes(t) by { NegatedPart(x, TicksPerMinute, 60); }
    assert Seconds(u) == -Seconds(t) by { NegatedPart(x, TicksPerSecond, 60); }
    assert Milliseconds(u) == -Milliseconds(t) by { NegatedPart(x, TicksPerMillisecond, 1000); }
  }

  lemma NegatedPart(x: int, unit: int, radix: int)
    requires unit > 0 && radix > 0
    ensures TruncRem(TruncDiv(-x, unit), radix) == -TruncRem(TruncDiv(x, unit), radix)
  {
    TruncOfNegated(x, unit);
    TruncOfNegated(TruncDiv(x, unit), radix);
  }

  lemma ReadBackNatural(d: int, h: int, m: int, s: int, ms: int, sub: int)
    requires d >= 0 && 0 <= h < 24 && 0 <= m < 60 && 0 <= s < 60 && 0 <= ms < 1000 && 0 <= sub < TicksPerMillisecond
    ensures var t := TimeSpan(ComponentTicks(d, h, m, s, ms) + sub);
      Days(t) == d && Hours(t) == h && Minutes(t) == m && Seconds(t) == s && Milliseconds(t) == ms
      && TruncRem(t.ticks, TicksPerMillisecond) == sub
  {
    var x := ComponentTicks(d, h, m, s, ms) + sub;
    TruncOfNatural(x, TicksPerDay);
    DivModUnique(x, TicksPerDay, d, x - d * TicksPerDay);
    var hs := d * 24 + h;
    TruncOfNatural(x, TicksPerHour);
    DivModUnique(x, TicksPerHour, hs, x - hs * TicksPerHour);
    TruncOfNatural(hs, 24);
    DivModUnique(hs, 24, d, h);
    var mins := hs * 60 + m;
    TruncOfNatural(x, TicksPerMinute);
    DivModUnique(x, TicksPerMinute, mins, x - mins * TicksPerMinute);
    TruncOfNatural(mins, 60);
    DivModUnique(mins, 60, hs, m);
    var secs := mins * 60 + s;
    TruncOfNatural(x, TicksPerSecond);
    DivModUnique(x, TicksPerSecond, secs, x - secs * TicksPerSecond);
    TruncOfNatural(secs, 60);
    DivModUnique(secs, 60, mins, s);
    var millis := secs * 1000 + ms;
    TruncOfNatural(x, TicksPerMillisecond);
    DivModUnique(x, TicksPerMillisecond, millis, sub);
    TruncOfNatural(millis, 1000);
    DivModUnique(millis, 1000, secs, ms);
  }

  lemma RebuildNatural(x: int)
    requires x >= 0
    ensures var t := TimeSpan(x);
      Days(t) >= 0 && 0 <= Hours(t) < 24 && 0 <= Minutes(t) < 60 && 0 <= Seconds(t) < 60 && 0 <= Milliseconds(t) < 1000
    ensures var t := TimeSpan(x);
      ComponentTicks(Days(t), Hours(t), Minutes(t), Seconds(t), Milliseconds(t)) + TruncRem(x, TicksPerMillisecond) == x
  {
    var millis, sub := x / TicksPerMillisecond, x % TicksPerMillisecond;
    var secs, ms := millis / 1000, millis % 1000;
    var mins, s := secs / 60, secs % 60;
    var hs, m := mins / 60, mins % 60;
    var d, h := hs / 24, hs % 24;
    assert x == ComponentTicks(d, h, m, s, ms) + sub;
    ReadBackNatural(d, h, m, s, ms, sub);
  }
}
