// The invariant "c" text form of a TimeSpan, [-][d.]hh:mm:ss[.fffffff]:
// TimeSpan.ParseExact(s, "c") and TryParseExact read it, ToString() writes it.
// The parser reads left to right and fails at the first field that is
// missing (FormatException) or above its bound (OverflowException).
module TimeSpanText {
  import opened Wrappers
  import opened Digits
  import opened TimeSpans

  /** The largest day count the constant form accepts: long.MaxValue / TicksPerDay. */
  const MaxDays: int := 10_675_199

  /** A value read from the front of a text, and the text after it. */
  datatype Scan = Scan(value: int, rest: string)

  predicate IsBlank(c: char) { c == ' ' || c == '\t' }

  function SkipBlanks(s: string): (r: string)
    ensures |r| <= |s| && r == s[|s| - |r|..]
    ensures r == [] || !IsBlank(r[0])
  {
    if s != [] && IsBlank(s[0]) then SkipBlanks(s[1..]) else s
  }

  /** A run of digits at most `max`: no digit is a FormatException, a larger value an OverflowException. */
  function ParseBounded(s: string, max: nat): (r: Result<Scan>)
    ensures r.Ok? ==> 0 <= r.value.value <= max && |r.value.rest| < |s|
    ensures r.Err? ==> r.error == Format || r.error == Overflow
  {
    var n := DigitPrefix(s);
    if n == 0 then Err(Format)
    else if DecimalValue(s[..n]) > max then Err(Overflow)
    else Ok(Scan(DecimalValue(s[..n]), s[n..]))
  }

  /** The ticks that fraction digits after the seconds stand for. */
  function FractionTicks(f: string): (t: int)
    requires AllDigits(f) && |f| <= 7
    ensures 0 <= t < TicksPerSecond
  {
    TrailingZeros(f, 7 - |f|);
    assert Pow10(7) == 10_000_000;
    DecimalValue(f) * Pow10(7 - |f|)
  }

  /** Up to seven fraction digits, as ticks; any further digit is left unread. */
  function ParseFraction(s: string): (r: Scan)
    ensures 0 <= r.value < TicksPerSecond && |r.rest| <= |s|
  {
    var n := DigitPrefix(s);
    var k := if n < 7 then n else 7;
    assert AllDigits(s[..k]) by { assert s[..k] == s[..n][..k]; }
    Scan(FractionTicks(s[..k]), s[k..])
  }

  /** hh:mm[:[ss][.fffffff]] as ticks, with hours up to 23 and minutes and seconds up to 59. */
  function ParseTime(s: string): (r: Result<Scan>)
    ensures r.Ok? ==> r.value.value >= 0
    ensures r.Err? ==> r.error == Format || r.error == Overflow
  {
    var h :- ParseBounded(s, 23);
    if h.rest == [] || h.rest[0] != ':' then Err(Format)
    else ParseMinutes(h.value * TicksPerHour, h.rest[1..])
  }

  /** Minutes after the hours' ':', then optionally ':' and the seconds. */
  function ParseMinutes(ticks: int, s: string): (r: Result<Scan>)
    ensures r.Ok? ==> r.value.value >= ticks
    ensures r.Err? ==> r.error == Format || r.error == Overflow
  {
    var m :- ParseBounded(s, 59);
    if m.rest == [] || m.rest[0] != ':' then Ok(Scan(ticks + m.value * TicksPerMinute, m.rest))
    else ParseSeconds(ticks + m.value * TicksPerMinute, m.rest[1..])
  }

  /** Seconds after the minutes' ':' (absent when a '.' comes first), then the fraction. */
  function ParseSeconds(ticks: int, s: string): (r: Result<Scan>)
    ensures r.Ok? ==> r.value.value >= ticks
    ensures r.Err? ==> r.error == Format || r.error == Overflow
  {
    if s != [] && s[0] == '.' then Ok(FractionPart(ticks, s))
    else
      var sec :- ParseBounded(s, 59);
      Ok(FractionPart(ticks + sec.value * TicksPerSecond, sec.rest))
  }

  /** An optional '.' and fraction digits. */
  function FractionPart(ticks: int, s: string): (r: Scan)
    ensures r.value >= ticks
  {
    if s != [] && s[0] == '.' then
      var f := ParseFraction(s[1..]);
      Scan(ticks + f.value, f.rest)
    else Scan(ticks, s)
  }

  /** d[.hh:mm:ss[.fffffff]] as ticks, with at most MaxDays days. */
  function ParseDays(s: string): (r: Result<Scan>)
    ensures r.Ok? ==> r.value.value >= 0
    ensures r.Err? ==> r.error == Format || r.error == Overflow
  {
    var d :- ParseBounded(s, MaxDays);
    if d.rest != [] && d.rest[0] == '.' then
      var t :- ParseTime(d.rest[1..]);
      Ok(Scan(d.value * TicksPerDay + t.value, t.rest))
    else
      Ok(Scan(d.value * TicksPerDay, d.rest))
  }

  /** A time of day when the first digits end in ':', else days with an optional time of day. */
  function ParseBody(u: string): (r: Result<Scan>)
    ensures r.Ok? ==> r.value.value >= 0
    ensures r.Err? ==> r.error == Format || r.error == Overflow
  {
    var n := DigitPrefix(u);
    if n < |u| && u[n] == ':' then ParseTime(u) else ParseDays(u)
  }

  /** A magnitude the 64-bit ticks can hold with the given sign: one more below zero than above. */
  predicate Fits(negative: bool, magnitude: int) {
    if negative then magnitude <= -Int64Min else magnitude <= Int64Max
  }

  /**
   * TimeSpan.ParseExact(s, "c"): blanks, an optional '-', then either a time
   * of day (when the first digits end in ':') or days with an optional
   * time of day after '.', then blanks. A magnitude the ticks cannot hold
   * is an OverflowException; any other text left over a FormatException.
   */
  function ParseConstant(s: string): (r: Result<TimeSpan>)
    ensures r.Ok? ==> Valid(r.value)
    ensures r.Err? ==> r.error == Format || r.error == Overflow
  {
    var t := SkipBlanks(s);
    var negative := t != [] && t[0] == '-';
    Signed(negative, ParseBody(if negative then t[1..] else t))
  }

  /** The sign applied to a parsed magnitude, which must fit and be followed by blanks only. */
  function Signed(negative: bool, body: Result<Scan>): (r: Result<TimeSpan>)
    requires body.Ok? ==> body.value.value >= 0
    ensures r.Ok? ==> Valid(r.value)
    ensures r.Err? ==> r.error == Format || r.error == Overflow || (body.Err? && r.error == body.error)
  {
    var b :- body;
    if !Fits(negative, b.value) then Err(Overflow)
    else if SkipBlanks(b.rest) != [] then Err(Format)
    else Ok(TimeSpan(if negative then -b.value else b.value))
  }

  /** TimeSpan.TryParseExact(s, "c", out t): false, with t left at Zero, wherever ParseExact throws. */
  function TryParseConstant(s: string): (r: (bool, TimeSpan))
    ensures r.0 <==> ParseConstant(s).Ok?
    ensures r.0 ==> r.1 == ParseConstant(s).value
    ensures !r.0 ==> r.1 == Zero
  {
    match ParseConstant(s)
    case Ok(t) => (true, t)
    case Err(_) => (false, Zero)
  }

  // ---- Texts built from fields ----

  /** Optional fraction digits after a '.', then the rest of the text. */
  function FractionText(fraction: string, rest: string): string {
    if fraction == [] then rest else "." + (fraction + rest)
  }

  /** hh:mm:ss, an optional fraction, then the rest. */
  function TimeText(hh: string, mm: string, ss: string, fraction: string, rest: string): string {
    hh + (":" + (mm + (":" + (ss + FractionText(fraction, rest)))))
  }

  /** The whole constant form: sign, optional days and '.', the time of day, then the rest. */
  function ConstantText(negative: bool, days: string, hh: string, mm: string, ss: string, fraction: string, rest: string): string {
    var body := if days == [] then TimeText(hh, mm, ss, fraction, rest) else days + ("." + TimeText(hh, mm, ss, fraction, rest));
    if negative then "-" + body else body
  }

  /** Text that ends the last field: nothing, or a character that is neither a digit nor a '.'. */
  predicate EndsField(rest: string) {
    rest == [] || (!IsDigit(rest[0]) && rest[0] != '.')
  }

  /** Digit fields within their bounds: hours to 23, minutes and seconds to 59, up to seven fraction digits. */
  predicate TimeFields(hh: string, mm: string, ss: string, fraction: string) {
    && hh != [] && AllDigits(hh) && DecimalValue(hh) <= 23
    && mm != [] && AllDigits(mm) && DecimalValue(mm) <= 59
    && ss != [] && AllDigits(ss) && DecimalValue(ss) <= 59
    && AllDigits(fraction) && |fraction| <= 7
  }

  function TimeTicks(hh: string, mm: string, ss: string, fraction: string): int
    requires TimeFields(hh, mm, ss, fraction)
  {
    DecimalValue(hh) * TicksPerHour + DecimalValue(mm) * TicksPerMinute + DecimalValue(ss) * TicksPerSecond
      + (if fraction == [] then 0 else FractionTicks(fraction))
  }

  /** Days digits (none for a time of day only) and the time fields. */
  predicate ConstantFields(days: string, hh: string, mm: string, ss: string, fraction: string) {
    AllDigits(days) && (days != [] ==> DecimalValue(days) <= MaxDays) && TimeFields(hh, mm, ss, fraction)
  }

  function ConstantTicks(days: string, hh: string, mm: string, ss: string, fraction: string): int
    requires ConstantFields(days, hh, mm, ss, fraction)
  {
    (if days == [] then 0 else DecimalValue(days) * TicksPerDay) + TimeTicks(hh, mm, ss, fraction)
  }

  // ---- Reading the fields back ----

  /** A parse that succeeded with this value and left this text. */
  predicate Reads(r: Result<Scan>, value: int, rest: string) {
    r.Ok? && r.value.value == value && r.value.rest == rest
  }

  /** A digit run followed by a non-digit is read as exactly that run. */
  lemma DigitsThen(d: string, rest: string)
    requires AllDigits(d) && (rest == [] || !IsDigit(rest[0]))
    ensures DigitPrefix(d + rest) == |d| && (d + rest)[..|d|] == d && (d + rest)[|d|..] == rest
  {
  }

  lemma BoundedThen(d: string, rest: string, max: nat)
    requires AllDigits(d) && (rest == [] || !IsDigit(rest[0]))
    ensures d == [] ==> ParseBounded(d + rest, max) == Err(Format)
    ensures d != [] && DecimalValue(d) > max ==> ParseBounded(d + rest, max) == Err(Overflow)
    ensures d != [] && DecimalValue(d) <= max ==> Reads(ParseBounded(d + rest, max), DecimalValue(d), rest)
  {
    DigitsThen(d, rest);
  }

  lemma FractionThen(fraction: string, rest: string)
    requires fraction != [] && AllDigits(fraction) && |fraction| <= 7 && EndsField(rest)
    ensures ParseFraction(fraction + rest).value == FractionTicks(fraction)
    ensures ParseFraction(fraction + rest).rest == rest
  {
    DigitsThen(fraction, rest);
  }

  lemma FractionPartThen(ticks: int, fraction: string, rest: string)
    requires AllDigits(fraction) && |fraction| <= 7 && EndsField(rest)
    ensures FractionPart(ticks, FractionText(fraction, rest)).value
      == ticks + (if fraction == [] then 0 else FractionTicks(fraction))
    ensures FractionPart(ticks, FractionText(fraction, rest)).rest == rest
  {
    if fraction != [] {
      assert FractionText(fraction, rest)[1..] == fraction + rest;
      FractionThen(fraction, rest);
    }
  }

  /** Each field's parser hands the text after its digits and separator to the next. */
  lemma HoursStep(s: string, value: int, after: string, ticks: int, rest: string)
    requires Reads(ParseBounded(s, 23), value, ":" + after)
    requires Reads(ParseMinutes(value * TicksPerHour, after), ticks, rest)
    ensures Reads(ParseTime(s), ticks, rest)
  {
    assert (":" + after)[1..] == after;
  }

  lemma MinutesStep(hours: int, s: string, value: int, after: string, ticks: int, rest: string)
    requires Reads(ParseBounded(s, 59), value, ":" + after)
    requires Reads(ParseSeconds(hours + value * TicksPerMinute, after), ticks, rest)
    ensures Reads(ParseMinutes(hours, s), ticks, rest)
  {
    assert (":" + after)[1..] == after;
  }

  lemma SecondsStep(minutes: int, s: string, value: int, after: string, ticks: int, rest: string)
    requires s != [] && s[0] != '.' && Reads(ParseBounded(s, 59), value, after)
    requires FractionPart(minutes + value * TicksPerSecond, after) == Scan(ticks, rest)
    ensures Reads(ParseSeconds(minutes, s), ticks, rest)
  {
  }

  lemma DaysStep(s: string, value: int, after: string, time: int, rest: string)
    requires Reads(ParseBounded(s, MaxDays), value, "." + after) && Reads(ParseTime(after), time, rest)
    ensures Reads(ParseDays(s), value * TicksPerDay + time, rest)
  {
    assert ("." + after)[1..] == after;
  }

  /** hh:mm:ss[.f] followed by text that ends the field reads as its ticks. */
  lemma TimeThen(hh: string, mm: string, ss: string, fraction: string, rest: string)
    requires TimeFields(hh, mm, ss, fraction) && EndsField(rest)
    ensures Reads(ParseTime(TimeText(hh, mm, ss, fraction, rest)), TimeTicks(hh, mm, ss, fraction), rest)
  {
    var afterSeconds := FractionText(fraction, rest);
    var seconds := ss + afterSeconds;
    var minutes := mm + (":" + seconds);
    var h := DecimalValue(hh) * TicksPerHour;
    var hm := h + DecimalValue(mm) * TicksPerMinute;
    var hms := hm + DecimalValue(ss) * TicksPerSecond;
    var total := TimeTicks(hh, mm, ss, fraction);
    FractionPartThen(hms, fraction, rest);
    assert FractionPart(hms, afterSeconds) == Scan(total, rest);
    assert Reads(ParseSeconds(hm, seconds), total, rest) by {
      assert seconds[0] == ss[0];
      BoundedThen(ss, afterSeconds, 59);
      SecondsStep(hm, seconds, DecimalValue(ss), afterSeconds, total, rest);
    }
    assert Reads(ParseMinutes(h, minutes), total, rest) by {
      BoundedThen(mm, ":" + seconds, 59);
      MinutesStep(h, minutes, DecimalValue(mm), seconds, total, rest);
    }
    BoundedThen(hh, ":" + minutes, 23);
    HoursStep(hh + (":" + minutes), DecimalValue(hh), minutes, total, rest);
  }

  /** Hours above 23 are an OverflowException, whatever follows them. */
  lemma HoursOverflow(hh: string, rest: string)
    requires hh != [] && AllDigits(hh) && DecimalValue(hh) > 23 && (rest == [] || !IsDigit(rest[0]))
    ensures ParseTime(hh + rest) == Err(Overflow)
  {
    BoundedThen(hh, rest, 23);
  }

  /** A time of day alone: its digits end in ':', so it is read as a time. */
  lemma TimeOnlyThen(hh: string, mm: string, ss: string, fraction: string, rest: string)
    requires TimeFields(hh, mm, ss, fraction) && EndsField(rest)
    ensures var u := TimeText(hh, mm, ss, fraction, rest);
      DigitPrefix(u) < |u| && u[DigitPrefix(u)] == ':'
      && Reads(ParseTime(u), TimeTicks(hh, mm, ss, fraction), rest)
  {
    DigitsThen(hh, ":" + (mm + (":" + (ss + FractionText(fraction, rest)))));
    TimeThen(hh, mm, ss, fraction, rest);
  }

  /** Days, '.', and a time of day: the digits end in '.', so they are read as days. */
  lemma DaysThen(days: string, hh: string, mm: string, ss: string, fraction: string, rest: string)
    requires days != [] && ConstantFields(days, hh, mm, ss, fraction) && EndsField(rest)
    ensures var u := days + ("." + TimeText(hh, mm, ss, fraction, rest));
      DigitPrefix(u) < |u| && u[DigitPrefix(u)] == '.'
      && Reads(ParseDays(u), ConstantTicks(days, hh, mm, ss, fraction), rest)
  {
    var time := TimeText(hh, mm, ss, fraction, rest);
    var u := days + ("." + time);
    DigitsThen(days, "." + time);
    BoundedThen(days, "." + time, MaxDays);
    TimeThen(hh, mm, ss, fraction, rest);
    DaysStep(u, DecimalValue(days), time, TimeTicks(hh, mm, ss, fraction), rest);
  }

  lemma BodyThen(days: string, hh: string, mm: string, ss: string, fraction: string, rest: string)
    requires ConstantFields(days, hh, mm, ss, fraction) && EndsField(rest)
    ensures var u := if days == [] then TimeText(hh, mm, ss, fraction, rest) else days + ("." + TimeText(hh, mm, ss, fraction, rest));
      Reads(ParseBody(u), ConstantTicks(days, hh, mm, ss, fraction), rest)
  {
    if days == [] {
      TimeOnlyThen(hh, mm, ss, fraction, rest);
    } else {
      DaysThen(days, hh, mm, ss, fraction, rest);
    }
  }

  /**
   * The constant form built from fields within their bounds reads back as
   * their ticks with the sign: an OverflowException when the ticks cannot
   * hold them, a FormatException when anything but blanks follows.
   */
  lemma ParseConstantText(negative: bool, days: string, hh: string, mm: string, ss: string, fraction: string, rest: string)
    requires ConstantFields(days, hh, mm, ss, fraction) && EndsField(rest)
    ensures var ticks := ConstantTicks(days, hh, mm, ss, fraction);
      ParseConstant(ConstantText(negative, days, hh, mm, ss, fraction, rest))
        == if !Fits(negative, ticks) then Err(Overflow)
           else if SkipBlanks(rest) != [] then Err(Format)
           else Ok(TimeSpan(if negative then -ticks else ticks))
  {
    var u := if days == [] then TimeText(hh, mm, ss, fraction, rest) else days + ("." + TimeText(hh, mm, ss, fraction, rest));
    var ticks := ConstantTicks(days, hh, mm, ss, fraction);
    var text := ConstantText(negative, days, hh, mm, ss, fraction, rest);
    assert text == if negative then "-" + u else u;
    assert ParseConstant(text) == Signed(negative, ParseBody(u)) by {
      assert u[0] == if days == [] then hh[0] else days[0];
      SignStep(negative, u);
    }
    BodyThen(days, hh, mm, ss, fraction, rest);
    SignedReads(negative, ParseBody(u), ticks, rest);
  }

  /** Fields that make up the whole text read back as the span of their ticks with the sign, whenever those fit. */
  lemma ParseWholeText(negative: bool, days: string, hh: string, mm: string, ss: string, fraction: string, t: TimeSpan)
    requires ConstantFields(days, hh, mm, ss, fraction)
    requires Fits(negative, ConstantTicks(days, hh, mm, ss, fraction))
    requires t.ticks == if negative then -ConstantTicks(days, hh, mm, ss, fraction) else ConstantTicks(days, hh, mm, ss, fraction)
    ensures ParseConstant(ConstantText(negative, days, hh, mm, ss, fraction, "")) == Ok(t)
    ensures TryParseConstant(ConstantText(negative, days, hh, mm, ss, fraction, "")) == (true, t)
  {
    ParseConstantText(negative, days, hh, mm, ss, fraction, "");
    assert SkipBlanks("") == "";
  }

  lemma SignedReads(negative: bool, body: Result<Scan>, ticks: int, rest: string)
    requires Reads(body, ticks, rest) && ticks >= 0
    ensures Signed(negative, body)
      == if !Fits(negative, ticks) then Err(Overflow)
         else if SkipBlanks(rest) != [] then Err(Format)
         else Ok(TimeSpan(if negative then -ticks else ticks))
  {
  }

  /** Blanks are not skipped past a sign or a digit, so the body is read from just after the sign. */
  lemma SignStep(negative: bool, u: string)
    requires u != [] && IsDigit(u[0])
    ensures ParseConstant(if negative then "-" + u else u) == Signed(negative, ParseBody(u))
  {
    var s := if negative then "-" + u else u;
    assert !IsBlank(s[0]);
    assert SkipBlanks(s) == s;
    assert (s[0] == '-') == negative;
    if negative {
      assert s[1..] == u;
    }
  }

  // ---- Writing the constant form ----

  /** The decimal digits of n, padded with zeros to `width`. */
  function Padded(n: nat, width: nat): (s: string)
    ensures AllDigits(s) && DecimalValue(s) == n && |s| >= width
  {
    DecimalTextRoundTrip(n);
    ZeroPaddedValue(DecimalText(n), width);
    ZeroPadded(DecimalText(n), width)
  }

  /** n < 10^k has at most k digits. */
  lemma {:induction false} DecimalTextLength(n: nat, k: nat)
    requires k >= 1 && n < Pow10(k)
    ensures |DecimalText(n)| <= k
  {
    if n >= 10 {
      assert 10 * Pow10(k - 1) == Pow10(k);
      DecimalTextLength(n / 10, k - 1);
    }
  }

  /** The digit fields of the constant form. */
  datatype Pieces = Pieces(days: string, hh: string, mm: string, ss: string, fraction: string)

  /** The fields ToString() writes for a magnitude: no days field for zero days, no fraction for a whole second. */
  function PiecesOf(magnitude: nat): Pieces {
    var totalSeconds := magnitude / TicksPerSecond;
    var totalMinutes := totalSeconds / 60;
    var totalHours := totalMinutes / 60;
    var days := totalHours / 24;
    var fraction := magnitude % TicksPerSecond;
    Pieces(if days == 0 then "" else DecimalText(days),
      Padded(totalHours % 24, 2), Padded(totalMinutes % 60, 2), Padded(totalSeconds % 60, 2),
      if fraction == 0 then "" else Padded(fraction, 7))
  }

  /** TimeSpan.ToString(): [-][d.]hh:mm:ss[.fffffff]. */
  function FormatConstant(t: TimeSpan): (s: string)
    requires Valid(t)
  {
    var p := PiecesOf(Abs(t.ticks));
    ConstantText(t.ticks < 0, p.days, p.hh, p.mm, p.ss, p.fraction, "")
  }

  lemma PaddedLength(n: nat, k: nat)
    requires k >= 1 && n < Pow10(k)
    ensures |Padded(n, k)| == k
  {
    DecimalTextLength(n, k);
  }

  /** The magnitude is the sum of the fields ToString() writes. */
  lemma FieldsOfMagnitude(magnitude: nat)
    ensures var totalSeconds := magnitude / TicksPerSecond;
      var totalMinutes := totalSeconds / 60;
      var totalHours := totalMinutes / 60;
      magnitude == (totalHours / 24) * TicksPerDay + (totalHours % 24) * TicksPerHour
        + (totalMinutes % 60) * TicksPerMinute + (totalSeconds % 60) * TicksPerSecond + magnitude % TicksPerSecond
  {
    var totalSeconds := magnitude / TicksPerSecond;
    var totalMinutes := totalSeconds / 60;
    var totalHours := totalMinutes / 60;
    assert magnitude == totalSeconds * TicksPerSecond + magnitude % TicksPerSecond;
    assert totalSeconds == totalMinutes * 60 + totalSeconds % 60;
    assert totalMinutes == totalHours * 60 + totalMinutes % 60;
    assert totalHours == (totalHours / 24) * 24 + totalHours % 24;
  }

  /** A fraction written with seven digits stands for its own ticks. */
  lemma FractionPiece(fraction: nat)
    requires 0 < fraction < TicksPerSecond
    ensures |Padded(fraction, 7)| == 7 && FractionTicks(Padded(fraction, 7)) == fraction
  {
    assert Pow10(7) == 10_000_000;
    PaddedLength(fraction, 7);
    assert Pow10(0) == 1;
  }

  /** The fields ToString() writes are within their bounds and add up to the magnitude. */
  lemma PiecesOfFields(magnitude: nat)
    requires magnitude <= -Int64Min
    ensures var p := PiecesOf(magnitude);
      ConstantFields(p.days, p.hh, p.mm, p.ss, p.fraction)
      && ConstantTicks(p.days, p.hh, p.mm, p.ss, p.fraction) == magnitude
  {
    var totalSeconds := magnitude / TicksPerSecond;
    var totalMinutes := totalSeconds / 60;
    var totalHours := totalMinutes / 60;
    var days := totalHours / 24;
    var fraction := magnitude % TicksPerSecond;
    var p := PiecesOf(magnitude);
    FieldsOfMagnitude(magnitude);
    assert days <= MaxDays;
    assert days != 0 ==> DecimalValue(p.days) == days by {
      if days != 0 {
        DecimalTextRoundTrip(days);
      }
    }
    assert p.fraction == [] || (|p.fraction| == 7 && FractionTicks(p.fraction) == fraction) by {
      if fraction != 0 {
        FractionPiece(fraction);
      }
    }
  }

  /** Reading back what ToString() writes gives the same span, MinValue included. */
  lemma ParseFormatConstant(t: TimeSpan)
    requires Valid(t)
    ensures ParseConstant(FormatConstant(t)) == Ok(t)
  {
    var magnitude := Abs(t.ticks);
    var p := PiecesOf(magnitude);
    PiecesOfFields(magnitude);
    ParseConstantText(t.ticks < 0, p.days, p.hh, p.mm, p.ss, p.fraction, "");
    assert SkipBlanks("") == "";
  }
}
