// The rows of TimeSpan.cs, each stated as a fact about the model.
module TimeSpanExamples {
  import opened Wrappers
  import opened Digits
  import opened TimeSpans
  import opened TimeSpanText

  /** new TimeSpan() and default(TimeSpan) read back all-zero components. */
  lemma EmptyComponents()
    ensures Days(Zero) == 0 && Hours(Zero) == 0 && Minutes(Zero) == 0 && Seconds(Zero) == 0 && Milliseconds(Zero) == 0
  {
    ComponentsReadBack(0, 0, 0, 0, 0);
  }

  /** new TimeSpan(999999999999999999) is 1157407.09:46:39.999 and 9999 ticks. */
  lemma LongComponents()
    ensures var t := TimeSpan(999_999_999_999_999_999);
      Days(t) == 1157407 && Hours(t) == 9 && Minutes(t) == 46 && Seconds(t) == 39 && Milliseconds(t) == 999
  {
    assert 999_999_999_999_999_999 == ComponentTicks(1157407, 9, 46, 39, 999) + 9999;
    ReadBackNatural(1157407, 9, 46, 39, 999, 9999);
  }

  /** new TimeSpan(10, 9, 8) reads back 10 hours, 9 minutes and 8 seconds. */
  lemma TimeComponents()
    ensures FromTime(10, 9, 8).Ok?
    ensures var t := FromTime(10, 9, 8).value;
      Days(t) == 0 && Hours(t) == 10 && Minutes(t) == 9 && Seconds(t) == 8 && Milliseconds(t) == 0
  {
    ComponentsReadBack(0, 10, 9, 8, 0);
  }

  /** new TimeSpan(10, 9, 8, 7, 6) reads back each of its arguments. */
  lemma FullComponents()
    ensures FromComponents(10, 9, 8, 7, 6).Ok?
    ensures var t := FromComponents(10, 9, 8, 7, 6).value;
      Days(t) == 10 && Hours(t) == 9 && Minutes(t) == 8 && Seconds(t) == 7 && Milliseconds(t) == 6
  {
    ComponentsReadBack(10, 9, 8, 7, 6);
  }

  /** MaxValue is 10675199.02:48:05.477 and 5807 ticks. */
  lemma MaxValueComponents()
    ensures Days(MaxValue) == 10675199 && Hours(MaxValue) == 2 && Minutes(MaxValue) == 48
      && Seconds(MaxValue) == 5 && Milliseconds(MaxValue) == 477
  {
    assert Int64Max == ComponentTicks(10675199, 2, 48, 5, 477) + 5807;
    ReadBackNatural(10675199, 2, 48, 5, 477, 5807);
  }

  /** MinValue reads back the negated components of MaxValue. */
  lemma MinValueComponents()
    ensures Days(MinValue) == -10675199 && Hours(MinValue) == -2 && Minutes(MinValue) == -48
      && Seconds(MinValue) == -5 && Milliseconds(MinValue) == -477
  {
    var x := ComponentTicks(10675199, 2, 48, 5, 477) + 5808;
    assert x == -Int64Min;
    ReadBackNatural(10675199, 2, 48, 5, 477, 5808);
    NegatedComponents(x);
    assert TimeSpan(-x) == MinValue;
  }

  /** One unit below MinValue's components, in any of the five, is out of range. */
  lemma BelowMinValue()
    ensures var d, h, m, s, ms := Days(MinValue), Hours(MinValue), Minutes(MinValue), Seconds(MinValue), Milliseconds(MinValue);
      && FromComponents(d - 1, h, m, s, ms) == Err(ArgumentOutOfRange)
      && FromComponents(d, h - 1, m, s, ms) == Err(ArgumentOutOfRange)
      && FromComponents(d, h, m - 1, s, ms) == Err(ArgumentOutOfRange)
      && FromComponents(d, h, m, s - 1, ms) == Err(ArgumentOutOfRange)
      && FromComponents(d, h, m, s, ms - 1) == Err(ArgumentOutOfRange)
  {
    MinValueComponents();
    assert ComponentTicks(-10675199, -2, -48, -5, -477) == Int64Min + 5808;
  }

  /** One unit above MaxValue's components, in any of the five, is out of range. */
  lemma AboveMaxValue()
    ensures var d, h, m, s, ms := Days(MaxValue), Hours(MaxValue), Minutes(MaxValue), Seconds(MaxValue), Milliseconds(MaxValue);
      && FromComponents(d + 1, h, m, s, ms) == Err(ArgumentOutOfRange)
      && FromComponents(d, h + 1, m, s, ms) == Err(ArgumentOutOfRange)
      && FromComponents(d, h, m + 1, s, ms) == Err(ArgumentOutOfRange)
      && FromComponents(d, h, m, s + 1, ms) == Err(ArgumentOutOfRange)
      && FromComponents(d, h, m, s, ms + 1) == Err(ArgumentOutOfRange)
  {
    MaxValueComponents();
    assert ComponentTicks(10675199, 2, 48, 5, 477) == Int64Max - 5807;
  }

  /** FromDays and its siblings on a component of 10.09:08:07.006 equal the constructor given that component alone. */
  lemma FactoriesOfComponents()
    ensures var t := FromComponents(10, 9, 8, 7, 6).value;
      && FromDays(Days(t)) == FromComponents(Days(t), 0, 0, 0, 0)
      && FromHours(Hours(t)) == FromComponents(0, Hours(t), 0, 0, 0)
      && FromMinutes(Minutes(t)) == FromComponents(0, 0, Minutes(t), 0, 0)
      && FromSeconds(Seconds(t)) == FromComponents(0, 0, 0, Seconds(t), 0)
      && FromMilliseconds(Milliseconds(t)) == FromComponents(0, 0, 0, 0, Milliseconds(t))
  {
    FullComponents();
  }

  // ---- ParseExact with the "c" format ----

  /** The fields of "12:24:02". */
  lemma TimeOfDayFields()
    ensures ConstantFields("", "12", "24", "02", "")
    ensures ConstantTicks("", "12", "24", "02", "") == ComponentTicks(0, 12, 24, 2, 0)
  {
    ShortDecimalValue("12");
    ShortDecimalValue("24");
    ShortDecimalValue("02");
  }

  /** "12:24:02" is 12 hours, 24 minutes and 2 seconds. */
  lemma ParseTimeOfDay(s: string)
    requires s == "12:24:02"
    ensures ParseConstant(s) == FromDayTime(0, 12, 24, 2)
    ensures TryParseConstant(s) == (true, FromDayTime(0, 12, 24, 2).value)
  {
    assert s == ConstantText(false, "", "12", "24", "02", "", "");
    TimeOfDayFields();
    ParseWholeText(false, "", "12", "24", "02", "", TimeSpan(ComponentTicks(0, 12, 24, 2, 0)));
  }

  /** The fields of "1.12:24:02". */
  lemma DayAndTimeFields()
    ensures ConstantFields("1", "12", "24", "02", "")
    ensures ConstantTicks("1", "12", "24", "02", "") == ComponentTicks(1, 12, 24, 2, 0)
  {
    ShortDecimalValue("1");
    ShortDecimalValue("12");
    ShortDecimalValue("24");
    ShortDecimalValue("02");
  }

  /** "1.12:24:02" is one day, 12 hours, 24 minutes and 2 seconds. */
  lemma ParseDayAndTime(s: string)
    requires s == "1.12:24:02"
    ensures ParseConstant(s) == FromDayTime(1, 12, 24, 2)
    ensures TryParseConstant(s) == (true, FromDayTime(1, 12, 24, 2).value)
  {
    assert s == ConstantText(false, "1", "12", "24", "02", "", "");
    DayAndTimeFields();
    ParseWholeText(false, "1", "12", "24", "02", "", TimeSpan(ComponentTicks(1, 12, 24, 2, 0)));
  }

  /** The value of the three fraction digits "999". */
  lemma Fraction999()
    ensures AllDigits("999") && FractionTicks("999") == 999 * TicksPerMillisecond
  {
    assert DecimalValue("999") == 999 by {
      assert LeadingValue("999", 1) == 9;
      assert LeadingValue("999", 2) == 99;
    }
    assert Pow10(4) == 10_000;
  }

  /** The fields of "-01.07:45:16.999". */
  lemma NegativeFields()
    ensures ConstantFields("01", "07", "45", "16", "999")
    ensures ConstantTicks("01", "07", "45", "16", "999") == ComponentTicks(1, 7, 45, 16, 999)
  {
    ShortDecimalValue("01");
    ShortDecimalValue("07");
    ShortDecimalValue("45");
    ShortDecimalValue("16");
    Fraction999();
  }

  /** "-01.07:45:16.999" is the negation of 1.07:45:16.999. */
  lemma ParseNegative(s: string)
    requires s == "-01.07:45:16.999"
    ensures FromComponents(1, 7, 45, 16, 999).Ok? && Negate(FromComponents(1, 7, 45, 16, 999).value).Ok?
    ensures ParseConstant(s) == Negate(FromComponents(1, 7, 45, 16, 999).value)
    ensures TryParseConstant(s) == (true, Negate(FromComponents(1, 7, 45, 16, 999).value).value)
  {
    assert s == ConstantText(true, "01", "07", "45", "16", "999", "");
    NegativeFields();
    ParseWholeText(true, "01", "07", "45", "16", "999", TimeSpan(-ComponentTicks(1, 7, 45, 16, 999)));
  }

  /** "24:24:02" names hour 24: an OverflowException, and TryParseExact gives false and Zero. */
  lemma ParseHourOverflow(s: string)
    requires s == "24:24:02"
    ensures ParseConstant(s) == Err(Overflow)
    ensures TryParseConstant(s) == (false, Zero)
  {
    var u := "24" + ":24:02";
    assert s == u;
    ShortDecimalValue("24");
    HoursOverflow("24", ":24:02");
    assert ParseConstant(s) == Signed(false, ParseBody(u)) by {
      SignStep(false, u);
    }
    assert ParseBody(u) == Err(Overflow) by {
      DigitsThen("24", ":24:02");
    }
  }

  /** "1:12:24:02" leaves ":02" after the seconds: a FormatException, and TryParseExact gives false and Zero. */
  lemma ParseTrailingField(s: string)
    requires s == "1:12:24:02"
    ensures ParseConstant(s) == Err(Format)
    ensures TryParseConstant(s) == (false, Zero)
  {
    assert s == ConstantText(false, "", "1", "12", "24", "", ":02");
    ShortDecimalValue("1");
    ShortDecimalValue("12");
    ShortDecimalValue("24");
    ParseConstantText(false, "", "1", "12", "24", "", ":02");
  }
}
