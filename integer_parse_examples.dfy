// The Parse and TryParse vectors of the eight integer test files
// (Byte.cs, SByte.cs, Int16.cs, UInt16.cs, Int32.cs, UInt32.cs, Int64.cs,
// UInt64.cs), read off the model. Most vectors are shared by all eight
// files; a lemma over an arbitrary IntegerType states such a vector for
// every width at once, and one over an arbitrary well-behaved
// NumberFormat states it for every culture.
module IntegerParseExamples {
  import opened Wrappers
  import opened Digits
  import opened Integers
  import opened NumberParsing
  import opened IntegerLiterals

  /** The culture data `new NumberFormatInfo { CurrencySymbol = "$" }` of the Currency vectors. */
  const DollarFormat: NumberFormat := Invariant.(currencySymbol := "$")

  lemma DollarFormatIsSane()
    ensures SaneFormat(DollarFormat) && DollarFormat.currencySymbol == "$"
    ensures DollarFormat.currencyGroupSeparator == "," && DollarFormat.currencyDecimalSeparator == "."
    ensures DollarFormat.negativeSign == "-" && DollarFormat.positiveSign == "+"
  {
  }

  lemma DollarPieces(s: string, a: string)
    requires (s == "$100" && a == "100") || (s == "$1,000" && a == "1,000")
    ensures s == "$" + a
  {
  }

  // ---- accepted text ----

  lemma SurroundedPieces(s: string)
    requires s == "  123  "
    ensures s == "  " + [] + "123" + "  " && AllWhite("  ")
    ensures AllDigits("123") && DecimalValue("123") == 123
  {
    Digits123("123");
  }

  lemma SpacedPieces(s: string)
    requires s == " 123 "
    ensures s == " " + [] + "123" + " " && AllWhite(" ")
    ensures AllDigits("123") && DecimalValue("123") == 123
  {
    Digits123("123");
  }

  /**
   * "  123  " (Int32.cs 184) and " 123 " (the same row of the other
   * integer files) under NumberStyles.Integer are 123, in every culture.
   */
  lemma ParseSurrounded(s: string, t: IntegerType, nfi: NumberFormat)
    requires (s == "  123  " || s == " 123 ") && SaneFormat(nfi)
    ensures Parse(s, NumberParsing.Integer, nfi, t) == Ok(123)
  {
    assert t.Contains(123);
    if s == " 123 " {
      SpacedPieces(s);
      ParseDigits(s, " ", false, "123", " ", NumberParsing.Integer, nfi, t);
    } else {
      SurroundedPieces(s);
      ParseDigits(s, "  ", false, "123", "  ", NumberParsing.Integer, nfi, t);
    }
  }

  /** "123" under Integer and under Any (Int32.cs 183, 192 and 194). */
  lemma ParsePlain(s: string, style: NumberStyles, t: IntegerType, nfi: NumberFormat)
    requires s == "123" && (style == NumberParsing.Integer || style == Any) && SaneFormat(nfi)
    ensures Parse(s, style, nfi, t) == Ok(123)
  {
    Digits123(s);
    assert s == [] + [] + s + [] && AllWhite([]);
    assert t.Contains(123);
    ParseDigits(s, [], false, s, [], style, nfi, t);
  }

  /** "1000" under AllowThousands (Int32.cs 189), for the types that hold 1000. */
  lemma ParseThousand(s: string, t: IntegerType, nfi: NumberFormat)
    requires s == "1000" && t != Byte && t != SByte && SaneFormat(nfi)
    ensures Parse(s, {AllowThousands}, nfi, t) == Ok(1000)
  {
    Digits1000(s);
    assert s == [] + [] + s + [] && AllWhite([]);
    assert t.Contains(1000);
    ParseDigits(s, [], false, s, [], {AllowThousands}, nfi, t);
  }

  /** "10" under AllowThousands (Byte.cs 170, SByte.cs 186). */
  lemma ParseTen(s: string, t: IntegerType, nfi: NumberFormat)
    requires s == "10" && SaneFormat(nfi)
    ensures Parse(s, {AllowThousands}, nfi, t) == Ok(10)
  {
    Digits10(s);
    assert s == [] + [] + s + [] && AllWhite([]);
    assert t.Contains(10);
    ParseDigits(s, [], false, s, [], {AllowThousands}, nfi, t);
  }

  /** "0" under Integer (Int32.cs 182 and the same row of every integer file). */
  lemma ParseZero(s: string, t: IntegerType, nfi: NumberFormat)
    requires s == "0" && SaneFormat(nfi)
    ensures Parse(s, NumberParsing.Integer, nfi, t) == Ok(0)
  {
    assert AllDigits(s) && DecimalValue(s) == 0;
    assert s == [] + [] + s + [] && AllWhite([]);
    assert t.Contains(0);
    ParseDigits(s, [], false, s, [], NumberParsing.Integer, nfi, t);
  }

  /**
   * "-123" under Integer is -123 for the signed types and overflows the
   * unsigned ones (Int32.cs 181, SByte.cs 179).
   */
  lemma ParseNegative(s: string, t: IntegerType, nfi: NumberFormat)
    requires s == nfi.negativeSign + "123" && SaneFormat(nfi)
    ensures Parse(s, NumberParsing.Integer, nfi, t) == if t.Signed() then Ok(-123) else Err(Overflow)
  {
    Digits123("123");
    assert s == [] + nfi.negativeSign + "123" + [] && AllWhite([]);
    assert t.Contains(-123) <==> t.Signed();
    ParseDigits(s, [], true, "123", [], NumberParsing.Integer, nfi, t);
  }

  /**
   * "(123)" under AllowParentheses is -123 for the signed types (SByte.cs
   * 187, Int16.cs 190, Int32.cs 190, Int64.cs 190) and OverflowException for
   * the unsigned ones (Byte.cs 239, UInt16.cs 240, UInt32.cs 240, UInt64.cs 240).
   */
  lemma ParseParentheses(s: string, t: IntegerType, nfi: NumberFormat)
    requires s == "(123)" && SaneFormat(nfi)
    ensures Parse(s, {AllowParentheses}, nfi, t) == if t.Signed() then Ok(-123) else Err(Overflow)
  {
    Digits123("123");
    assert s == "(" + "123" + ")";
    assert t.Contains(-123) <==> t.Signed();
    ParseParenthesized(s, "123", {AllowParentheses}, nfi, t);
  }

  lemma HexPieces(s: string)
    requires s == "abc" || s == "ab" || s == "123" || s == "12"
    ensures s == [] + s + [] && AllWhite([]) && AllHexDigits(s)
    ensures HexDigitsValue(s) == if s == "abc" then 0xabc else if s == "ab" then 0xab else if s == "123" then 0x123 else 0x12
  {
    assert LeadingHexValue(s, 1) == HexValue(s[0]);
    if |s| == 3 {
      assert LeadingHexValue(s, 2) == 16 * HexValue(s[0]) + HexValue(s[1]);
    }
  }

  /**
   * Hex digits under HexNumber: "123" is 0x123, "abc" is 0xabc and "12" is
   * 0x12 (Int32.cs 187-188 and 195, Int16.cs 187-188, UInt16.cs 177), and
   * "ab" is 0xab (Byte.cs 176), read as a bit pattern of the type's width.
   */
  lemma ParseHex(s: string, t: IntegerType, nfi: NumberFormat)
    requires s == "abc" || s == "ab" || s == "123" || s == "12"
    requires s == "abc" || s == "123" ==> t != Byte && t != SByte
    ensures Parse(s, HexNumber, nfi, t) == Ok(Wrap(t, HexDigitsValue(s)))
    ensures HexDigitsValue(s) == if s == "abc" then 0xabc else if s == "ab" then 0xab else if s == "123" then 0x123 else 0x12
  {
    HexPieces(s);
    ParseHexDigits(s, [], s, [], nfi, t);
  }

  /** "ab" fits a byte (0xab, Byte.cs 176) but is -85 as an sbyte bit pattern. */
  lemma HexByteValues()
    ensures Wrap(Byte, 0xab) == 0xab && Wrap(SByte, 0xab) == -85
  {
  }

  // ---- rejected text ----

  /** A null string raises ArgumentNullException, and TryParse gives false and 0 (Int32.cs 239). */
  lemma RejectsNull(t: IntegerType, nfi: NumberFormat)
    ensures ParseNullable(None, NumberParsing.Integer, nfi, t) == Err(ArgumentNull)
    ensures TryParseNullable(None, NumberParsing.Integer, nfi, t) == Ok((false, 0))
  {
  }

  /** "" and " " raise FormatException under Integer (Int32.cs 240-241). */
  lemma RejectsEmpty(s: string, t: IntegerType, nfi: NumberFormat)
    requires s == "" || s == " "
    ensures Parse(s, NumberParsing.Integer, nfi, t) == Err(Format)
  {
    assert AllWhite(s);
    RejectsBlank(s, NumberParsing.Integer, nfi, t);
  }

  /**
   * Text that does not begin with a digit is FormatException under
   * Integer: "Garbage", "abc" and "ab" (hex letters without HexNumber),
   * "(123)" (parentheses), and the invariant culture's currency texts
   * "¤1,000" of 1000.ToString("C0") and "¤100" of 100.ToString("C0")
   * (Int32.cs 242-247, Byte.cs 223-228).
   */
  lemma RejectsLetters(s: string, t: IntegerType)
    requires s == "Garbage" || s == "abc" || s == "ab" || s == "(123)" || s == "\U{A4}1,000" || s == "\U{A4}100"
    ensures Parse(s, NumberParsing.Integer, Invariant, t) == Err(Format)
  {
    InvariantIsSane();
    assert s == [] + ([s[0]] + s[1..]) && AllWhite([]);
    RejectsNoDigits(s, [], s[0], s[1..], NumberParsing.Integer, Invariant, t);
  }

  /**
   * NumberStyles.None refuses the white space around "  123  " and " 123 "
   * and the letters of "abc" and "ab" (Int32.cs 251-252, Byte.cs 232-233).
   */
  lemma RejectsUnderNone(s: string, t: IntegerType, nfi: NumberFormat)
    requires (s == "  123  " || s == " 123 " || s == "abc" || s == "ab") && SaneFormat(nfi)
    ensures Parse(s, NoStyle, nfi, t) == Err(Format)
  {
    assert s == [] + ([s[0]] + s[1..]) && AllWhite([]);
    RejectsNoDigits(s, [], s[0], s[1..], NoStyle, nfi, t);
  }

  lemma AfterDigitsPieces(s: string, d: string, rest: string)
    requires (s == "1E23" && d == "1" && rest == "23") || (s == "1,000" && d == "1" && rest == "000")
      || (s == "678.90" && d == "678" && rest == "90") || (s == "67.90" && d == "67" && rest == "90")
    ensures AllDigits(d) && d != [] && AllWhite([])
    ensures s == [] + [] + (d + ([s[|d|]] + rest))
  {
  }

  /**
   * Digits followed by an exponent, a group separator or a decimal point
   * are FormatException under Integer: "1E23", the invariant text "1,000" of
   * 1000.ToString("N0"), "678.90" of 678.90.ToString("F2") (Int32.cs
   * 245-249), and "67.90" and "678.90" even when the culture's decimal
   * separator is "." (Int32.cs 254, UInt16.cs 236).
   */
  lemma RejectsAfterDigitsVectors(s: string, d: string, rest: string, t: IntegerType, nfi: NumberFormat)
    requires (s == "1E23" && d == "1" && rest == "23") || (s == "1,000" && d == "1" && rest == "000")
      || (s == "678.90" && d == "678" && rest == "90") || (s == "67.90" && d == "67" && rest == "90")
    requires nfi == Invariant || nfi == DollarFormat
    ensures Parse(s, NumberParsing.Integer, nfi, t) == Err(Format)
  {
    DollarFormatIsSane();
    InvariantIsSane();
    AfterDigitsPieces(s, d, rest);
    RejectsAfterDigits(s, [], false, d, s[|d|], rest, NumberParsing.Integer, nfi, t);
  }

  /** TryParse reports every FormatException and OverflowException above as (false, 0). */
  lemma TryParseRejects(s: string, style: NumberStyles, nfi: NumberFormat, t: IntegerType)
    requires Parse(s, style, nfi, t) == Err(Format) || Parse(s, style, nfi, t) == Err(Overflow)
    ensures TryParse(s, style, nfi, t) == Ok((false, 0))
  {
  }

  // ---- currency ----

  lemma Scan100(a: string, nfi: NumberFormat)
    requires a == "100" && SaneFormat(nfi)
    ensures AllDigits(a) && DecimalValue(a) == 100
    ensures ScanDigits(a, Currency, nfi, true, Mantissa([], [], false)) == ([], Mantissa(a, [], false))
  {
    ScanAllDigits(a, [], Currency, nfi, true, Mantissa([], [], false));
    assert a + [] == a && [] + a == a;
    ScanStops([], Currency, nfi, true, Mantissa(a, [], false));
    assert LeadingValue(a, 2) == 10;
  }

  /** A currency group separator after the first digit is skipped. */
  lemma ScanGroup(g: string, whole: string, nfi: NumberFormat)
    requires g == ",000" && whole == "1000" && SaneFormat(nfi)
    requires nfi.currencyGroupSeparator == "," && (nfi.currencyDecimalSeparator == [] || nfi.currencyDecimalSeparator[0] != ',')
    ensures AllDigits(whole)
    ensures ScanDigits(g, Currency, nfi, true, Mantissa("1", [], false)) == ([], Mantissa(whole, [], false))
  {
    var one := Mantissa("1", [], false);
    NoMatch(g, nfi.currencyDecimalSeparator);
    assert g[1..] == "000";
    assert ScanDigits(g, Currency, nfi, true, one) == ScanDigits("000", Currency, nfi, true, one);
    ScanAllDigits("000", [], Currency, nfi, true, one);
    assert "000" + [] == "000" && "1" + "000" == whole;
    ScanStops([], Currency, nfi, true, Mantissa(whole, [], false));
  }

  lemma Scan1000(a: string, whole: string, nfi: NumberFormat)
    requires a == "1,000" && whole == "1000" && SaneFormat(nfi)
    requires nfi.currencyGroupSeparator == "," && (nfi.currencyDecimalSeparator == [] || nfi.currencyDecimalSeparator[0] != ',')
    ensures AllDigits(whole) && DecimalValue(whole) == 1000
    ensures ScanDigits(a, Currency, nfi, true, Mantissa([], [], false)) == ([], Mantissa(whole, [], false))
  {
    assert a == "1" + ",000";
    ScanAllDigits("1", ",000", Currency, nfi, true, Mantissa([], [], false));
    assert [] + "1" == "1";
    ScanGroup(",000", whole, nfi);
    Digits1000(whole);
  }

  /** "$100" under Currency with CurrencySymbol "$" is 100 (Byte.cs 177, SByte.cs 193). */
  lemma ParseDollars100(s: string, t: IntegerType)
    requires s == "$100"
    ensures Parse(s, Currency, DollarFormat, t) == Ok(100)
  {
    var a := "100";
    DollarPieces(s, a);
    DollarFormatIsSane();
    Scan100(a, DollarFormat);
    ParseDollarFormat(s, a, a, 100, t);
  }

  /**
   * "$1,000" under Currency with CurrencySymbol "$" is 1000 (Int32.cs 196,
   * UInt16.cs 178), the group separator skipped.
   */
  lemma ParseDollars1000(s: string, t: IntegerType)
    requires s == "$1,000" && t != Byte && t != SByte
    ensures Parse(s, Currency, DollarFormat, t) == Ok(1000)
  {
    var a, whole := "1,000", "1000";
    DollarPieces(s, a);
    DollarFormatIsSane();
    Scan1000(a, whole, DollarFormat);
    Holds1000(t);
    ParseDollarFormat(s, a, whole, 1000, t);
  }

  lemma Holds1000(t: IntegerType)
    requires t != Byte && t != SByte
    ensures t.Contains(1000)
  {
  }

  /** Text after "$" under DollarFormat that scans to digits reading v. */
  lemma ParseDollarFormat(s: string, a: string, whole: string, v: nat, t: IntegerType)
    requires s == "$" + a && a != [] && IsDigit(a[0]) && AllDigits(whole) && whole != [] && DecimalValue(whole) == v
    requires ScanDigits(a, Currency, DollarFormat, true, Mantissa([], [], false)) == ([], Mantissa(whole, [], false))
    requires t.Contains(v)
    ensures Parse(s, Currency, DollarFormat, t) == Ok(v)
  {
    DollarFormatIsSane();
    ParseDollarText(s, a, whole, DollarFormat, t);
  }

  /** Text after a "$" currency symbol that scans to the digits `whole`. */
  lemma ParseDollarText(s: string, a: string, whole: string, nfi: NumberFormat, t: IntegerType)
    requires SaneFormat(nfi) && nfi.currencySymbol == "$" && nfi.negativeSign == "-" && nfi.positiveSign == "+"
    requires s == "$" + a && a != [] && IsDigit(a[0]) && AllDigits(whole) && whole != []
    requires ScanDigits(a, Currency, nfi, true, Mantissa([], [], false)) == ([], Mantissa(whole, [], false))
    requires t.Contains(DecimalValue(whole))
    ensures Parse(s, Currency, nfi, t) == Ok(DecimalValue(whole))
  {
    LeadingCurrency(s, a, Currency, nfi);
    ParseCurrencyWhole(s, a, whole, Currency, nfi, t);
  }

  // ---- the range rows ----

  /** Decimal text with or without the invariant negative sign, under Integer. */
  lemma ParseDecimalText(s: string, negative: bool, d: string, t: IntegerType)
    requires AllDigits(d) && d != [] && s == (if negative then "-" else "") + d
    ensures var v := if negative then -(DecimalValue(d) as int) else DecimalValue(d);
      Parse(s, NumberParsing.Integer, Invariant, t) == if t.Contains(v) then Ok(v) else Err(Overflow)
  {
    InvariantIsSane();
    assert s == [] + (if negative then Invariant.negativeSign else []) + d + [] && AllWhite([]);
    ParseDigits(s, [], negative, d, [], NumberParsing.Integer, Invariant, t);
  }

  /** Unsigned decimal text whose digits read v, under Integer. */
  lemma ParsePositiveText(s: string, v: nat, t: IntegerType)
    requires AllDigits(s) && s != [] && DecimalValue(s) == v
    ensures t.Contains(v) ==> Parse(s, NumberParsing.Integer, Invariant, t) == Ok(v)
    ensures !t.Contains(v) ==> Parse(s, NumberParsing.Integer, Invariant, t) == Err(Overflow)
  {
    ParseDecimalText(s, false, s, t);
  }

  /** Negative decimal text whose digits after the sign read v, under Integer. */
  lemma ParseNegativeText(s: string, v: nat, t: IntegerType)
    requires |s| >= 2 && s[0] == '-' && AllDigits(s[1..]) && DecimalValue(s[1..]) == v
    ensures t.Contains(-(v as int)) ==> Parse(s, NumberParsing.Integer, Invariant, t) == Ok(-(v as int))
    ensures !t.Contains(-(v as int)) ==> Parse(s, NumberParsing.Integer, Invariant, t) == Err(Overflow)
  {
    assert s == "-" + s[1..];
    ParseDecimalText(s, true, s[1..], t);
  }

  /** Byte: MaxValue reads back (Byte.cs 167). */
  lemma ByteParseLimits(hi: string)
    requires hi == "255"
    ensures Parse(hi, NumberParsing.Integer, Invariant, Byte) == Ok(255)
  {
    Digits255(hi);
    ParsePositiveText(hi, 255, Byte);
  }

  /** Byte: one step beyond either end raises OverflowException (Byte.cs 237-238). */
  lemma ByteParseBeyond(below: string, above: string)
    requires below == "-1" && above == "256"
    ensures Parse(below, NumberParsing.Integer, Invariant, Byte) == Err(Overflow)
    ensures Parse(above, NumberParsing.Integer, Invariant, Byte) == Err(Overflow)
  {
    ByteParseBelow(below);
    ByteParseAbove(above);
  }

  /** ByteParseBeyond: the text one below MinValue. */
  lemma ByteParseBelow(below: string)
    requires below == "-1"
    ensures Parse(below, NumberParsing.Integer, Invariant, Byte) == Err(Overflow)
  {
    Digits1(below[1..]);
    ParseNegativeText(below, 1, Byte);
  }

  /** ByteParseBeyond: the text one above MaxValue. */
  lemma ByteParseAbove(above: string)
    requires above == "256"
    ensures Parse(above, NumberParsing.Integer, Invariant, Byte) == Err(Overflow)
  {
    Digits256(above);
    ParsePositiveText(above, 256, Byte);
  }

  /** SByte: MaxValue reads back (SByte.cs 183). */
  lemma SByteParseLimits(hi: string)
    requires hi == "127"
    ensures Parse(hi, NumberParsing.Integer, Invariant, SByte) == Ok(127)
  {
    Digits127(hi);
    ParsePositiveText(hi, 127, SByte);
  }

  /** SByte: one step beyond either end raises OverflowException (SByte.cs 253-254). */
  lemma SByteParseBeyond(below: string, above: string)
    requires below == "-129" && above == "128"
    ensures Parse(below, NumberParsing.Integer, Invariant, SByte) == Err(Overflow)
    ensures Parse(above, NumberParsing.Integer, Invariant, SByte) == Err(Overflow)
  {
    SByteParseBelow(below);
    SByteParseAbove(above);
  }

  /** SByteParseBeyond: the text one below MinValue. */
  lemma SByteParseBelow(below: string)
    requires below == "-129"
    ensures Parse(below, NumberParsing.Integer, Invariant, SByte) == Err(Overflow)
  {
    Digits129(below[1..]);
    ParseNegativeText(below, 129, SByte);
  }

  /** SByteParseBeyond: the text one above MaxValue. */
  lemma SByteParseAbove(above: string)
    requires above == "128"
    ensures Parse(above, NumberParsing.Integer, Invariant, SByte) == Err(Overflow)
  {
    Digits128(above);
    ParsePositiveText(above, 128, SByte);
  }

  /** Int16: MinValue and MaxValue read back (Int16.cs 180-185). */
  lemma Int16ParseLimits(lo: string, hi: string)
    requires lo == "-32768" && hi == "32767"
    ensures Parse(lo, NumberParsing.Integer, Invariant, Int16) == Ok(-32768)
    ensures Parse(hi, NumberParsing.Integer, Invariant, Int16) == Ok(32767)
  {
    Int16ParseMin(lo);
    Int16ParseMax(hi);
  }

  /** Int16ParseLimits: the text of MinValue. */
  lemma Int16ParseMin(lo: string)
    requires lo == "-32768"
    ensures Parse(lo, NumberParsing.Integer, Invariant, Int16) == Ok(-32768)
  {
    Digits32768(lo[1..]);
    ParseNegativeText(lo, 32768, Int16);
  }

  /** Int16ParseLimits: the text of MaxValue. */
  lemma Int16ParseMax(hi: string)
    requires hi == "32767"
    ensures Parse(hi, NumberParsing.Integer, Invariant, Int16) == Ok(32767)
  {
    Digits32767(hi);
    ParsePositiveText(hi, 32767, Int16);
  }

  /** Int16: one step beyond either end raises OverflowException (Int16.cs 256-257). */
  lemma Int16ParseBeyond(below: string, above: string)
    requires below == "-32769" && above == "32768"
    ensures Parse(below, NumberParsing.Integer, Invariant, Int16) == Err(Overflow)
    ensures Parse(above, NumberParsing.Integer, Invariant, Int16) == Err(Overflow)
  {
    Int16ParseBelow(below);
    Int16ParseAbove(above);
  }

  /** Int16ParseBeyond: the text one below MinValue. */
  lemma Int16ParseBelow(below: string)
    requires below == "-32769"
    ensures Parse(below, NumberParsing.Integer, Invariant, Int16) == Err(Overflow)
  {
    Digits32769(below[1..]);
    ParseNegativeText(below, 32769, Int16);
  }

  /** Int16ParseBeyond: the text one above MaxValue. */
  lemma Int16ParseAbove(above: string)
    requires above == "32768"
    ensures Parse(above, NumberParsing.Integer, Invariant, Int16) == Err(Overflow)
  {
    Digits32768(above);
    ParsePositiveText(above, 32768, Int16);
  }

  /** UInt16: MaxValue reads back (UInt16.cs 168). */
  lemma UInt16ParseLimits(hi: string)
    requires hi == "65535"
    ensures Parse(hi, NumberParsing.Integer, Invariant, UInt16) == Ok(65535)
  {
    Digits65535(hi);
    ParsePositiveText(hi, 65535, UInt16);
  }

  /** UInt16: one step beyond either end raises OverflowException (UInt16.cs 238-239). */
  lemma UInt16ParseBeyond(below: string, above: string)
    requires below == "-1" && above == "65536"
    ensures Parse(below, NumberParsing.Integer, Invariant, UInt16) == Err(Overflow)
    ensures Parse(above, NumberParsing.Integer, Invariant, UInt16) == Err(Overflow)
  {
    UInt16ParseBelow(below);
    UInt16ParseAbove(above);
  }

  /** UInt16ParseBeyond: the text one below MinValue. */
  lemma UInt16ParseBelow(below: string)
    requires below == "-1"
    ensures Parse(below, NumberParsing.Integer, Invariant, UInt16) == Err(Overflow)
  {
    Digits1(below[1..]);
    ParseNegativeText(below, 1, UInt16);
  }

  /** UInt16ParseBeyond: the text one above MaxValue. */
  lemma UInt16ParseAbove(above: string)
    requires above == "65536"
    ensures Parse(above, NumberParsing.Integer, Invariant, UInt16) == Err(Overflow)
  {
    Digits65536(above);
    ParsePositiveText(above, 65536, UInt16);
  }

  /** Int32: MinValue and MaxValue read back (Int32.cs 180-185). */
  lemma Int32ParseLimits(lo: string, hi: string)
    requires lo == "-2147483648" && hi == "2147483647"
    ensures Parse(lo, NumberParsing.Integer, Invariant, Int32) == Ok(-2147483648)
    ensures Parse(hi, NumberParsing.Integer, Invariant, Int32) == Ok(2147483647)
  {
    Int32ParseMin(lo);
    Int32ParseMax(hi);
  }

  /** Int32ParseLimits: the text of MinValue. */
  lemma Int32ParseMin(lo: string)
    requires lo == "-2147483648"
    ensures Parse(lo, NumberParsing.Integer, Invariant, Int32) == Ok(-2147483648)
  {
    Digits2147483648(lo[1..]);
    ParseNegativeText(lo, 2147483648, Int32);
  }

  /** Int32ParseLimits: the text of MaxValue. */
  lemma Int32ParseMax(hi: string)
    requires hi == "2147483647"
    ensures Parse(hi, NumberParsing.Integer, Invariant, Int32) == Ok(2147483647)
  {
    Digits2147483647(hi);
    ParsePositiveText(hi, 2147483647, Int32);
  }

  /** Int32: one step beyond either end raises OverflowException (Int32.cs 256-257). */
  lemma Int32ParseBeyond(below: string, above: string)
    requires below == "-2147483649" && above == "2147483648"
    ensures Parse(below, NumberParsing.Integer, Invariant, Int32) == Err(Overflow)
    ensures Parse(above, NumberParsing.Integer, Invariant, Int32) == Err(Overflow)
  {
    Int32ParseBelow(below);
    Int32ParseAbove(above);
  }

  /** Int32ParseBeyond: the text one below MinValue. */
  lemma Int32ParseBelow(below: string)
    requires below == "-2147483649"
    ensures Parse(below, NumberParsing.Integer, Invariant, Int32) == Err(Overflow)
  {
    Digits2147483649(below[1..]);
    ParseNegativeText(below, 2147483649, Int32);
  }

  /** Int32ParseBeyond: the text one above MaxValue. */
  lemma Int32ParseAbove(above: string)
    requires above == "2147483648"
    ensures Parse(above, NumberParsing.Integer, Invariant, Int32) == Err(Overflow)
  {
    Digits2147483648(above);
    ParsePositiveText(above, 2147483648, Int32);
  }

  /** UInt32: MaxValue reads back (UInt32.cs 168). */
  lemma UInt32ParseLimits(hi: string)
    requires hi == "4294967295"
    ensures Parse(hi, NumberParsing.Integer, Invariant, UInt32) == Ok(4294967295)
  {
    Digits4294967295(hi);
    ParsePositiveText(hi, 4294967295, UInt32);
  }

  /** UInt32: one step beyond either end raises OverflowException (UInt32.cs 238-239). */
  lemma UInt32ParseBeyond(below: string, above: string)
    requires below == "-1" && above == "4294967296"
    ensures Parse(below, NumberParsing.Integer, Invariant, UInt32) == Err(Overflow)
    ensures Parse(above, NumberParsing.Integer, Invariant, UInt32) == Err(Overflow)
  {
    UInt32ParseBelow(below);
    UInt32ParseAbove(above);
  }

  /** UInt32ParseBeyond: the text one below MinValue. */
  lemma UInt32ParseBelow(below: string)
    requires below == "-1"
    ensures Parse(below, NumberParsing.Integer, Invariant, UInt32) == Err(Overflow)
  {
    Digits1(below[1..]);
    ParseNegativeText(below, 1, UInt32);
  }

  /** UInt32ParseBeyond: the text one above MaxValue. */
  lemma UInt32ParseAbove(above: string)
    requires above == "4294967296"
    ensures Parse(above, NumberParsing.Integer, Invariant, UInt32) == Err(Overflow)
  {
    Digits4294967296(above);
    ParsePositiveText(above, 4294967296, UInt32);
  }

  /** Int64: MinValue and MaxValue read back (Int64.cs 180-185). */
  lemma Int64ParseLimits(lo: string, hi: string)
    requires lo == "-9223372036854775808" && hi == "9223372036854775807"
    ensures Parse(lo, NumberParsing.Integer, Invariant, Int64) == Ok(-9223372036854775808)
    ensures Parse(hi, NumberParsing.Integer, Invariant, Int64) == Ok(9223372036854775807)
  {
    Int64ParseMin(lo);
    Int64ParseMax(hi);
  }

  /** Int64ParseLimits: the text of MinValue. */
  lemma Int64ParseMin(lo: string)
    requires lo == "-9223372036854775808"
    ensures Parse(lo, NumberParsing.Integer, Invariant, Int64) == Ok(-9223372036854775808)
  {
    Digits9223372036854775808(lo[1..]);
    ParseNegativeText(lo, 9223372036854775808, Int64);
  }

  /** Int64ParseLimits: the text of MaxValue. */
  lemma Int64ParseMax(hi: string)
    requires hi == "9223372036854775807"
    ensures Parse(hi, NumberParsing.Integer, Invariant, Int64) == Ok(9223372036854775807)
  {
    Digits9223372036854775807(hi);
    ParsePositiveText(hi, 9223372036854775807, Int64);
  }

  /** Int64: one step beyond either end raises OverflowException (Int64.cs 256-257). */
  lemma Int64ParseBeyond(below: string, above: string)
    requires below == "-9223372036854775809" && above == "9223372036854775808"
    ensures Parse(below, NumberParsing.Integer, Invariant, Int64) == Err(Overflow)
    ensures Parse(above, NumberParsing.Integer, Invariant, Int64) == Err(Overflow)
  {
    Int64ParseBelow(below);
    Int64ParseAbove(above);
  }

  /** Int64ParseBeyond: the text one below MinValue. */
  lemma Int64ParseBelow(below: string)
    requires below == "-9223372036854775809"
    ensures Parse(below, NumberParsing.Integer, Invariant, Int64) == Err(Overflow)
  {
    Digits9223372036854775809(below[1..]);
    ParseNegativeText(below, 9223372036854775809, Int64);
  }

  /** Int64ParseBeyond: the text one above MaxValue. */
  lemma Int64ParseAbove(above: string)
    requires above == "9223372036854775808"
    ensures Parse(above, NumberParsing.Integer, Invariant, Int64) == Err(Overflow)
  {
    Digits9223372036854775808(above);
    ParsePositiveText(above, 9223372036854775808, Int64);
  }

  /** UInt64: MaxValue reads back (UInt64.cs 168). */
  lemma UInt64ParseLimits(hi: string)
    requires hi == "18446744073709551615"
    ensures Parse(hi, NumberParsing.Integer, Invariant, UInt64) == Ok(18446744073709551615)
  {
    Digits18446744073709551615(hi);
    ParsePositiveText(hi, 18446744073709551615, UInt64);
  }

  /** UInt64: one step beyond either end raises OverflowException (UInt64.cs 238-239). */
  lemma UInt64ParseBeyond(below: string, above: string)
    requires below == "-1" && above == "18446744073709551616"
    ensures Parse(below, NumberParsing.Integer, Invariant, UInt64) == Err(Overflow)
    ensures Parse(above, NumberParsing.Integer, Invariant, UInt64) == Err(Overflow)
  {
    UInt64ParseBelow(below);
    UInt64ParseAbove(above);
  }

  /** UInt64ParseBeyond: the text one below MinValue. */
  lemma UInt64ParseBelow(below: string)
    requires below == "-1"
    ensures Parse(below, NumberParsing.Integer, Invariant, UInt64) == Err(Overflow)
  {
    Digits1(below[1..]);
    ParseNegativeText(below, 1, UInt64);
  }

  /** UInt64ParseBeyond: the text one above MaxValue. */
  lemma UInt64ParseAbove(above: string)
    requires above == "18446744073709551616"
    ensures Parse(above, NumberParsing.Integer, Invariant, UInt64) == Err(Overflow)
  {
    Digits18446744073709551616(above);
    ParsePositiveText(above, 18446744073709551616, UInt64);
  }
}
