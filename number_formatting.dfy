// ToString of the integer types under a standard format string and a
// NumberFormatInfo (the ToString, ToString_FormatProvider, ToString_Format
// and ToString_Format_FormatProvider vectors of Byte.cs, SByte.cs, Int16.cs,
// UInt16.cs, Int32.cs, UInt32.cs, Int64.cs and UInt64.cs), and how each
// form reads back through Parse.
module NumberFormatting {
  import opened Wrappers
  import opened Digits
  import opened Integers
  import opened NumberParsing

  /** The standard format specifiers the model gives text for. */
  datatype Specifier = General | DecimalDigits | Hexadecimal(upper: bool) | GroupedNumber

  /** A standard format string: a specifier letter and an optional precision of up to two digits. */
  datatype StandardFormat = StandardFormat(specifier: Specifier, precision: Option<nat>)

  predicate IsLetter(c: char) { 'A' <= c <= 'Z' || 'a' <= c <= 'z' }

  function Upper(c: char): (u: char)
    requires IsLetter(c)
    ensures 'A' <= u <= 'Z'
  {
    if 'a' <= c <= 'z' then (c as int - 32) as char else c
  }

  /** A format string of the standard shape: one letter and at most two digits. */
  predicate StandardShape(f: string) {
    |f| >= 1 && IsLetter(f[0]) && |f| <= 3 && AllDigits(f[1..])
  }

  /**
   * The format string read as a standard format. The empty string is "G".
   * Letters G, D, X and N are modelled in either case; C, E, F and P,
   * and every custom pattern, are outside the model (NotSupported); any
   * other letter, R (round-trip, for floating point only) included,
   * raises FormatException.
   */
  function ParseFormat(f: string): (r: Result<StandardFormat>)
    ensures r.Err? ==> r.error == Format || r.error == NotSupported
    ensures r == Err(Format) <==> StandardShape(f) && Upper(f[0]) !in "GDXNCEFP"
    ensures r.Ok? <==> f == [] || (StandardShape(f) && Upper(f[0]) in "GDXN")
    ensures r.Ok? && f != [] ==> r.value.precision == if |f| == 1 then None else Some(DecimalValue(f[1..]))
    ensures r.Ok? && f == [] ==> r.value == StandardFormat(General, None)
  {
    if f == [] then Ok(StandardFormat(General, None))
    else if StandardShape(f) then
      var precision := if |f| == 1 then None else Some(DecimalValue(f[1..]));
      var c := Upper(f[0]);
      if c == 'G' then Ok(StandardFormat(General, precision))
      else if c == 'D' then Ok(StandardFormat(DecimalDigits, precision))
      else if c == 'X' then Ok(StandardFormat(Hexadecimal(f[0] == 'X'), precision))
      else if c == 'N' then Ok(StandardFormat(GroupedNumber, precision))
      else if c in "CEFP" then Err(NotSupported)
      else Err(Format)
    else Err(NotSupported)
  }

  /** The negative sign when v is negative, nothing otherwise. */
  function SignOf(v: int, nfi: NumberFormat): string {
    if v < 0 then nfi.negativeSign else []
  }

  /** "D" with a minimum digit count: the sign, then the magnitude zero-padded. */
  function DecimalForm(v: int, minDigits: nat, nfi: NumberFormat): string {
    SignOf(v, nfi) + ZeroPadded(DecimalText(Abs(v)), minDigits)
  }

  /** "X": the bit pattern over the type's width in hex, zero-padded. */
  function HexForm(t: IntegerType, v: int, minDigits: nat, upper: bool): string {
    ZeroPadded(HexText(Unsigned(t, v), upper), minDigits)
  }

  /** Digits in groups of three from the right, joined by `sep`. */
  function Grouped(d: string, sep: string): (r: string)
    ensures d != [] ==> r != [] && r[0] == d[0]
    decreases |d|
  {
    if |d| <= 3 then d
    else
      var head := Grouped(d[..|d| - 3], sep);
      head + sep + d[|d| - 3..]
  }

  /**
   * "N": the sign, the digits grouped in threes, and `decimals` zero
   * digits after the decimal separator.
   */
  function NumberForm(v: int, decimals: nat, nfi: NumberFormat): string {
    SignOf(v, nfi) + NumberBody(DecimalText(Abs(v)), decimals, nfi)
  }

  /** The grouped digits and the zero decimals of "N" text. */
  function NumberBody(d: string, decimals: nat, nfi: NumberFormat): string {
    Grouped(d, nfi.numberGroupSeparator) + (if decimals > 0 then nfi.numberDecimalSeparator + Zeros(decimals) else [])
  }

  /**
   * T.ToString(format, provider). "G" and "D" give the decimal digits with
   * the culture's negative sign ("G" with a precision below the digit count
   * switches to scientific notation, which is outside the model); "X" the
   * two's complement hex digits, in the case of the letter; "N" groups the
   * digits and adds NumberDecimalDigits (or the precision's count of) zero
   * decimals.
   */
  function ToString(t: IntegerType, v: int, f: string, nfi: NumberFormat): (r: Result<string>)
    requires t.Contains(v)
    ensures r.Err? ==> r.error == Format || r.error == NotSupported
    ensures ParseFormat(f).Err? ==> r == Err(ParseFormat(f).error)
  {
    var parsed :- ParseFormat(f);
    var p := if parsed.precision.Some? then parsed.precision.value else 0;
    match parsed.specifier
    case General =>
      if 0 < p < |DecimalText(Abs(v))| then Err(NotSupported) else Ok(DecimalForm(v, 0, nfi))
    case DecimalDigits => Ok(DecimalForm(v, p, nfi))
    case Hexadecimal(upper) => Ok(HexForm(t, v, p, upper))
    case GroupedNumber =>
      Ok(NumberForm(v, if parsed.precision.Some? then p else nfi.numberDecimalDigits, nfi))
  }

  /** The parameterless ToString() is ToString("G"), and so is the empty format. */
  lemma DefaultIsGeneral(t: IntegerType, v: int, nfi: NumberFormat)
    requires t.Contains(v)
    ensures ToString(t, v, "", nfi) == ToString(t, v, "G", nfi) == Ok(DecimalForm(v, 0, nfi))
  {
    assert StandardShape("G") && Upper('G') == 'G';
  }

  /** "G" text is the shortest decimal text: no leading zeros, and a sign only for negatives. */
  lemma GeneralIsCanonical(t: IntegerType, v: int, nfi: NumberFormat)
    requires t.Contains(v)
    ensures ToString(t, v, "G", nfi).Ok?
    ensures var s := ToString(t, v, "G", nfi).value;
      s == SignOf(v, nfi) + DecimalText(Abs(v)) && Canonical(DecimalText(Abs(v)))
  {
    DefaultIsGeneral(t, v, nfi);
    var d := DecimalText(Abs(v));
    assert ZeroPadded(d, 0) == d;
    if d[0] == '0' {
      assert Abs(v) == 0;
    }
  }

  /**
   * The G, D and N specifiers do not depend on the case of their letter
   * (the tests format with both ToUpperInvariant and ToLowerInvariant).
   */
  lemma SpecifierCase(t: IntegerType, v: int, c: char, digits: string, nfi: NumberFormat)
    requires t.Contains(v) && (c == 'G' || c == 'D' || c == 'N') && |digits| <= 2 && AllDigits(digits)
    ensures ToString(t, v, [c] + digits, nfi) == ToString(t, v, [(c as int + 32) as char] + digits, nfi)
  {
    var lower := (c as int + 32) as char;
    assert ([c] + digits)[1..] == digits && ([lower] + digits)[1..] == digits;
    assert Upper(lower) == c;
  }

  /** "X" and "x" without a precision: the unpadded hex digits, in the case of the letter. */
  lemma HexSpecifier(t: IntegerType, v: int, f: string, nfi: NumberFormat)
    requires t.Contains(v) && (f == "X" || f == "x")
    ensures ToString(t, v, f, nfi) == Ok(HexForm(t, v, 0, f == "X"))
  {
    assert StandardShape(f) && f[1..] == [] && Upper(f[0]) == 'X';
  }

  /** "G" text reads back as the same value under NumberStyles.Integer. */
  lemma GeneralRoundTrip(t: IntegerType, v: int, nfi: NumberFormat)
    requires t.Contains(v) && SaneFormat(nfi)
    ensures ToString(t, v, "G", nfi).Ok?
    ensures Parse(ToString(t, v, "G", nfi).value, NumberParsing.Integer, nfi, t) == Ok(v)
  {
    GeneralIsCanonical(t, v, nfi);
    DecimalTextRoundTrip(Abs(v));
    DigitsParse(t, v, DecimalText(Abs(v)), nfi);
  }

  /**
   * Signed digits whose magnitude is |v| read back as v, or raise
   * OverflowException when the type cannot hold v.
   */
  lemma DigitsParse(t: IntegerType, v: int, d: string, nfi: NumberFormat)
    requires SaneFormat(nfi) && AllDigits(d) && d != [] && DecimalValue(d) == Abs(v)
    ensures Parse(SignOf(v, nfi) + d, NumberParsing.Integer, nfi, t) == if t.Contains(v) then Ok(v) else Err(Overflow)
  {
    var s := SignOf(v, nfi) + d;
    assert AllWhite([]);
    assert s == [] + (if v < 0 then nfi.negativeSign else []) + d + [] by {
      Unpadded(s);
    }
    ParseDigits(s, [], v < 0, d, [], NumberParsing.Integer, nfi, t);
    assert (if v < 0 then -(DecimalValue(d) as int) else DecimalValue(d)) == v;
  }

  /** Text with nothing around it. */
  lemma Unpadded(s: string)
    ensures [] + s + [] == s
  {
  }

  /** "D" text with any minimum digit count reads back as the same value. */
  lemma DecimalRoundTrip(t: IntegerType, v: int, minDigits: nat, nfi: NumberFormat)
    requires t.Contains(v) && SaneFormat(nfi)
    ensures Parse(DecimalForm(v, minDigits, nfi), NumberParsing.Integer, nfi, t) == Ok(v)
  {
    var d := DecimalText(Abs(v));
    var padded := ZeroPadded(d, minDigits);
    assert AllDigits(padded) && padded != [] && DecimalValue(padded) == Abs(v) by {
      DecimalTextRoundTrip(Abs(v));
      ZeroPaddedValue(d, minDigits);
    }
    DigitsParse(t, v, padded, nfi);
  }

  /** "D" text of a value outside the type's range raises OverflowException. */
  lemma DecimalOverflow(t: IntegerType, v: int, minDigits: nat, nfi: NumberFormat)
    requires !t.Contains(v) && SaneFormat(nfi)
    ensures Parse(DecimalForm(v, minDigits, nfi), NumberParsing.Integer, nfi, t) == Err(Overflow)
  {
    var d := DecimalText(Abs(v));
    var padded := ZeroPadded(d, minDigits);
    assert AllDigits(padded) && padded != [] && DecimalValue(padded) == Abs(v) by {
      DecimalTextRoundTrip(Abs(v));
      ZeroPaddedValue(d, minDigits);
    }
    DigitsParse(t, v, padded, nfi);
  }

  /** For every width, the text of MinValue and of MaxValue reads back. */
  lemma ParseRangeLimits(t: IntegerType, nfi: NumberFormat)
    requires SaneFormat(nfi)
    ensures Parse(DecimalForm(t.MinValue(), 0, nfi), NumberParsing.Integer, nfi, t) == Ok(t.MinValue())
    ensures Parse(DecimalForm(t.MaxValue(), 0, nfi), NumberParsing.Integer, nfi, t) == Ok(t.MaxValue())
  {
    RangeWidth(t);
    DecimalRoundTrip(t, t.MinValue(), 0, nfi);
    DecimalRoundTrip(t, t.MaxValue(), 0, nfi);
  }

  /** For every width, the text of the value one beyond either end raises OverflowException. */
  lemma ParseRangeBeyond(t: IntegerType, nfi: NumberFormat)
    requires SaneFormat(nfi)
    ensures Parse(DecimalForm(t.MinValue() - 1, 0, nfi), NumberParsing.Integer, nfi, t) == Err(Overflow)
    ensures Parse(DecimalForm(t.MaxValue() + 1, 0, nfi), NumberParsing.Integer, nfi, t) == Err(Overflow)
  {
    DecimalOverflow(t, t.MinValue() - 1, 0, nfi);
    DecimalOverflow(t, t.MaxValue() + 1, 0, nfi);
  }

  /** "X" text with any minimum digit count reads back as the same value under HexNumber. */
  lemma HexRoundTrip(t: IntegerType, v: int, minDigits: nat, upper: bool, nfi: NumberFormat)
    requires t.Contains(v)
    ensures Parse(HexForm(t, v, minDigits, upper), HexNumber, nfi, t) == Ok(v)
  {
    var s := HexForm(t, v, minDigits, upper);
    assert AllHexDigits(s) && s != [] && HexDigitsValue(s) == Unsigned(t, v) by {
      HexZeroPaddedValue(HexText(Unsigned(t, v), upper), minDigits);
    }
    assert Parse(s, HexNumber, nfi, t) == Ok(Wrap(t, Unsigned(t, v))) by {
      assert AllWhite([]);
      Unpadded(s);
      ParseHexDigits(s, [], s, [], nfi, t);
    }
    WrapUnsigned(t, v);
  }

  /**
   * Culture data whose "N" text reads back: a decimal separator (the
   * NumberFormatInfo setter refuses an empty one) and a group separator
   * that cannot be mistaken for it.
   */
  predicate Separable(nfi: NumberFormat) {
    nfi.numberDecimalSeparator != []
    && (nfi.numberGroupSeparator == [] || nfi.numberGroupSeparator[0] != nfi.numberDecimalSeparator[0])
  }

  /** A group separator between integer digits is skipped under NumberStyles.Number. */
  lemma ScanSeparator(y: string, nfi: NumberFormat, m: Mantissa)
    requires SaneFormat(nfi) && Separable(nfi) && WellFormed(m) && m.whole != [] && !m.point
    ensures ScanDigits(nfi.numberGroupSeparator + y, Number, nfi, false, m) == ScanDigits(y, Number, nfi, false, m)
  {
    var g := nfi.numberGroupSeparator;
    if g == [] {
      assert g + y == y;
    } else {
      var s := g + y;
      NumberFlags(nfi);
      assert s[0] == g[0] && !IsDigit(s[0]);
      assert Matches(s, g) && s[|g|..] == y;
      assert !Matches(s, nfi.numberDecimalSeparator) by {
        NoMatch(s, nfi.numberDecimalSeparator);
      }
    }
  }

  /** The decimal separator in front of the fraction digits starts the fraction. */
  lemma ScanPoint(z: string, nfi: NumberFormat, m: Mantissa)
    requires SaneFormat(nfi) && Separable(nfi) && WellFormed(m) && !m.point
    ensures ScanDigits(nfi.numberDecimalSeparator + z, Number, nfi, false, m) == ScanDigits(z, Number, nfi, false, m.(point := true))
  {
    var p := nfi.numberDecimalSeparator;
    var s := p + z;
    NumberFlags(nfi);
    assert s[0] == p[0] && !IsDigit(s[0]);
    assert Matches(s, p) && s[|p|..] == z;
  }

  /** Digits grouped in threes are read as the digits themselves. */
  lemma {:induction false} ScanGrouped(d: string, rest: string, nfi: NumberFormat, m: Mantissa)
    requires SaneFormat(nfi) && Separable(nfi) && WellFormed(m) && !m.point && AllDigits(d)
    ensures ScanDigits(Grouped(d, nfi.numberGroupSeparator) + rest, Number, nfi, false, m)
      == ScanDigits(rest, Number, nfi, false, Extended(m, d))
    decreases |d|
  {
    var g := nfi.numberGroupSeparator;
    if |d| <= 3 {
      ScanAllDigits(d, rest, Number, nfi, false, m);
    } else {
      var head, tail := d[..|d| - 3], d[|d| - 3..];
      assert AllDigits(head) && AllDigits(tail) && head + tail == d;
      assert Grouped(d, g) + rest == Grouped(head, g) + (g + (tail + rest));
      ScanGrouped(head, g + (tail + rest), nfi, m);
      var m' := Extended(m, head);
      assert m'.whole == m.whole + head;
      ScanSeparator(tail + rest, nfi, m');
      ScanAllDigits(tail, rest, Number, nfi, false, m');
      ExtendedTwice(m, head, tail);
    }
  }

  /** x * 10^p scaled down by p decimal places is x. */
  lemma ScaledBack(x: nat, p: nat)
    requires p > 0
    ensures Scaled(x * Pow10(p), -(p as int)) == Some(x)
  {
    var q := Pow10(p);
    assert (x * q) % q == 0 && (x * q) / q == x by {
      MulMod(x, q);
    }
  }

  /** A multiple of q divides by q exactly. */
  lemma MulMod(x: nat, q: nat)
    requires q >= 1
    ensures (x * q) % q == 0 && (x * q) / q == x
  {
    var y := x * q;
    var k, r := y / q, y % q;
    assert y == k * q + r && 0 <= r < q;
    assert (x - k) * q == r;
    if x > k {
      AtLeastOnce(x - k, q);
      assert false;
    } else if x < k {
      AtLeastOnce(k - x, q);
      assert false;
    }
  }

  lemma AtLeastOnce(a: int, q: int)
    requires a >= 1 && q >= 1
    ensures a * q >= q
  {
  }

  /** The flags of NumberStyles.Number the digit scanner consults. */
  lemma NumberFlags(nfi: NumberFormat)
    ensures AllowDecimalPoint in Number && AllowThousands in Number && AllowCurrencySymbol !in Number
    ensures AllowHexSpecifier !in Number && AllowLeadingSign in Number
    ensures DecimalSeparator(Number, nfi) == nfi.numberDecimalSeparator
    ensures GroupSeparator(Number, nfi) == nfi.numberGroupSeparator
  {
  }

  /** The mantissa "N" text produces: the integer digits, and `decimals` zeros after the point. */
  function NumberMantissa(d: string, decimals: nat): (m: Mantissa)
    requires AllDigits(d)
    ensures WellFormed(m)
  {
    if decimals > 0 then Mantissa(d, Zeros(decimals), true) else Mantissa(d, [], false)
  }

  /** The digits and fraction of "N" text are read into the mantissa, up to the end of the text. */
  lemma ScanNumber(d: string, decimals: nat, nfi: NumberFormat)
    requires SaneFormat(nfi) && Separable(nfi) && AllDigits(d)
    ensures ScanDigits(NumberBody(d, decimals, nfi), Number, nfi, false, Mantissa([], [], false))
      == ([], NumberMantissa(d, decimals))
  {
    var tail := if decimals > 0 then nfi.numberDecimalSeparator + Zeros(decimals) else [];
    var m := Mantissa(d, [], false);
    ScanGrouped(d, tail, nfi, Mantissa([], [], false));
    assert Extended(Mantissa([], [], false), d) == m;
    if decimals > 0 {
      var z := Zeros(decimals);
      ScanPoint(z, nfi, m);
      assert z + [] == z && [] + z == z;
      ScanAllDigits(z, [], Number, nfi, false, m.(point := true));
      assert Extended(m.(point := true), z) == NumberMantissa(d, decimals);
      ScanStops([], Number, nfi, false, NumberMantissa(d, decimals));
    } else {
      ScanStops([], Number, nfi, false, m);
    }
  }

  /** The mantissa of "N" text has the value of its integer digits. */
  lemma NumberMantissaValue(d: string, decimals: nat)
    requires AllDigits(d)
    ensures var m := NumberMantissa(d, decimals);
      Scaled(MantissaValue(m), -(|m.fraction| as int)) == Some(DecimalValue(d))
  {
    if decimals > 0 {
      TrailingZeros(d, decimals);
      ScaledBack(DecimalValue(d), decimals);
    } else {
      WholeValue(d);
    }
  }

  /** The leading stage of "N" text stops at its digits, and the scanner reads those to the end. */
  lemma NumberStages(v: int, decimals: nat, nfi: NumberFormat)
    requires SaneFormat(nfi) && Separable(nfi)
    ensures var d := DecimalText(Abs(v));
      Leading(NumberForm(v, decimals, nfi), Number, nfi, NoSigns) == (NumberBody(d, decimals, nfi), Signs(v < 0, v < 0, false, false))
    ensures var d := DecimalText(Abs(v));
      ScanDigits(NumberBody(d, decimals, nfi), Number, nfi, false, Mantissa([], [], false)) == ([], NumberMantissa(d, decimals))
  {
    var d := DecimalText(Abs(v));
    var body := NumberBody(d, decimals, nfi);
    var s := NumberForm(v, decimals, nfi);
    assert Leading(s, Number, nfi, NoSigns) == (body, Signs(v < 0, v < 0, false, false)) by {
      assert s == [] + SignOf(v, nfi) + body;
      assert AllWhite([]);
      NumberFlags(nfi);
      LeadingSigned(s, [], v < 0, body, Number, nfi);
    }
    ScanNumber(d, decimals, nfi);
  }

  /** "N" text, grouped and with any number of zero decimals, reads back as the same value under NumberStyles.Number. */
  lemma NumberRoundTrip(t: IntegerType, v: int, decimals: nat, nfi: NumberFormat)
    requires t.Contains(v) && SaneFormat(nfi) && Separable(nfi)
    ensures Parse(NumberForm(v, decimals, nfi), Number, nfi, t) == Ok(v)
  {
    var d := DecimalText(Abs(v));
    var m := NumberMantissa(d, decimals);
    NumberStages(v, decimals, nfi);
    NumberFlags(nfi);
    assert Scaled(MantissaValue(m), -(|m.fraction| as int)) == Some(Abs(v)) by {
      DecimalTextRoundTrip(Abs(v));
      NumberMantissaValue(d, decimals);
    }
    ParseToValue(NumberForm(v, decimals, nfi), Number, nfi, t, NumberBody(d, decimals, nfi), Signs(v < 0, v < 0, false, false), m, v);
  }

  /**
   * A negative zero written with a decimal point, such as "-0.0", under
   * NumberStyles.Number: the point keeps the sign, so UInt16, UInt32 and
   * UInt64 raise OverflowException while the other types read 0.
   */
  lemma NegativeZeroWithPoint(t: IntegerType, decimals: nat, nfi: NumberFormat)
    requires SaneFormat(nfi) && Separable(nfi) && decimals > 0
    ensures Parse(nfi.negativeSign + NumberBody("0", decimals, nfi), Number, nfi, t)
      == if RefusesNegativeZero(t) then Err(Overflow) else Ok(0)
  {
    var d := DecimalText(0);
    DecimalTextRoundTrip(0);
    var body := NumberBody(d, decimals, nfi);
    var s := nfi.negativeSign + body;
    var m := NumberMantissa(d, decimals);
    NumberFlags(nfi);
    assert Leading(s, Number, nfi, NoSigns) == (body, Signs(true, true, false, false)) by {
      assert s == [] + nfi.negativeSign + body;
      assert AllWhite([]);
      LeadingSigned(s, [], true, body, Number, nfi);
    }
    ScanNumber(d, decimals, nfi);
    NumberMantissaValue(d, decimals);
    ParseToEnd(s, Number, nfi, t, body, Signs(true, true, false, false), m);
    assert m.point && Scaled(MantissaValue(m), -(|m.fraction| as int)) == Some(0);
    SignedNegativeZero(t);
  }
}
