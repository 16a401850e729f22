// Parse and TryParse of the integer types under a NumberStyles and a
// NumberFormatInfo (the Parse_Valid_Data and Parse_Invalid_Data vectors of
// Byte.cs, SByte.cs, Int16.cs, UInt16.cs, Int32.cs, UInt32.cs, Int64.cs and
// UInt64.cs). One parser serves every width: the text is read as an exact
// number and then checked against the type's range.
module NumberParsing {
  import opened Wrappers
  import opened Digits
  import opened Integers

  /** The flags of a NumberStyles value. */
  datatype StyleFlag =
    | AllowLeadingWhite
    | AllowTrailingWhite
    | AllowLeadingSign
    | AllowTrailingSign
    | AllowParentheses
    | AllowDecimalPoint
    | AllowThousands
    | AllowExponent
    | AllowCurrencySymbol
    | AllowHexSpecifier

  type NumberStyles = set<StyleFlag>

  /** NumberStyles.None: nothing but digits. */
  const NoStyle: NumberStyles := {}
  const Integer: NumberStyles := {AllowLeadingWhite, AllowTrailingWhite, AllowLeadingSign}
  const HexNumber: NumberStyles := {AllowLeadingWhite, AllowTrailingWhite, AllowHexSpecifier}
  const Number: NumberStyles := Integer + {AllowTrailingSign, AllowDecimalPoint, AllowThousands}
  const Currency: NumberStyles := Number + {AllowParentheses, AllowCurrencySymbol}
  const Any: NumberStyles := Currency + {AllowExponent}

  /** The culture data parsing and formatting consult. */
  datatype NumberFormat = NumberFormat(
    negativeSign: string,
    positiveSign: string,
    numberDecimalSeparator: string,
    numberGroupSeparator: string,
    currencySymbol: string,
    currencyDecimalSeparator: string,
    currencyGroupSeparator: string,
    numberDecimalDigits: nat)

  /** `new NumberFormatInfo()`: the invariant culture's data. */
  const Invariant: NumberFormat := NumberFormat("-", "+", ".", ",", "\U{A4}", ".", ",", 2)

  /** The characters the parser skips as white space: space, and tab through carriage return. */
  predicate IsWhite(c: char) { c == ' ' || '\t' <= c <= '\r' }

  predicate AllWhite(s: string) { forall k :: 0 <= k < |s| ==> IsWhite(s[k]) }

  /** A parse may stop in front of trailing NUL characters. */
  predicate AllNul(s: string) { forall k :: 0 <= k < |s| ==> s[k] == '\0' }

  /** `p` is a non-empty prefix of `s`; an empty symbol never matches. */
  predicate Matches(s: string, p: string) { p != [] && p <= s }

  /**
   * The styles integer parsing accepts: AllowHexSpecifier may only be
   * combined with the two white-space flags; any other combination raises
   * ArgumentException.
   */
  predicate ValidIntegerStyle(style: NumberStyles) {
    AllowHexSpecifier in style ==> style <= HexNumber
  }

  /** What the text around the digits has said so far. */
  datatype Signs = Signs(signed: bool, negative: bool, parenOpen: bool, currency: bool)

  const NoSigns := Signs(false, false, false, false)

  /**
   * The text in front of the digits: white space (only before any sign; the
   * runtime's white space after a sign and a currency symbol is not modelled), at
   * most one sign or opening parenthesis, and at most one currency symbol.
   * The positive sign is tried before the negative one.
   */
  function Leading(s: string, style: NumberStyles, nfi: NumberFormat, st: Signs): (r: (string, Signs))
    ensures |r.0| <= |s|
    ensures st.signed ==> r.1.signed && r.1.negative == st.negative && r.1.parenOpen == st.parenOpen
    ensures st.currency ==> r.1.currency
    decreases |s|
  {
    if s != [] && AllowLeadingWhite in style && IsWhite(s[0]) && !st.signed then
      Leading(s[1..], style, nfi, st)
    else if AllowLeadingSign in style && !st.signed && Matches(s, nfi.positiveSign) then
      Leading(s[|nfi.positiveSign|..], style, nfi, st.(signed := true))
    else if AllowLeadingSign in style && !st.signed && Matches(s, nfi.negativeSign) then
      Leading(s[|nfi.negativeSign|..], style, nfi, st.(signed := true, negative := true))
    else if s != [] && s[0] == '(' && AllowParentheses in style && !st.signed then
      Leading(s[1..], style, nfi, st.(signed := true, negative := true, parenOpen := true))
    else if AllowCurrencySymbol in style && !st.currency && Matches(s, nfi.currencySymbol) then
      Leading(s[|nfi.currencySymbol|..], style, nfi, st.(currency := true))
    else (s, st)
  }

  /** The digits read so far: the integer part, the fraction, and whether the point was seen. */
  datatype Mantissa = Mantissa(whole: string, fraction: string, point: bool)

  predicate WellFormed(m: Mantissa) {
    AllDigits(m.whole) && AllDigits(m.fraction) && (!m.point ==> m.fraction == [])
  }

  /** The separators of the style: the currency ones when it allows a currency symbol. */
  function DecimalSeparator(style: NumberStyles, nfi: NumberFormat): string {
    if AllowCurrencySymbol in style then nfi.currencyDecimalSeparator else nfi.numberDecimalSeparator
  }

  function GroupSeparator(style: NumberStyles, nfi: NumberFormat): string {
    if AllowCurrencySymbol in style then nfi.currencyGroupSeparator else nfi.numberGroupSeparator
  }

  /**
   * The digits: decimal digits, at most one decimal separator, and group
   * separators anywhere after the first integer digit and before the
   * separator. A currency style also accepts the number separators until a
   * currency symbol has been seen.
   */
  function ScanDigits(s: string, style: NumberStyles, nfi: NumberFormat, currencySeen: bool, m: Mantissa): (r: (string, Mantissa))
    requires WellFormed(m)
    ensures WellFormed(r.1) && |r.0| <= |s|
    ensures |r.1.whole| >= |m.whole| && |r.1.fraction| >= |m.fraction| && (m.point ==> r.1.point)
    decreases |s|
  {
    var alternate := AllowCurrencySymbol in style && !currencySeen;
    var decimalSep := DecimalSeparator(style, nfi);
    var groupSep := GroupSeparator(style, nfi);
    if s != [] && IsDigit(s[0]) then
      var m' := if m.point then m.(fraction := m.fraction + [s[0]]) else m.(whole := m.whole + [s[0]]);
      ScanDigits(s[1..], style, nfi, currencySeen, m')
    else if AllowDecimalPoint in style && !m.point && Matches(s, decimalSep) then
      ScanDigits(s[|decimalSep|..], style, nfi, currencySeen, m.(point := true))
    else if AllowDecimalPoint in style && !m.point && alternate && Matches(s, nfi.numberDecimalSeparator) then
      ScanDigits(s[|nfi.numberDecimalSeparator|..], style, nfi, currencySeen, m.(point := true))
    else if AllowThousands in style && m.whole != [] && !m.point && Matches(s, groupSep) then
      ScanDigits(s[|groupSep|..], style, nfi, currencySeen, m)
    else if AllowThousands in style && m.whole != [] && !m.point && alternate && Matches(s, nfi.numberGroupSeparator) then
      ScanDigits(s[|nfi.numberGroupSeparator|..], style, nfi, currencySeen, m)
    else (s, m)
  }

  /**
   * An exponent: 'e' or 'E', an optional sign and at least one digit. An
   * 'e' not followed by digits is not consumed.
   */
  function ScanExponent(s: string, style: NumberStyles, nfi: NumberFormat): (r: (string, int))
    ensures |r.0| <= |s|
  {
    if AllowExponent in style && s != [] && (s[0] == 'e' || s[0] == 'E') then
      var t := s[1..];
      var negative := !Matches(t, nfi.positiveSign) && Matches(t, nfi.negativeSign);
      var u := if Matches(t, nfi.positiveSign) then t[|nfi.positiveSign|..]
        else if negative then t[|nfi.negativeSign|..] else t;
      var n := DigitPrefix(u);
      if n == 0 then (s, 0)
      else (u[n..], if negative then -(DecimalValue(u[..n]) as int) else DecimalValue(u[..n]))
    else (s, 0)
  }

  /**
   * The text after the digits: white space anywhere, a sign if none was seen
   * before, the parenthesis that closes an opening one, and a currency
   * symbol if none was seen before.
   */
  function Trailing(s: string, style: NumberStyles, nfi: NumberFormat, st: Signs): (r: (string, Signs))
    ensures |r.0| <= |s|
    ensures st.signed ==> r.1.signed && r.1.negative == st.negative
    decreases |s|
  {
    if s != [] && AllowTrailingWhite in style && IsWhite(s[0]) then
      Trailing(s[1..], style, nfi, st)
    else if AllowTrailingSign in style && !st.signed && Matches(s, nfi.positiveSign) then
      Trailing(s[|nfi.positiveSign|..], style, nfi, st.(signed := true))
    else if AllowTrailingSign in style && !st.signed && Matches(s, nfi.negativeSign) then
      Trailing(s[|nfi.negativeSign|..], style, nfi, st.(signed := true, negative := true))
    else if s != [] && s[0] == ')' && st.parenOpen then
      Trailing(s[1..], style, nfi, st.(parenOpen := false))
    else if AllowCurrencySymbol in style && !st.currency && Matches(s, nfi.currencySymbol) then
      Trailing(s[|nfi.currencySymbol|..], style, nfi, st.(currency := true))
    else (s, st)
  }

  /** m * 10^e when that is a whole number; None when digits are left after the point. */
  function Scaled(m: nat, e: int): (r: Option<nat>)
    ensures e >= 0 ==> r == Some(m * Pow10(e))
    ensures e < 0 ==> (r.Some? <==> m % Pow10(-e) == 0)
    ensures r.Some? && e < 0 ==> r.value * Pow10(-e) == m
  {
    if e >= 0 then Some(m * Pow10(e))
    else if m % Pow10(-e) == 0 then Some(m / Pow10(-e))
    else None
  }

  /**
   * A decimal number: text that is not shaped as the style allows raises
   * FormatException; a well-shaped number that is not a whole number, or
   * lies outside the type's range, raises OverflowException.
   */
  function ParseDecimal(s: string, style: NumberStyles, nfi: NumberFormat, t: IntegerType): (r: Result<int>)
    ensures r.Ok? ==> t.Contains(r.value)
    ensures r.Err? ==> r.error == Format || r.error == Overflow
  {
    var lead := Leading(s, style, nfi, NoSigns);
    var scan := ScanDigits(lead.0, style, nfi, lead.1.currency, Mantissa([], [], false));
    var exponent := ScanExponent(scan.0, style, nfi);
    var trail := Trailing(exponent.0, style, nfi, lead.1);
    Outcome(scan.1, exponent.1, trail.0, trail.1, t)
  }

  /**
   * The verdict once the grammar has been applied: no digits, an unclosed
   * parenthesis or unread text is a FormatException; otherwise the number
   * the digits and exponent denote, with its sign.
   */
  function Outcome(m: Mantissa, e: int, rest: string, signs: Signs, t: IntegerType): (r: Result<int>)
    requires WellFormed(m)
    ensures r.Ok? ==> t.Contains(r.value)
    ensures r.Err? ==> r.error == Format || r.error == Overflow
  {
    if (m.whole == [] && m.fraction == []) || signs.parenOpen || !AllNul(rest) then Err(Format)
    else Signed(Scaled(MantissaValue(m), e - |m.fraction|), signs.negative, m.point, t)
  }

  /** The digits of the mantissa read as one whole number, the point ignored. */
  function MantissaValue(m: Mantissa): nat
    requires WellFormed(m)
  {
    assert AllDigits(m.whole + m.fraction);
    DecimalValue(m.whole + m.fraction)
  }

  /**
   * The unsigned types that go through the runtime's unsigned conversions,
   * which refuse any number marked negative, zero included.
   */
  predicate RefusesNegativeZero(t: IntegerType) {
    t == UInt16 || t == UInt32 || t == UInt64
  }

  /**
   * A magnitude with its sign, checked against the type's range. The sign
   * of a zero is dropped unless a decimal point was read ("-0" is 0, "-0.0"
   * stays negative), and UInt16, UInt32 and UInt64 then refuse it with
   * OverflowException; the other types read it as 0.
   */
  function Signed(magnitude: Option<nat>, negative: bool, point: bool, t: IntegerType): (r: Result<int>)
    ensures r.Ok? ==> t.Contains(r.value)
    ensures r.Err? ==> r.error == Overflow
    ensures r.Ok? <==> magnitude.Some? && t.Contains(if negative then -(magnitude.value as int) else magnitude.value)
                       && !(negative && point && RefusesNegativeZero(t))
    ensures r.Ok? ==> r.value == if negative then -(magnitude.value as int) else magnitude.value
  {
    match magnitude
    case None => Err(Overflow)
    case Some(v) =>
      var n := if negative then -(v as int) else v;
      if t.Contains(n) && !(negative && point && RefusesNegativeZero(t)) then Ok(n) else Err(Overflow)
  }

  /** The number of hex digits `s` starts with. */
  function HexPrefix(s: string): (n: nat)
    ensures n <= |s| && AllHexDigits(s[..n])
    ensures n < |s| ==> !IsHexDigit(s[n])
  {
    if s == [] || !IsHexDigit(s[0]) then 0
    else
      var k := HexPrefix(s[1..]);
      assert s[..1 + k] == [s[0]] + s[1..][..k];
      1 + k
  }

  /** `s` without its leading white space. */
  function SkipWhite(s: string): (r: string)
    ensures |r| <= |s|
    ensures r != [] ==> !IsWhite(r[0])
  {
    if s != [] && IsWhite(s[0]) then SkipWhite(s[1..]) else s
  }

  /**
   * AllowHexSpecifier: hex digits between optional white space. A value
   * that needs more bits than the type has raises OverflowException; one
   * that fits is the type's value with that bit pattern.
   */
  function ParseHex(s: string, style: NumberStyles, t: IntegerType): (r: Result<int>)
    ensures r.Ok? ==> t.Contains(r.value)
    ensures r.Err? ==> r.error == Format || r.error == Overflow
  {
    var a := if AllowLeadingWhite in style then SkipWhite(s) else s;
    var n := HexPrefix(a);
    var c := if AllowTrailingWhite in style then SkipWhite(a[n..]) else a[n..];
    if n == 0 || !AllNul(c) then Err(Format)
    else
      var v := HexDigitsValue(a[..n]);
      if v >= t.Modulus() then Err(Overflow) else Ok(Wrap(t, v))
  }

  /**
   * T.Parse(s, style, provider): the value of `s` read under `style`. An
   * invalid style raises ArgumentException; text of the wrong shape
   * FormatException; a value the type cannot hold OverflowException.
   */
  function Parse(s: string, style: NumberStyles, nfi: NumberFormat, t: IntegerType): (r: Result<int>)
    ensures r.Ok? ==> t.Contains(r.value)
    ensures r.Err? ==> r.error in {Argument, Format, Overflow}
    ensures r == Err(Argument) <==> !ValidIntegerStyle(style)
  {
    if !ValidIntegerStyle(style) then Err(Argument)
    else if AllowHexSpecifier in style then ParseHex(s, style, t)
    else ParseDecimal(s, style, nfi, t)
  }

  /**
   * T.TryParse(s, style, provider, out result): true with the parsed value,
   * or false with result 0, where Parse would raise Format or Overflow;
   * an invalid style still raises ArgumentException.
   */
  function TryParse(s: string, style: NumberStyles, nfi: NumberFormat, t: IntegerType): (r: Result<(bool, int)>)
    ensures r.Err? <==> !ValidIntegerStyle(style)
    ensures r.Err? ==> r.error == Argument
    ensures r.Ok? ==> (r.value.0 <==> Parse(s, style, nfi, t).Ok?)
    ensures r.Ok? && r.value.0 ==> Parse(s, style, nfi, t) == Ok(r.value.1)
    ensures r.Ok? && !r.value.0 ==> r.value.1 == 0
  {
    match Parse(s, style, nfi, t)
    case Ok(v) => Ok((true, v))
    case Err(e) => if e == Argument then Err(Argument) else Ok((false, 0))
  }

  /**
   * Parse of a string reference: the style is checked first, then a null
   * string raises ArgumentNullException; any other string is read as Parse.
   */
  function ParseNullable(s: Option<string>, style: NumberStyles, nfi: NumberFormat, t: IntegerType): (r: Result<int>)
    ensures !ValidIntegerStyle(style) ==> r == Err(Argument)
    ensures s.None? && ValidIntegerStyle(style) ==> r == Err(ArgumentNull)
    ensures s.Some? ==> r == Parse(s.value, style, nfi, t)
    ensures r.Ok? ==> t.Contains(r.value)
  {
    match s
    case None => if ValidIntegerStyle(style) then Err(ArgumentNull) else Err(Argument)
    case Some(text) => Parse(text, style, nfi, t)
  }

  /**
   * TryParse of a string reference: false with result 0 wherever
   * ParseNullable fails short of an invalid style, so for null too.
   */
  function TryParseNullable(s: Option<string>, style: NumberStyles, nfi: NumberFormat, t: IntegerType): (r: Result<(bool, int)>)
    ensures r.Err? <==> !ValidIntegerStyle(style)
    ensures r.Err? ==> r.error == Argument
    ensures r.Ok? ==> (r.value.0 <==> ParseNullable(s, style, nfi, t).Ok?)
    ensures r.Ok? && r.value.0 ==> ParseNullable(s, style, nfi, t) == Ok(r.value.1)
    ensures r.Ok? && !r.value.0 ==> r.value.1 == 0
  {
    match s
    case None => if ValidIntegerStyle(style) then Ok((false, 0)) else Err(Argument)
    case Some(text) => TryParse(text, style, nfi, t)
  }

  /** Characters that end a run of digits without being part of the number's body. */
  predicate Delimiter(c: char) { IsWhite(c) || c == ')' || c == '\0' }

  /** A character that can start a sign, symbol or separator without being confused with the grammar's own. */
  predicate Plain(c: char) {
    !IsDigit(c) && !Delimiter(c) && c != '(' && c != 'e' && c != 'E'
  }

  predicate PlainOrEmpty(p: string) { p == [] || Plain(p[0]) }

  /**
   * Culture data the grammar can read unambiguously: a negative sign, signs
   * with different first characters, and symbols and separators that start
   * with none of the grammar's own characters. The invariant culture is one.
   */
  predicate SaneFormat(nfi: NumberFormat) {
    nfi.negativeSign != [] && Plain(nfi.negativeSign[0])
    && (nfi.positiveSign == [] || (Plain(nfi.positiveSign[0]) && nfi.positiveSign[0] != nfi.negativeSign[0]))
    && PlainOrEmpty(nfi.currencySymbol)
    && PlainOrEmpty(nfi.numberDecimalSeparator) && PlainOrEmpty(nfi.numberGroupSeparator)
    && PlainOrEmpty(nfi.currencyDecimalSeparator) && PlainOrEmpty(nfi.currencyGroupSeparator)
  }

  lemma InvariantIsSane()
    ensures SaneFormat(Invariant)
  {
  }

  /** A symbol cannot match in front of a character it does not start with. */
  lemma NoMatch(s: string, p: string)
    requires s != [] && (p == [] || p[0] != s[0])
    ensures !Matches(s, p)
  {
    if p != [] && |p| <= |s| {
      assert s[..|p|][0] == s[0];
    }
  }

  /** The leading text ends where the digits begin. */
  lemma LeadingStopsAtDigit(s: string, style: NumberStyles, nfi: NumberFormat, st: Signs)
    requires SaneFormat(nfi) && s != [] && IsDigit(s[0])
    ensures Leading(s, style, nfi, st) == (s, st)
  {
    NoMatch(s, nfi.positiveSign);
    NoMatch(s, nfi.negativeSign);
    NoMatch(s, nfi.currencySymbol);
  }

  /** Leading white space is skipped when the style allows it. */
  lemma {:induction false} LeadingWhite(w: string, s: string, style: NumberStyles, nfi: NumberFormat)
    requires AllWhite(w) && (w != [] ==> AllowLeadingWhite in style)
    ensures Leading(w + s, style, nfi, NoSigns) == Leading(s, style, nfi, NoSigns)
    decreases |w|
  {
    if w != [] {
      assert (w + s)[1..] == w[1..] + s;
      LeadingWhite(w[1..], s, style, nfi);
    } else {
      assert w + s == s;
    }
  }

  /** A leading negative sign in front of digits. */
  lemma LeadingNegative(s: string, style: NumberStyles, nfi: NumberFormat)
    requires SaneFormat(nfi) && AllowLeadingSign in style && s != [] && IsDigit(s[0])
    ensures Leading(nfi.negativeSign + s, style, nfi, NoSigns) == (s, Signs(true, true, false, false))
  {
    var t := nfi.negativeSign + s;
    assert t[0] == nfi.negativeSign[0];
    NoMatch(t, nfi.positiveSign);
    assert nfi.negativeSign <= t;
    assert t[|nfi.negativeSign|..] == s;
    LeadingStopsAtDigit(s, style, nfi, Signs(true, true, false, false));
  }

  /** An opening parenthesis in front of digits. */
  lemma LeadingParenthesis(s: string, style: NumberStyles, nfi: NumberFormat)
    requires SaneFormat(nfi) && AllowParentheses in style && s != [] && IsDigit(s[0])
    ensures Leading("(" + s, style, nfi, NoSigns) == (s, Signs(true, true, true, false))
  {
    var t := "(" + s;
    assert t[0] == '(' && t[1..] == s;
    NoMatch(t, nfi.positiveSign);
    NoMatch(t, nfi.negativeSign);
    assert Leading(t, style, nfi, NoSigns) == Leading(s, style, nfi, Signs(true, true, true, false));
    LeadingStopsAtDigit(s, style, nfi, Signs(true, true, true, false));
  }

  /** A currency symbol in front of digits. */
  lemma LeadingCurrency(s: string, a: string, style: NumberStyles, nfi: NumberFormat)
    requires SaneFormat(nfi) && AllowCurrencySymbol in style && a != [] && IsDigit(a[0])
    requires s == nfi.currencySymbol + a && nfi.currencySymbol != []
    requires nfi.currencySymbol[0] != nfi.negativeSign[0]
    requires nfi.positiveSign == [] || nfi.currencySymbol[0] != nfi.positiveSign[0]
    ensures Leading(s, style, nfi, NoSigns) == (a, Signs(false, false, false, true))
  {
    assert s[0] == nfi.currencySymbol[0];
    NoMatch(s, nfi.positiveSign);
    NoMatch(s, nfi.negativeSign);
    assert nfi.currencySymbol <= s && s[|nfi.currencySymbol|..] == a;
    LeadingStopsAtDigit(a, style, nfi, Signs(false, false, false, true));
  }

  /** A mantissa extended by digits, in its integer part or its fraction. */
  function Extended(m: Mantissa, d: string): (r: Mantissa)
    requires WellFormed(m) && AllDigits(d)
    ensures WellFormed(r)
  {
    if m.point then m.(fraction := m.fraction + d) else m.(whole := m.whole + d)
  }

  /** One digit is taken into the mantissa. */
  lemma ScanDigit(c: char, rest: string, style: NumberStyles, nfi: NumberFormat, currencySeen: bool, m: Mantissa)
    requires WellFormed(m) && IsDigit(c)
    ensures ScanDigits([c] + rest, style, nfi, currencySeen, m) == ScanDigits(rest, style, nfi, currencySeen, Extended(m, [c]))
  {
    assert ([c] + rest)[0] == c && ([c] + rest)[1..] == rest;
  }

  /** Digits are taken one after the other into the mantissa. */
  lemma {:induction false} ScanAllDigits(d: string, rest: string, style: NumberStyles, nfi: NumberFormat, currencySeen: bool, m: Mantissa)
    requires WellFormed(m) && AllDigits(d)
    ensures ScanDigits(d + rest, style, nfi, currencySeen, m) == ScanDigits(rest, style, nfi, currencySeen, Extended(m, d))
    decreases |d|
  {
    if d == [] {
      assert d + rest == rest;
      assert Extended(m, d) == m;
    } else {
      var m' := Extended(m, [d[0]]);
      assert d + rest == [d[0]] + (d[1..] + rest);
      ScanDigit(d[0], d[1..] + rest, style, nfi, currencySeen, m);
      ScanAllDigits(d[1..], rest, style, nfi, currencySeen, m');
      ExtendedTwice(m, [d[0]], d[1..]);
      assert [d[0]] + d[1..] == d;
    }
  }

  lemma ExtendedTwice(m: Mantissa, a: string, b: string)
    requires WellFormed(m) && AllDigits(a) && AllDigits(b)
    ensures Extended(Extended(m, a), b) == Extended(m, a + b)
  {
    if m.point {
      assert m.fraction + a + b == m.fraction + (a + b);
    } else {
      assert m.whole + a + b == m.whole + (a + b);
    }
  }

  /** The digits end at the end of the text or at a delimiter. */
  lemma ScanStops(s: string, style: NumberStyles, nfi: NumberFormat, currencySeen: bool, m: Mantissa)
    requires WellFormed(m) && SaneFormat(nfi) && (s == [] || Delimiter(s[0]))
    ensures ScanDigits(s, style, nfi, currencySeen, m) == (s, m)
  {
    if s != [] {
      NoMatch(s, nfi.numberDecimalSeparator);
      NoMatch(s, nfi.numberGroupSeparator);
      NoMatch(s, nfi.currencyDecimalSeparator);
      NoMatch(s, nfi.currencyGroupSeparator);
    }
  }

  /** Trailing white space is skipped when the style allows it. */
  lemma {:induction false} TrailingWhite(w: string, style: NumberStyles, nfi: NumberFormat, st: Signs)
    requires AllWhite(w) && (w != [] ==> AllowTrailingWhite in style)
    ensures Trailing(w, style, nfi, st) == ([], st)
    decreases |w|
  {
    if w != [] {
      TrailingWhite(w[1..], style, nfi, st);
    }
  }

  /** ParseDecimal read off the four stages of the grammar. */
  lemma ParseDecimalStages(s: string, style: NumberStyles, nfi: NumberFormat, t: IntegerType,
                           a: string, lead: Signs, b: string, m: Mantissa, c: string, e: int, d: string, signs: Signs)
    requires Leading(s, style, nfi, NoSigns) == (a, lead)
    requires ScanDigits(a, style, nfi, lead.currency, Mantissa([], [], false)) == (b, m)
    requires ScanExponent(b, style, nfi) == (c, e)
    requires Trailing(c, style, nfi, lead) == (d, signs)
    ensures WellFormed(m) && ParseDecimal(s, style, nfi, t) == Outcome(m, e, d, signs, t)
  {
  }

  /** A text whose grammar stages read digits `d` and then consume the rest `w`. */
  lemma ParseWholeNumber(s: string, style: NumberStyles, nfi: NumberFormat, t: IntegerType, d: string, w: string, lead: Signs)
    requires AllDigits(d) && d != [] && AllowHexSpecifier !in style && !lead.parenOpen && !lead.currency
    requires Leading(s, style, nfi, NoSigns) == (d + w, lead)
    requires ScanDigits(d + w, style, nfi, false, Mantissa([], [], false)) == (w, Mantissa(d, [], false))
    requires ScanExponent(w, style, nfi) == (w, 0)
    requires Trailing(w, style, nfi, lead) == ([], lead)
    ensures var v := if lead.negative then -(DecimalValue(d) as int) else DecimalValue(d);
      Parse(s, style, nfi, t) == if t.Contains(v) then Ok(v) else Err(Overflow)
  {
    var m := Mantissa(d, [], false);
    ParseDecimalStages(s, style, nfi, t, d + w, lead, w, m, w, 0, [], lead);
    assert Outcome(m, 0, [], lead, t) == Signed(Some(DecimalValue(d)), lead.negative, false, t) by {
      assert AllNul([]);
      WholeValue(d);
    }
    SignedOf(DecimalValue(d), lead.negative, t);
  }

  /** A text whose leading stage ends at digits that the digit scanner reads to the end of the text. */
  lemma ParseToEnd(s: string, style: NumberStyles, nfi: NumberFormat, t: IntegerType, a: string, lead: Signs, m: Mantissa)
    requires AllowHexSpecifier !in style && !lead.parenOpen
    requires Leading(s, style, nfi, NoSigns) == (a, lead)
    requires ScanDigits(a, style, nfi, lead.currency, Mantissa([], [], false)) == ([], m)
    requires m.whole != []
    ensures WellFormed(m)
    ensures Parse(s, style, nfi, t) == Signed(Scaled(MantissaValue(m), -(|m.fraction| as int)), lead.negative, m.point, t)
  {
    assert Trailing([], style, nfi, lead) == ([], lead);
    ParseDecimalStages(s, style, nfi, t, a, lead, [], m, [], 0, [], lead);
    assert AllNul([]);
  }

  /** ParseToEnd, for mantissa digits that denote the magnitude of a value of the type. */
  lemma ParseToValue(s: string, style: NumberStyles, nfi: NumberFormat, t: IntegerType, a: string, lead: Signs, m: Mantissa, v: int)
    requires AllowHexSpecifier !in style && !lead.parenOpen
    requires Leading(s, style, nfi, NoSigns) == (a, lead)
    requires ScanDigits(a, style, nfi, lead.currency, Mantissa([], [], false)) == ([], m)
    requires m.whole != [] && WellFormed(m)
    requires Scaled(MantissaValue(m), -(|m.fraction| as int)) == Some(Abs(v))
    requires lead.negative == (v < 0) && t.Contains(v)
    ensures Parse(s, style, nfi, t) == Ok(v)
  {
    ParseToEnd(s, style, nfi, t, a, lead, m);
  }

  lemma SignedOf(v: nat, negative: bool, t: IntegerType)
    ensures var n := if negative then -(v as int) else v;
      Signed(Some(v), negative, false, t) == if t.Contains(n) then Ok(n) else Err(Overflow)
  {
  }

  /** A zero read with its negative sign and a decimal point. */
  lemma SignedNegativeZero(t: IntegerType)
    ensures Signed(Some(0), true, true, t) == if RefusesNegativeZero(t) then Err(Overflow) else Ok(0)
  {
    assert t.Contains(0) by { ModuloFacts(t, 0); }
  }

  /** The digits of `d` alone, as a mantissa, have the value of `d`. */
  lemma WholeValue(d: string)
    requires AllDigits(d)
    ensures WellFormed(Mantissa(d, [], false)) && MantissaValue(Mantissa(d, [], false)) == DecimalValue(d)
    ensures Scaled(DecimalValue(d), 0) == Some(DecimalValue(d))
  {
    assert d + [] == d;
  }

  /** White space and an optional negative sign in front of a digit. */
  lemma LeadingSigned(s: string, w1: string, negative: bool, rest: string, style: NumberStyles, nfi: NumberFormat)
    requires s == w1 + (if negative then nfi.negativeSign else []) + rest
    requires AllWhite(w1) && (w1 != [] ==> AllowLeadingWhite in style) && (negative ==> AllowLeadingSign in style)
    requires SaneFormat(nfi) && rest != [] && IsDigit(rest[0])
    ensures Leading(s, style, nfi, NoSigns) == (rest, Signs(negative, negative, false, false))
  {
    var sign := if negative then nfi.negativeSign else [];
    assert s == w1 + (sign + rest);
    LeadingWhite(w1, sign + rest, style, nfi);
    if negative {
      LeadingNegative(rest, style, nfi);
    } else {
      assert sign + rest == rest;
      LeadingStopsAtDigit(rest, style, nfi, NoSigns);
    }
  }

  /** Integer digits followed by white space or nothing. */
  lemma ScanWhole(d: string, w2: string, style: NumberStyles, nfi: NumberFormat)
    requires AllDigits(d) && AllWhite(w2) && SaneFormat(nfi)
    ensures ScanDigits(d + w2, style, nfi, false, Mantissa([], [], false)) == (w2, Mantissa(d, [], false))
  {
    var m := Mantissa(d, [], false);
    ScanAllDigits(d, w2, style, nfi, false, Mantissa([], [], false));
    assert Extended(Mantissa([], [], false), d) == m;
    if w2 != [] {
      assert IsWhite(w2[0]);
    }
    ScanStops(w2, style, nfi, false, m);
  }

  /**
   * A decimal digit string, optionally negated and optionally surrounded by
   * white space, parses to its value, or raises OverflowException when the
   * type cannot hold that value.
   */
  lemma ParseDigits(s: string, w1: string, negative: bool, d: string, w2: string, style: NumberStyles, nfi: NumberFormat, t: IntegerType)
    requires s == w1 + (if negative then nfi.negativeSign else []) + d + w2
    requires AllWhite(w1) && AllWhite(w2) && AllDigits(d) && d != []
    requires w1 != [] ==> AllowLeadingWhite in style
    requires w2 != [] ==> AllowTrailingWhite in style
    requires negative ==> AllowLeadingSign in style
    requires AllowHexSpecifier !in style && SaneFormat(nfi)
    ensures var v := if negative then -(DecimalValue(d) as int) else DecimalValue(d);
      Parse(s, style, nfi, t) == if t.Contains(v) then Ok(v) else Err(Overflow)
  {
    var lead := Signs(negative, negative, false, false);
    DigitStages(s, w1, negative, d, w2, style, nfi);
    ParseWholeNumber(s, style, nfi, t, d, w2, lead);
  }

  /** The stages of ParseDigits's text: the sign, the digits, no exponent, and trailing white space. */
  lemma DigitStages(s: string, w1: string, negative: bool, d: string, w2: string, style: NumberStyles, nfi: NumberFormat)
    requires s == w1 + (if negative then nfi.negativeSign else []) + d + w2
    requires AllWhite(w1) && AllWhite(w2) && AllDigits(d) && d != []
    requires w1 != [] ==> AllowLeadingWhite in style
    requires w2 != [] ==> AllowTrailingWhite in style
    requires negative ==> AllowLeadingSign in style
    requires AllowHexSpecifier !in style && SaneFormat(nfi)
    ensures Leading(s, style, nfi, NoSigns) == (d + w2, Signs(negative, negative, false, false))
    ensures ScanDigits(d + w2, style, nfi, false, Mantissa([], [], false)) == (w2, Mantissa(d, [], false))
    ensures ScanExponent(w2, style, nfi) == (w2, 0)
    ensures Trailing(w2, style, nfi, Signs(negative, negative, false, false)) == ([], Signs(negative, negative, false, false))
  {
    var lead := Signs(negative, negative, false, false);
    assert (d + w2)[0] == d[0];
    LeadingSigned(s, w1, negative, d + w2, style, nfi);
    ScanWhole(d, w2, style, nfi);
    if w2 != [] {
      assert IsWhite(w2[0]);
    }
    TrailingWhite(w2, style, nfi, lead);
  }

  /** A bare digit string, with no sign or white space, parses to its value when the type holds it. */
  lemma ParseBareDigits(d: string, style: NumberStyles, nfi: NumberFormat, t: IntegerType)
    requires AllDigits(d) && d != [] && AllowHexSpecifier !in style && SaneFormat(nfi)
    ensures Parse(d, style, nfi, t) == if t.Contains(DecimalValue(d)) then Ok(DecimalValue(d)) else Err(Overflow)
  {
    var none: string := [];
    assert none + none + d + none == d;
    ParseDigits(d, none, false, d, none, style, nfi, t);
  }

  /** A currency amount read to its end: the digit value, checked against the type's range. */
  lemma ParseCurrencyWhole(s: string, a: string, whole: string, style: NumberStyles, nfi: NumberFormat, t: IntegerType)
    requires AllowHexSpecifier !in style && AllDigits(whole) && whole != []
    requires Leading(s, style, nfi, NoSigns) == (a, Signs(false, false, false, true))
    requires ScanDigits(a, style, nfi, true, Mantissa([], [], false)) == ([], Mantissa(whole, [], false))
    ensures Parse(s, style, nfi, t) == if t.Contains(DecimalValue(whole)) then Ok(DecimalValue(whole)) else Err(Overflow)
  {
    var lead := Signs(false, false, false, true);
    ParseDecimalStages(s, style, nfi, t, a, lead, [], Mantissa(whole, [], false), [], 0, [], lead);
    WholeValue(whole);
    assert AllNul([]);
    SignedOf(DecimalValue(whole), false, t);
  }

  /** Digits in parentheses are the negated value (the AllowParentheses vectors). */
  lemma ParseParenthesized(s: string, d: string, style: NumberStyles, nfi: NumberFormat, t: IntegerType)
    requires s == "(" + d + ")" && AllDigits(d) && d != []
    requires AllowParentheses in style && AllowHexSpecifier !in style && SaneFormat(nfi)
    ensures var v := -(DecimalValue(d) as int);
      Parse(s, style, nfi, t) == if t.Contains(v) then Ok(v) else Err(Overflow)
  {
    var lead := Signs(true, true, true, false);
    assert Leading(s, style, nfi, NoSigns) == (d + ")", lead) by {
      assert s == "(" + (d + ")");
      LeadingParenthesis(d + ")", style, nfi);
    }
    var m := Mantissa(d, [], false);
    assert ScanDigits(d + ")", style, nfi, false, Mantissa([], [], false)) == (")", m) by {
      ScanAllDigits(d, ")", style, nfi, false, Mantissa([], [], false));
      assert Extended(Mantissa([], [], false), d) == m;
      ScanStops(")", style, nfi, false, m);
    }
    assert ScanExponent(")", style, nfi) == (")", 0);
    var closed := Signs(true, true, false, false);
    assert Trailing(")", style, nfi, lead) == ([], closed) by {
      assert Trailing(")", style, nfi, lead) == Trailing([], style, nfi, closed);
    }
    ParseDecimalStages(s, style, nfi, t, d + ")", lead, ")", m, ")", 0, [], closed);
    assert Outcome(m, 0, [], closed, t) == Signed(Some(DecimalValue(d)), true, false, t) by {
      assert AllNul([]);
      WholeValue(d);
    }
    SignedOf(DecimalValue(d), true, t);
  }

  lemma {:induction false} SkipWhiteOf(w: string, s: string)
    requires AllWhite(w) && (s == [] || !IsWhite(s[0]))
    ensures SkipWhite(w + s) == s
    decreases |w|
  {
    if w != [] {
      assert (w + s)[1..] == w[1..] + s;
      SkipWhiteOf(w[1..], s);
    } else {
      assert w + s == s;
    }
  }

  lemma {:induction false} HexPrefixOf(h: string, rest: string)
    requires AllHexDigits(h) && (rest == [] || !IsHexDigit(rest[0]))
    ensures HexPrefix(h + rest) == |h|
    decreases |h|
  {
    if h != [] {
      assert (h + rest)[1..] == h[1..] + rest;
      HexPrefixOf(h[1..], rest);
    } else {
      assert h + rest == rest;
    }
  }

  /**
   * Hex digits between white space parse, under HexNumber, to the value
   * with that bit pattern, or raise OverflowException when they need more
   * bits than the type has.
   */
  lemma ParseHexDigits(s: string, w1: string, h: string, w2: string, nfi: NumberFormat, t: IntegerType)
    requires s == w1 + h + w2 && AllWhite(w1) && AllWhite(w2) && AllHexDigits(h) && h != []
    ensures var v := HexDigitsValue(h);
      Parse(s, HexNumber, nfi, t) == if v < t.Modulus() then Ok(Wrap(t, v)) else Err(Overflow)
  {
    var a := h + w2;
    assert s == w1 + a;
    assert IsHexDigit(a[0]);
    SkipWhiteOf(w1, a);
    if w2 != [] {
      assert IsWhite(w2[0]);
    }
    HexPrefixOf(h, w2);
    assert a[..|h|] == h && a[|h|..] == w2;
    SkipWhiteOf(w2, []);
    assert w2 + [] == w2;
    assert AllNul([]);
    ParseHexStages(s, t, a, |h|);
  }

  /** ParseHex read off its stages under HexNumber. */
  lemma ParseHexStages(s: string, t: IntegerType, a: string, n: nat)
    requires SkipWhite(s) == a && HexPrefix(a) == n && SkipWhite(a[n..]) == []
    requires n > 0
    ensures AllHexDigits(a[..n])
    ensures ParseHex(s, HexNumber, t) == if HexDigitsValue(a[..n]) < t.Modulus() then Ok(Wrap(t, HexDigitsValue(a[..n]))) else Err(Overflow)
  {
    assert AllNul([]);
  }

  /** The styles that allow nothing but white space and a leading sign around the digits. */
  predicate PlainInteger(style: NumberStyles) { style <= Integer }

  /** Under such a style, the digit scanner reads nothing in front of a non-digit. */
  lemma ScanNoDigit(s: string, style: NumberStyles, nfi: NumberFormat, m: Mantissa)
    requires PlainInteger(style) && WellFormed(m) && s != [] && !IsDigit(s[0])
    ensures ScanDigits(s, style, nfi, false, m) == (s, m)
  {
    assert AllowDecimalPoint !in style && AllowThousands !in style;
  }

  /**
   * Text made of white space only (the empty text included) has no digits
   * and raises FormatException.
   */
  lemma RejectsBlank(s: string, style: NumberStyles, nfi: NumberFormat, t: IntegerType)
    requires AllWhite(s) && (s != [] ==> AllowLeadingWhite in style) && AllowHexSpecifier !in style
    ensures Parse(s, style, nfi, t) == Err(Format)
  {
    LeadingWhite(s, [], style, nfi);
    assert s + [] == s;
    assert Leading([], style, nfi, NoSigns) == ([], NoSigns);
  }

  /**
   * Under a plain integer style, text whose first character after the
   * leading white space is neither a digit nor the start of a sign has no
   * digits and raises FormatException.
   */
  lemma RejectsNoDigits(s: string, w: string, c: char, rest: string, style: NumberStyles, nfi: NumberFormat, t: IntegerType)
    requires s == w + ([c] + rest)
    requires AllWhite(w) && (w != [] ==> AllowLeadingWhite in style)
    requires PlainInteger(style) && SaneFormat(nfi)
    requires !IsDigit(c) && !(IsWhite(c) && AllowLeadingWhite in style)
    requires AllowLeadingSign in style ==> c != nfi.negativeSign[0] && (nfi.positiveSign == [] || c != nfi.positiveSign[0])
    ensures Parse(s, style, nfi, t) == Err(Format)
  {
    var a := [c] + rest;
    assert a[0] == c;
    LeadingWhite(w, a, style, nfi);
    if AllowLeadingSign in style {
      NoMatch(a, nfi.positiveSign);
      NoMatch(a, nfi.negativeSign);
    }
    assert AllowParentheses !in style && AllowCurrencySymbol !in style;
    assert Leading(a, style, nfi, NoSigns) == (a, NoSigns);
    ScanNoDigit(a, style, nfi, Mantissa([], [], false));
  }

  /**
   * Under a plain integer style, digits followed by a character that is
   * neither a digit, nor trailing white space, nor NUL raise FormatException:
   * an exponent, a decimal point or a group separator is not read.
   */
  lemma RejectsAfterDigits(s: string, w: string, negative: bool, d: string, c: char, rest: string, style: NumberStyles, nfi: NumberFormat, t: IntegerType)
    requires s == w + (if negative then nfi.negativeSign else []) + (d + ([c] + rest))
    requires AllWhite(w) && (w != [] ==> AllowLeadingWhite in style) && (negative ==> AllowLeadingSign in style)
    requires PlainInteger(style) && SaneFormat(nfi) && AllDigits(d) && d != []
    requires !IsDigit(c) && c != '\0' && !(IsWhite(c) && AllowTrailingWhite in style)
    ensures Parse(s, style, nfi, t) == Err(Format)
  {
    var a := [c] + rest;
    assert a[0] == c;
    var lead := Signs(negative, negative, false, false);
    LeadingSigned(s, w, negative, d + a, style, nfi);
    var m := Mantissa(d, [], false);
    assert ScanDigits(d + a, style, nfi, false, Mantissa([], [], false)) == (a, m) by {
      ScanAllDigits(d, a, style, nfi, false, Mantissa([], [], false));
      assert Extended(Mantissa([], [], false), d) == m;
      ScanNoDigit(a, style, nfi, m);
    }
    assert AllowExponent !in style && AllowTrailingSign !in style && AllowCurrencySymbol !in style;
    assert ScanExponent(a, style, nfi) == (a, 0);
    assert Trailing(a, style, nfi, lead) == (a, lead);
    ParseDecimalStages(s, style, nfi, t, d + a, lead, a, m, a, 0, a, lead);
    assert !AllNul(a);
  }
}
