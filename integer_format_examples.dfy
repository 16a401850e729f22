// The ToString vectors of the eight integer test files, read off the model.
module IntegerFormatExamples {
  import opened Wrappers
  import opened Digits
  import opened Integers
  import opened NumberParsing
  import opened NumberFormatting
  import opened IntegerLiterals

  /** The culture data with NegativeSign "#", NumberDecimalSeparator "~" and NumberGroupSeparator "*". */
  const HashFormat: NumberFormat := Invariant.(negativeSign := "#", numberDecimalSeparator := "~", numberGroupSeparator := "*")

  /** "", "G" and "g" write the culture's negative sign and the shortest digits. */
  lemma GeneralText(t: IntegerType, v: int, d: string, f: string, nfi: NumberFormat)
    requires t.Contains(v) && Canonical(d) && DecimalValue(d) == Abs(v) && (f == "" || f == "G" || f == "g")
    ensures ToString(t, v, f, nfi) == Ok(SignOf(v, nfi) + d)
  {
    DefaultIsGeneral(t, v, nfi);
    SpecifierCase(t, v, 'G', "", nfi);
    assert ['G'] + "" == "G" && [(('G' as int) + 32) as char] + "" == "g";
    DecimalValueRoundTrip(d);
    assert ZeroPadded(d, 0) == d;
  }

  /** Byte.MaxValue.ToString(), in the invariant culture (Byte.cs 87-89). */
  lemma ByteExtremes(hi: string)
    requires hi == "255"
    ensures ToString(Byte, Byte.MaxValue(), "", Invariant) == Ok(hi)
  {
    Digits255(hi);
    assert hi == SignOf(Byte.MaxValue(), Invariant) + hi;
    GeneralText(Byte, Byte.MaxValue(), hi, "", Invariant);
  }

  /** SByte.MinValue and MaxValue.ToString(), in the invariant culture (SByte.cs 87-91). */
  lemma SByteExtremes(lo: string, hi: string)
    requires lo == "-128" && hi == "127"
    ensures ToString(SByte, SByte.MinValue(), "", Invariant) == Ok(lo)
    ensures ToString(SByte, SByte.MaxValue(), "", Invariant) == Ok(hi)
  {
    Digits128(lo[1..]);
    assert lo == SignOf(SByte.MinValue(), Invariant) + lo[1..];
    GeneralText(SByte, SByte.MinValue(), lo[1..], "", Invariant);
    Digits127(hi);
    assert hi == SignOf(SByte.MaxValue(), Invariant) + hi;
    GeneralText(SByte, SByte.MaxValue(), hi, "", Invariant);
  }

  /** Int16.MinValue and MaxValue.ToString(), in the invariant culture (Int16.cs 88-92). */
  lemma Int16Extremes(lo: string, hi: string)
    requires lo == "-32768" && hi == "32767"
    ensures ToString(Int16, Int16.MinValue(), "", Invariant) == Ok(lo)
    ensures ToString(Int16, Int16.MaxValue(), "", Invariant) == Ok(hi)
  {
    Digits32768(lo[1..]);
    assert lo == SignOf(Int16.MinValue(), Invariant) + lo[1..];
    GeneralText(Int16, Int16.MinValue(), lo[1..], "", Invariant);
    Digits32767(hi);
    assert hi == SignOf(Int16.MaxValue(), Invariant) + hi;
    GeneralText(Int16, Int16.MaxValue(), hi, "", Invariant);
  }

  /** UInt16.MaxValue.ToString(), in the invariant culture (UInt16.cs 87-89). */
  lemma UInt16Extremes(hi: string)
    requires hi == "65535"
    ensures ToString(UInt16, UInt16.MaxValue(), "", Invariant) == Ok(hi)
  {
    Digits65535(hi);
    assert hi == SignOf(UInt16.MaxValue(), Invariant) + hi;
    GeneralText(UInt16, UInt16.MaxValue(), hi, "", Invariant);
  }

  /** Int32.MinValue and MaxValue.ToString(), in the invariant culture (Int32.cs 88-92). */
  lemma Int32Extremes(lo: string, hi: string)
    requires lo == "-2147483648" && hi == "2147483647"
    ensures ToString(Int32, Int32.MinValue(), "", Invariant) == Ok(lo)
    ensures ToString(Int32, Int32.MaxValue(), "", Invariant) == Ok(hi)
  {
    Digits2147483648(lo[1..]);
    assert lo == SignOf(Int32.MinValue(), Invariant) + lo[1..];
    GeneralText(Int32, Int32.MinValue(), lo[1..], "", Invariant);
    Digits2147483647(hi);
    assert hi == SignOf(Int32.MaxValue(), Invariant) + hi;
    GeneralText(Int32, Int32.MaxValue(), hi, "", Invariant);
  }

  /** UInt32.MaxValue.ToString(), in the invariant culture (UInt32.cs 87-89). */
  lemma UInt32Extremes(hi: string)
    requires hi == "4294967295"
    ensures ToString(UInt32, UInt32.MaxValue(), "", Invariant) == Ok(hi)
  {
    Digits4294967295(hi);
    assert hi == SignOf(UInt32.MaxValue(), Invariant) + hi;
    GeneralText(UInt32, UInt32.MaxValue(), hi, "", Invariant);
  }

  /** Int64.MinValue and MaxValue.ToString(), in the invariant culture (Int64.cs 88-92). */
  lemma Int64Extremes(lo: string, hi: string)
    requires lo == "-9223372036854775808" && hi == "9223372036854775807"
    ensures ToString(Int64, Int64.MinValue(), "", Invariant) == Ok(lo)
    ensures ToString(Int64, Int64.MaxValue(), "", Invariant) == Ok(hi)
  {
    Digits9223372036854775808(lo[1..]);
    assert lo == SignOf(Int64.MinValue(), Invariant) + lo[1..];
    GeneralText(Int64, Int64.MinValue(), lo[1..], "", Invariant);
    Digits9223372036854775807(hi);
    assert hi == SignOf(Int64.MaxValue(), Invariant) + hi;
    GeneralText(Int64, Int64.MaxValue(), hi, "", Invariant);
  }

  /** UInt64.MaxValue.ToString(), in the invariant culture (UInt64.cs 87-89). */
  lemma UInt64Extremes(hi: string)
    requires hi == "18446744073709551615"
    ensures ToString(UInt64, UInt64.MaxValue(), "", Invariant) == Ok(hi)
  {
    Digits18446744073709551615(hi);
    assert hi == SignOf(UInt64.MaxValue(), Invariant) + hi;
    GeneralText(UInt64, UInt64.MaxValue(), hi, "", Invariant);
  }

  /**
   * A custom NegativeSign "#" writes -6789 as "#6789" (Int16.cs 109,
   * Int32.cs 109, Int64.cs 109), and leaves 6789 alone (Int32.cs 110).
   */
  lemma CustomSignText(s: string, u: string, t: IntegerType)
    requires s == "#6789" && u == "6789" && t != Byte && t != SByte && t.Signed()
    ensures ToString(t, -6789, "", HashFormat) == Ok(s)
    ensures ToString(t, 6789, "", HashFormat) == Ok(u)
  {
    Digits6789(u);
    assert s == SignOf(-6789, HashFormat) + u && u == SignOf(6789, HashFormat) + u;
    GeneralText(t, -6789, u, "", HashFormat);
    GeneralText(t, 6789, u, "", HashFormat);
  }

  /** A custom NegativeSign "#" writes (sbyte)-67 as "#67" (SByte.cs 108). */
  lemma CustomSignTextSByte(s: string, u: string)
    requires s == "#67" && u == "67"
    ensures ToString(SByte, -67, "", HashFormat) == Ok(s)
  {
    Digits67(u);
    assert s == SignOf(-67, HashFormat) + u;
    GeneralText(SByte, -67, u, "", HashFormat);
  }

  /** "G" and "g" write -6321 as "-6321" (Int32.cs 121 and 144, read in both cases at 130-131). */
  lemma GeneralVector(s: string, f: string, t: IntegerType)
    requires s == "-6321" && (f == "G" || f == "g") && t.Signed() && t != SByte
    ensures ToString(t, -6321, f, Invariant) == Ok(s)
  {
    Digits6321(s[1..]);
    assert s == SignOf(-6321, Invariant) + s[1..];
    GeneralText(t, -6321, s[1..], f, Invariant);
  }

  /** "X" and "x" with no precision are exactly the "X" text of the bit pattern. */
  lemma HexVectorShape(t: IntegerType, v: int, f: string, nfi: NumberFormat)
    requires 0 <= v <= t.MaxValue() && (f == "X" || f == "x")
    ensures ToString(t, v, f, nfi) == Ok(HexText(v, f == "X"))
  {
    HexSpecifier(t, v, f, nfi);
    ModuloFacts(t, v);
    assert Unsigned(t, v) == v;
    assert ZeroPadded(HexText(v, f == "X"), 0) == HexText(v, f == "X");
  }

  lemma HexText2468(n: nat, upper: bool)
    requires n == 0x2468
    ensures HexText(n, upper) == "2468"
  {
    assert HexWidth(0x24) == 2;
    assert HexWidth(n) == 4;
    assert HexFixed(0x24, 2, upper) == "24";
    assert HexFixed(0x246, 3, upper) == "246";
  }

  lemma HexText24(n: nat, upper: bool)
    requires n == 0x24
    ensures HexText(n, upper) == "24"
  {
    assert HexWidth(n) == 2;
    assert HexFixed(2, 1, upper) == "2";
  }

  /** 0x2468 in "X" or "x" is "2468" (Int16.cs 122, Int32.cs 123 and 146). */
  lemma HexVector(s: string, f: string, t: IntegerType, nfi: NumberFormat)
    requires s == "2468" && (f == "X" || f == "x") && t != Byte && t != SByte
    ensures ToString(t, 0x2468, f, nfi) == Ok(s)
  {
    HexVectorShape(t, 0x2468, f, nfi);
    HexText2468(0x2468, f == "X");
  }

  /** (byte)0x24 in "X" or "x" is "24" (Byte.cs 111 and 133). */
  lemma HexVectorByte(s: string, f: string, t: IntegerType, nfi: NumberFormat)
    requires s == "24" && (f == "X" || f == "x")
    ensures ToString(t, 0x24, f, nfi) == Ok(s)
  {
    HexVectorShape(t, 0x24, f, nfi);
    HexText24(0x24, f == "X");
  }

  /** "N" and "n" write the sign and the grouped digits with NumberDecimalDigits zero decimals. */
  lemma NumberText(t: IntegerType, v: int, d: string, f: string, nfi: NumberFormat)
    requires t.Contains(v) && Canonical(d) && DecimalValue(d) == Abs(v) && (f == "N" || f == "n")
    ensures ToString(t, v, f, nfi) == Ok(SignOf(v, nfi) + NumberBody(d, nfi.numberDecimalDigits, nfi))
  {
    assert StandardShape("N") && Upper('N') == 'N' && "N"[1..] == [];
    SpecifierCase(t, v, 'N', "", nfi);
    assert ['N'] + "" == "N" && [(('N' as int) + 32) as char] + "" == "n";
    DecimalValueRoundTrip(d);
  }

  lemma HashBody2468(d: string)
    requires d == "2468"
    ensures NumberBody(d, HashFormat.numberDecimalDigits, HashFormat) == "2*468~00"
  {
    assert Zeros(2) == "00";
    assert d[..1] == "2" && d[1..] == "468";
    assert Grouped(d, "*") == "2*468";
  }

  lemma HashBody24(d: string)
    requires d == "24"
    ensures NumberBody(d, HashFormat.numberDecimalDigits, HashFormat) == "24~00"
  {
    assert Zeros(2) == "00";
    assert Grouped(d, "*") == d;
  }

  lemma InvariantBody2468(d: string)
    requires d == "2468"
    ensures NumberBody(d, Invariant.numberDecimalDigits, Invariant) == "2,468.00"
  {
    assert Zeros(2) == "00";
    assert d[..1] == "2" && d[1..] == "468";
    assert Grouped(d, ",") == "2,468";
  }

  /**
   * "N" under NegativeSign "#", NumberDecimalSeparator "~" and
   * NumberGroupSeparator "*": -2468 is "#2*468~00" and 2468 is "2*468~00"
   * (Int16.cs 146-147, Int32.cs 153-154, UInt16.cs 139), in either case of
   * the letter.
   */
  lemma HashNumberVector(s: string, d: string, negative: bool, f: string, t: IntegerType)
    requires d == "2468" && s == (if negative then "#" else "") + "2*468~00" && (f == "N" || f == "n")
    requires t != Byte && t != SByte && (negative ==> t.Signed())
    ensures ToString(t, if negative then -2468 else 2468, f, HashFormat) == Ok(s)
  {
    var v := if negative then -2468 else 2468;
    Digits2468(d);
    HashBody2468(d);
    NumberText(t, v, d, f, HashFormat);
  }

  /**
   * The same culture writes 24 as "24~00" (Byte.cs 138, SByte.cs 153) and
   * (sbyte)-24 as "#24~00" (SByte.cs 152).
   */
  lemma HashNumberVectorSmall(s: string, d: string, negative: bool, t: IntegerType)
    requires d == "24" && s == (if negative then "#" else "") + "24~00"
    requires negative ==> t.Signed()
    ensures ToString(t, if negative then -24 else 24, "N", HashFormat) == Ok(s)
  {
    var v := if negative then -24 else 24;
    Digits24(d);
    HashBody24(d);
    NumberText(t, v, d, "N", HashFormat);
  }

  /** "N" in the invariant culture writes 2468 as "2,468.00", which is string.Format("{0:N}", 2468.00) there (Int32.cs 124). */
  lemma InvariantNumberVector(s: string, d: string, t: IntegerType)
    requires d == "2468" && s == "2,468.00" && t != Byte && t != SByte
    ensures ToString(t, 2468, "N", Invariant) == Ok(s)
  {
    Digits2468(d);
    InvariantBody2468(d);
    NumberText(t, 2468, d, "N", Invariant);
    assert SignOf(2468, Invariant) + s == s;
  }

  /** "Y" is no format specifier: FormatException (Int32.cs 134-139, Byte.cs 126). */
  lemma UnknownSpecifier(t: IntegerType, v: int, nfi: NumberFormat)
    requires t.Contains(v)
    ensures ToString(t, v, "Y", nfi) == Err(Format)
  {
    assert StandardShape("Y") && Upper('Y') == 'Y';
  }
}
