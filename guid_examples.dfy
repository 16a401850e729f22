// The Guid test vectors of Guid.cs (tests/System/Guid.cs), derived from the
// model in Guids. Long expected texts are written as concatenations of
// verbatim pieces of the test's own literals.
module GuidExamples {
  import opened Wrappers
  import opened Digits
  import opened Bytes
  import opened Integers
  import opened Guids

  const TestBytes: seq<byte> := [0xbf, 0x46, 0x80, 0x2d, 0xb8, 0xf8, 0x43, 0xff]

  /** The Guid "a8a110d5-fc49-43c5-bf46-802db8f843ff" of the tests. */
  const TestGuid: Guid := Guid(0xa8a110d5, 0xfc49, 0x43c5, TestBytes)

  /** The Guids the CompareTo test puts below and above it. */
  const LowerGuid: Guid := Guid(0x98a110d5, 0xfc49, 0x43c5, TestBytes)
  const HigherGuid: Guid := Guid(0xe8a110d5, 0xfc49, 0x43c5, TestBytes)

  /** The digits of the eight trailing bytes, pair by pair. */
  const Pairs: string := "bf" + ("46" + ("80" + ("2d" + ("b8" + ("f8" + ("43" + ("ff")))))))

  const TestDigits: string := "a8a110d5" + "fc49" + "43c5" + Pairs

  const DText: string := "a8a110d5-fc49-43c5-bf46-802db8f843ff"
  const LowerText: string := "98a110d5-fc49-43c5-bf46-802db8f843ff"
  const HigherText: string := "e8a110d5-fc49-43c5-bf46-802db8f843ff"
  const BText: string := "{a8a110d5-fc49-43c5-bf46-802db8f843ff}"
  const PText: string := "(a8a110d5-fc49-43c5-bf46-802db8f843ff)"
  const ByteItems: string := "0xbf," + ("0x46," + ("0x80," + ("0x2d," + ("0xb8," + ("0xf8," + ("0x43," + ("0xff")))))))
  const NText: string := "a8a110d5fc4943c5bf46802db8f843ff"
  const XText: string := "{0x" + "a8a110d5" + ",0x" + "fc49" + ",0x" + "43c5" + ",{" + ByteItems + "}}"

  // ---- the digits of the fields ----

  /** Four digits from two bytes' two. */
  lemma Group(x: nat, y: nat, sx: string, sy: string)
    requires x < 0x100 && y < 0x100
    requires HexFixed(x, 2, false) == sx && HexFixed(y, 2, false) == sy
    ensures HexFixed(x * 0x100 + y, 4, false) == sx + sy
  {
    Pow16Fields();
    SplitAt(x, 2, y, 2, x * 0x100 + y, 4);
  }

  /** Eight digits from two groups of four. */
  lemma Word(x: nat, y: nat, sx: string, sy: string)
    requires x < 0x1_0000 && y < 0x1_0000
    requires HexFixed(x, 4, false) == sx && HexFixed(y, 4, false) == sy
    ensures HexFixed(x * 0x1_0000 + y, 8, false) == sx + sy
  {
    Pow16Fields();
    SplitAt(x, 4, y, 4, x * 0x1_0000 + y, 8);
  }

  /** HexFixedSplit with the joined value and width named. */
  lemma SplitAt(x: nat, w1: nat, y: nat, w2: nat, n: nat, w: nat)
    requires x < Pow16(w1) && y < Pow16(w2)
    requires n == x * Pow16(w2) + y && w == w1 + w2
    ensures n < Pow16(w) && HexFixed(n, w, false) == HexFixed(x, w1, false) + HexFixed(y, w2, false)
  {
    HexFixedSplit(x, w1, y, w2, false);
  }

  lemma LowPairs() ensures HexFixed(0x10, 2, false) == "10" && HexFixed(0xd5, 2, false) == "d5" {}
  lemma HighPaira8() ensures HexFixed(0xa8, 2, false) == "a8" && HexFixed(0xa1, 2, false) == "a1" {}
  lemma HighPair98() ensures HexFixed(0x98, 2, false) == "98" && HexFixed(0xa1, 2, false) == "a1" {}
  lemma HighPaire8() ensures HexFixed(0xe8, 2, false) == "e8" && HexFixed(0xa1, 2, false) == "a1" {}

  lemma LowWord()
    ensures HexFixed(0x10d5, 4, false) == "10d5"
  {
    LowPairs();
    Group(0x10, 0xd5, "10", "d5");
  }

  lemma TestFieldA()
    ensures HexFixed(0xa8a110d5, 8, false) == "a8a110d5"
  {
    LowWord();
    HighPaira8();
    Group(0xa8, 0xa1, "a8", "a1");
    Word(0xa8a1, 0x10d5, "a8a1", "10d5");
  }

  lemma LowerFieldA()
    ensures HexFixed(0x98a110d5, 8, false) == "98a110d5"
  {
    LowWord();
    HighPair98();
    Group(0x98, 0xa1, "98", "a1");
    Word(0x98a1, 0x10d5, "98a1", "10d5");
  }

  lemma HigherFieldA()
    ensures HexFixed(0xe8a110d5, 8, false) == "e8a110d5"
  {
    LowWord();
    HighPaire8();
    Group(0xe8, 0xa1, "e8", "a1");
    Word(0xe8a1, 0x10d5, "e8a1", "10d5");
  }

  lemma FieldsBC()
    ensures HexFixed(0xfc49, 4, false) == "fc49" && HexFixed(0x43c5, 4, false) == "43c5"
  {
    Group(0xfc, 0x49, "fc", "49");
    Group(0x43, 0xc5, "43", "c5");
  }

  /** The digits of eight bytes, two for each. */
  lemma EightBytes(b0: byte, b1: byte, b2: byte, b3: byte, b4: byte, b5: byte, b6: byte, b7: byte,
                   s0: string, s1: string, s2: string, s3: string, s4: string, s5: string, s6: string, s7: string)
    requires HexFixed(b0 as nat, 2, false) == s0 && HexFixed(b1 as nat, 2, false) == s1
    requires HexFixed(b2 as nat, 2, false) == s2 && HexFixed(b3 as nat, 2, false) == s3
    requires HexFixed(b4 as nat, 2, false) == s4 && HexFixed(b5 as nat, 2, false) == s5
    requires HexFixed(b6 as nat, 2, false) == s6 && HexFixed(b7 as nat, 2, false) == s7
    ensures ByteHex([b0, b1, b2, b3, b4, b5, b6, b7]) == s0 + (s1 + (s2 + (s3 + (s4 + (s5 + (s6 + (s7)))))))
  {
    var d := [b0, b1, b2, b3, b4, b5, b6, b7];
    assert ByteHex(d[7..]) == s7 by {
      assert d[7..][1..] == [];
    }
    assert ByteHex(d[6..]) == s6 + s7 by {
      assert d[6..][1..] == d[7..];
    }
    assert ByteHex(d[5..]) == s5 + (s6 + s7) by {
      assert d[5..][1..] == d[6..];
    }
    assert ByteHex(d[4..]) == s4 + (s5 + (s6 + s7)) by {
      assert d[4..][1..] == d[5..];
    }
    assert ByteHex(d[3..]) == s3 + (s4 + (s5 + (s6 + s7))) by {
      assert d[3..][1..] == d[4..];
    }
    assert ByteHex(d[2..]) == s2 + (s3 + (s4 + (s5 + (s6 + s7)))) by {
      assert d[2..][1..] == d[3..];
    }
    assert ByteHex(d[1..]) == s1 + (s2 + (s3 + (s4 + (s5 + (s6 + s7))))) by {
      assert d[1..][1..] == d[2..];
    }
  }

  lemma BytePairs1() ensures HexFixed(0xbf, 2, false) == "bf" && HexFixed(0x46, 2, false) == "46" {}
  lemma BytePairs2() ensures HexFixed(0x80, 2, false) == "80" && HexFixed(0x2d, 2, false) == "2d" {}
  lemma BytePairs3() ensures HexFixed(0xb8, 2, false) == "b8" && HexFixed(0xf8, 2, false) == "f8" {}
  lemma BytePairs4() ensures HexFixed(0x43, 2, false) == "43" && HexFixed(0xff, 2, false) == "ff" {}

  lemma TestByteDigits()
    ensures ByteHex(TestBytes) == Pairs
  {
    BytePairs1();
    BytePairs2();
    BytePairs3();
    BytePairs4();
    EightBytes(0xbf, 0x46, 0x80, 0x2d, 0xb8, 0xf8, 0x43, 0xff, "bf", "46", "80", "2d", "b8", "f8", "43", "ff");
  }

  /** The 32 digits of a Guid with the test's last three fields. */
  lemma Hex32Of(g: Guid, sa: string)
    requires Valid(g) && g.b == 0xfc49 && g.c == 0x43c5 && g.d == TestBytes && HexFixed(g.a, 8, false) == sa
    ensures Hex32(g) == sa + "fc49" + "43c5" + Pairs
  {
    FieldsBC();
    TestByteDigits();
    assert Hex32(g) == sa + ("fc49" + ("43c5" + ByteHex(TestBytes)));
    Regroup(sa, "fc49", "43c5", Pairs);
  }

  lemma Regroup(a: string, b: string, c: string, d: string)
    ensures a + (b + (c + d)) == a + b + c + d
  {
  }

  // ---- the text forms ----

  /** The D form of 32 digits given field by field. */
  lemma HyphenatedFields(a: string, b: string, c: string, t: string)
    requires |a| == 8 && |b| == 4 && |c| == 4 && |t| == 16
    ensures Hyphenated(a + b + c + t) == a + "-" + b + "-" + c + "-" + t[..4] + "-" + t[4..]
  {
    var n := a + b + c + t;
    assert n[..8] == a && n[8..12] == b && n[12..16] == c && n[16..20] == t[..4] && n[20..] == t[4..];
  }

  /** The X form of 32 digits given field by field. */
  lemma HexLiteralsFields(a: string, b: string, c: string, t: string)
    requires |a| == 8 && |b| == 4 && |c| == 4 && |t| == 16
    ensures HexLiterals(a + b + c + t) == "{0x" + a + ",0x" + b + ",0x" + c + ",{" + ByteList(t) + "}}"
  {
    var n := a + b + c + t;
    assert n[..8] == a && n[8..12] == b && n[12..16] == c && n[16..] == t;
  }

  lemma PairsSplit()
    ensures Pairs[..4] == "bf46" && Pairs[4..] == "802db8f843ff"
  {
  }

  /** One step of the X form's byte list: the first pair, then the rest. */
  lemma ByteListCons(p: string, rest: string)
    requires |p| == 2 && |rest| % 2 == 0 && |rest| >= 2
    ensures ByteList(p + rest) == "0x" + p + "," + ByteList(rest)
  {
    assert (p + rest)[..2] == p && (p + rest)[2..] == rest;
  }

  lemma ItemPrefixes()
    ensures "0x" + "bf" + "," == "0xbf," && "0x" + "46" + "," == "0x46," && "0x" + "80" + "," == "0x80," && "0x" + "2d" + "," == "0x2d,"
    ensures "0x" + "b8" + "," == "0xb8," && "0x" + "f8" + "," == "0xf8," && "0x" + "43" + "," == "0x43,"
  {
  }

  lemma TestByteItems()
    ensures ByteList(Pairs) == ByteItems
  {
    ItemPrefixes();
    ByteListCons("bf", "46" + ("80" + ("2d" + ("b8" + ("f8" + ("43" + ("ff")))))));
    ByteListCons("46", "80" + ("2d" + ("b8" + ("f8" + ("43" + ("ff"))))));
    ByteListCons("80", "2d" + ("b8" + ("f8" + ("43" + ("ff")))));
    ByteListCons("2d", "b8" + ("f8" + ("43" + ("ff"))));
    ByteListCons("b8", "f8" + ("43" + ("ff")));
    ByteListCons("f8", "43" + ("ff"));
    ByteListCons("43", "ff");
  }

  /** The D form of a Guid with the test's last three fields, and reading it back. */
  lemma DForm(g: Guid, sa: string, text: string)
    requires Valid(g) && g.b == 0xfc49 && g.c == 0x43c5 && g.d == TestBytes && HexFixed(g.a, 8, false) == sa
    requires text == sa + "-" + "fc49" + "-" + "43c5" + "-" + "bf46" + "-" + "802db8f843ff"
    ensures ToString(g, "D") == Ok(text) && Parse(text) == Ok(g) && ParseExact(text, "D") == Ok(g)
  {
    Hex32Of(g, sa);
    HyphenatedFields(sa, "fc49", "43c5", Pairs);
    PairsSplit();
    DefaultIsD(g);
    TextRoundTrip(g, "D");
  }

  lemma DJoin(text: string)
    requires text == DText
    ensures text == "a8a110d5" + "-" + "fc49" + "-" + "43c5" + "-" + "bf46" + "-" + "802db8f843ff"
  {
  }

  lemma LowerJoin(text: string)
    requires text == LowerText
    ensures text == "98a110d5" + "-" + "fc49" + "-" + "43c5" + "-" + "bf46" + "-" + "802db8f843ff"
  {
  }

  lemma HigherJoin(text: string)
    requires text == HigherText
    ensures text == "e8a110d5" + "-" + "fc49" + "-" + "43c5" + "-" + "bf46" + "-" + "802db8f843ff"
  {
  }

  lemma BJoin()
    ensures "{" + DText + "}" == BText
  {
  }

  lemma PJoin()
    ensures "(" + DText + ")" == PText
  {
  }

  lemma NJoin()
    ensures "a8a110d5" + "fc49" + "43c5" + Pairs == NText
  {
  }

  /** ToString() and ToString("D"), Parse, ParseExact and TryParse of the D text (Guid.cs 118, 126, 136, 151, 173, 175). */
  lemma FormD()
    ensures ToString(TestGuid, []) == Ok(DText) && ToString(TestGuid, "D") == Ok(DText)
    ensures Parse(DText) == Ok(TestGuid) && ParseExact(DText, "D") == Ok(TestGuid)
    ensures TryParse(DText) == Some(TestGuid) && TryParseExact(DText, "D") == Some(TestGuid)
  {
    TestFieldA();
    DJoin(DText);
    DForm(TestGuid, "a8a110d5", DText);
    DefaultIsD(TestGuid);
  }

  /** The N form (Guid.cs 119, 125, 138, 149, 174). */
  lemma FormN()
    ensures ToString(TestGuid, "N") == Ok(NText)
    ensures Parse(NText) == Ok(TestGuid) && ParseExact(NText, "N") == Ok(TestGuid)
    ensures TryParse(NText) == Some(TestGuid) && TryParseExact(NText, "N") == Some(TestGuid)
  {
    TestFieldA();
    Hex32Of(TestGuid, "a8a110d5");
    NJoin();
    FormRead(TestGuid, "N", NText);
  }

  /** What ToString writes under a specifier, Parse, ParseExact and their Try forms read back. */
  lemma FormRead(g: Guid, format: string, text: string)
    requires Valid(g) && format != [] && ToString(g, format) == Ok(text)
    ensures Parse(text) == Ok(g) && ParseExact(text, format) == Ok(g)
    ensures TryParse(text) == Some(g) && TryParseExact(text, format) == Some(g)
  {
    TextRoundTrip(g, format);
  }

  /** The B and P forms are the D form in braces and in parentheses. */
  lemma Enclosed(g: Guid, d: string)
    requires Valid(g) && ToString(g, "D") == Ok(d)
    ensures ToString(g, "B") == Ok("{" + d + "}") && ToString(g, "P") == Ok("(" + d + ")")
  {
  }

  /** The B and P forms (Guid.cs 121-122, 127-128, 142-145, 153-156, 176-177). */
  lemma FormsBP()
    ensures ToString(TestGuid, "B") == Ok(BText) && ToString(TestGuid, "P") == Ok(PText)
    ensures Parse(BText) == Ok(TestGuid) && ParseExact(BText, "B") == Ok(TestGuid)
    ensures Parse(PText) == Ok(TestGuid) && ParseExact(PText, "P") == Ok(TestGuid)
    ensures TryParse(BText) == Some(TestGuid) && TryParseExact(BText, "B") == Some(TestGuid)
    ensures TryParse(PText) == Some(TestGuid) && TryParseExact(PText, "P") == Some(TestGuid)
  {
    FormD();
    Enclosed(TestGuid, DText);
    BJoin();
    PJoin();
    FormRead(TestGuid, "B", BText);
    FormRead(TestGuid, "P", PText);
  }

  /** The X form of a Guid with the test's last three fields. */
  lemma XForm(g: Guid, sa: string)
    requires Valid(g) && |sa| == 8 && Hex32(g) == sa + "fc49" + "43c5" + Pairs
    ensures ToString(g, "X") == Ok("{0x" + sa + ",0x" + "fc49" + ",0x" + "43c5" + ",{" + ByteItems + "}}")
  {
    HexLiteralsFields(sa, "fc49", "43c5", Pairs);
    TestByteItems();
  }

  /** The X form (Guid.cs 123, 129, 146, 157, 178). */
  lemma FormX()
    ensures ToString(TestGuid, "X") == Ok(XText)
    ensures Parse(XText) == Ok(TestGuid) && ParseExact(XText, "X") == Ok(TestGuid)
    ensures TryParse(XText) == Some(TestGuid) && TryParseExact(XText, "X") == Some(TestGuid)
  {
    TestFieldA();
    Hex32Of(TestGuid, "a8a110d5");
    XForm(TestGuid, "a8a110d5");
    FormRead(TestGuid, "X", XText);
  }

  /** 31 digits are no Guid, nor is a hyphenated text under "N" (Guid.cs 160-161). */
  lemma ParseFailures(short: string)
    requires short == "a8a110d5fc4943c5bf46802db8f843f"
    ensures TryParse(short) == None && TryParseExact(DText, "N") == None
  {
    ShortRejectedText(short);
    HyphensRejectedUnderN(DText);
  }

  lemma ShortRejectedText(short: string)
    requires short == "a8a110d5fc4943c5bf46802db8f843f"
    ensures TryParse(short) == None
  {
    ShortText(short);
    ShortRejected(short);
  }

  /** The D text is 36 characters, not the 32 of the "N" form. */
  lemma HyphensRejectedUnderN(s: string)
    requires s == DText
    ensures TryParseExact(s, "N") == None
  {
    DTextUnpadded();
    assert FormOf("N") == Ok(N);
    WrongLength(Trim(s), N);
  }

  /** A text shorter than 32 characters once trimmed is no Guid in any form. */
  lemma ShortRejected(s: string)
    requires |Trim(s)| < 32
    ensures TryParse(s) == None
  {
    var t := Trim(s);
    var f := FormFor(t);
    assert Width(f) >= 32 > |t|;
    assert ParseForm(t, f) == Err(Format);
    assert Parse(s) == ParseForm(t, f);
  }

  lemma ShortText(short: string)
    requires short == "a8a110d5fc4943c5bf46802db8f843f"
    ensures |short| == 31 && Trim(short) == short
  {
    assert short[0] == 'a' && short[30] == 'f';
    TrimUnpadded(short);
  }

  lemma DTextUnpadded()
    ensures Trim(DText) == DText && |DText| == 36
  {
    assert DText[0] == 'a' && DText[35] == 'f';
    TrimUnpadded(DText);
  }

  // ---- constructors and the byte layout ----

  /** new Guid(string) reads the D text; a null string raises ArgumentNullException (Guid.cs 12, 35-46). */
  lemma CtorString()
    ensures New(Some(DText)) == Ok(TestGuid) && New(None) == Err(ArgumentNull)
  {
    FormD();
  }

  lemma TestFieldBytes()
    ensures LittleEndian(0xa8a110d5, 4) == [0xd5, 0x10, 0xa1, 0xa8]
    ensures LittleEndian(0xfc49, 2) == [0x49, 0xfc] && LittleEndian(0x43c5, 2) == [0xc5, 0x43]
  {
  }

  /** ToByteArray: the three fields little-endian, then the eight bytes (Guid.cs 90-97). */
  lemma TestToByteArray()
    ensures ToByteArray(TestGuid)
      == [0xd5, 0x10, 0xa1, 0xa8, 0x49, 0xfc, 0xc5, 0x43, 0xbf, 0x46, 0x80, 0x2d, 0xb8, 0xf8, 0x43, 0xff]
  {
    TestFieldBytes();
    var r := ToByteArray(TestGuid);
    assert r == r[..4] + r[4..6] + r[6..8] + r[8..];
  }

  /** new Guid(byte[]) of ToByteArray gives the Guid back (Guid.cs 14-19). */
  lemma CtorByteArray()
    ensures FromBytes(ToByteArray(TestGuid)) == Ok(TestGuid)
  {
    ByteArrayRoundTrip(TestGuid);
  }

  /**
   * new Guid(int, short, short, byte[]) and the form with eight byte
   * arguments, from the signed values unchecked((int)0xa8a110d5) and
   * unchecked((short)0xfc49) (Guid.cs 21-33).
   */
  lemma CtorFields()
    ensures FromFields(0xa8a110d5 - 0x1_0000_0000, 0xfc49 - 0x1_0000, 0x43c5, TestBytes) == Ok(TestGuid)
    ensures FromComponents(0xa8a110d5 - 0x1_0000_0000, 0xfc49 - 0x1_0000, 0x43c5,
                           0xbf, 0x46, 0x80, 0x2d, 0xb8, 0xf8, 0x43, 0xff) == TestGuid
  {
    assert Unsigned(Int32, 0xa8a110d5 - 0x1_0000_0000) == 0xa8a110d5;
    assert Unsigned(Int16, 0xfc49 - 0x1_0000) == 0xfc49;
    assert Unsigned(Int16, 0x43c5) == 0x43c5;
  }

  /** A byte array of any length but 16 is refused. */
  lemma CtorShortArray()
    ensures FromBytes(TestBytes) == Err(Argument) && FromFields(0, 0, 0, []) == Err(Argument)
  {
  }

  /** Guid.Empty is new Guid(0, 0, 0, eight zero bytes) (Guid.cs 99-103). */
  lemma TestEmpty()
    ensures FromFields(0, 0, 0, [0, 0, 0, 0, 0, 0, 0, 0]) == Ok(Empty)
  {
    assert Unsigned(Int32, 0) == 0 && Unsigned(Int16, 0) == 0;
  }

  // ---- equality, ordering and hashing ----

  /** Null and a string compare and equal alike for every Guid. */
  lemma NonGuids(g: Guid, text: string)
    requires Valid(g)
    ensures Guids.CompareTo(g, NullObject) == Ok(1) && Guids.CompareTo(g, BoxedText(text)) == Err(Argument)
    ensures !Guids.Equals(g, NullObject) && !Guids.Equals(g, BoxedText(text))
  {
  }

  /** A Guid with a smaller first field is below. */
  lemma FirstFieldDecides(g: Guid, h: Guid)
    requires Valid(g) && Valid(h) && g.a < h.a
    ensures Compare(g, h) < 0 && Compare(h, g) > 0
    ensures Guids.CompareTo(h, BoxedGuid(g)).Ok? && Guids.CompareTo(h, BoxedGuid(g)).value > 0
    ensures Guids.CompareTo(g, BoxedGuid(h)).Ok? && Guids.CompareTo(g, BoxedGuid(h)).value < 0
    ensures !Guids.Equals(g, BoxedGuid(h)) && !Guids.Equals(h, BoxedGuid(g))
  {
    CompareOrder(g, h);
  }

  lemma SelfCompare(g: Guid)
    requires Valid(g)
    ensures Compare(g, g) == 0 && Guids.CompareTo(g, BoxedGuid(g)) == Ok(0) && Guids.Equals(g, BoxedGuid(g))
  {
  }

  /** Equals, == and != (Guid.cs 49-68). */
  lemma TestEquals()
    ensures Guids.Equals(TestGuid, BoxedGuid(TestGuid))
    ensures New(Some(DText)) == Ok(TestGuid)
    ensures !Guids.Equals(TestGuid, BoxedGuid(Empty)) && !Guids.Equals(Empty, BoxedGuid(TestGuid)) && TestGuid != Empty
    ensures !Guids.Equals(TestGuid, NullObject) && !Guids.Equals(TestGuid, BoxedText(DText))
  {
    CtorString();
    SelfCompare(TestGuid);
    FirstFieldDecides(Empty, TestGuid);
    NonGuids(TestGuid, DText);
  }

  /** The two other Guids of the CompareTo test, read from their texts. */
  lemma CompareOperands()
    ensures New(Some(LowerText)) == Ok(LowerGuid) && New(Some(HigherText)) == Ok(HigherGuid)
  {
    LowerFieldA();
    LowerJoin(LowerText);
    DForm(LowerGuid, "98a110d5", LowerText);
    HigherFieldA();
    HigherJoin(HigherText);
    DForm(HigherGuid, "e8a110d5", HigherText);
  }

  /** CompareTo with 98a110d5-... is positive (Guid.cs 74, 81). */
  lemma TestCompareToLower()
    ensures Compare(TestGuid, LowerGuid) > 0
    ensures Guids.CompareTo(TestGuid, BoxedGuid(LowerGuid)).Ok? && Guids.CompareTo(TestGuid, BoxedGuid(LowerGuid)).value > 0
  {
    FirstFieldDecides(LowerGuid, TestGuid);
  }

  /** CompareTo with itself is 0 (Guid.cs 75, 82). */
  lemma TestCompareToSelf()
    ensures Compare(TestGuid, TestGuid) == 0 && Guids.CompareTo(TestGuid, BoxedGuid(TestGuid)) == Ok(0)
  {
    SelfCompare(TestGuid);
  }

  /** CompareTo with e8a110d5-... is negative (Guid.cs 76, 83). */
  lemma TestCompareToHigher()
    ensures Compare(TestGuid, HigherGuid) < 0
    ensures Guids.CompareTo(TestGuid, BoxedGuid(HigherGuid)).Ok? && Guids.CompareTo(TestGuid, BoxedGuid(HigherGuid)).value < 0
  {
    FirstFieldDecides(TestGuid, HigherGuid);
  }

  /** IComparable.CompareTo(null) is positive and CompareTo of a string raises ArgumentException (Guid.cs 85-87). */
  lemma TestCompareToObjects()
    ensures Guids.CompareTo(TestGuid, NullObject) == Ok(1)
    ensures Guids.CompareTo(TestGuid, BoxedText(DText)) == Err(Argument)
  {
    NonGuids(TestGuid, DText);
  }

  /**
   * A Guid sharing the test Guid's first field, third field and last byte,
   * the test Guid among them, hashes to an odd number and so not to the
   * empty Guid's 0 (Guid.cs 165-168; HashCodeEmpty).
   */
  lemma TestGetHashCode(g: Guid)
    requires Valid(g) && g.a == TestGuid.a && g.c == TestGuid.c && g.d[7] == TestGuid.d[7]
    ensures Guids.HashCode(g) % 2 == 1
    ensures Guids.HashCode(g) != 0
  {
    HashCodeParity(g);
  }

  /** The empty Guid hashes to 0. */
  lemma HashCodeEmpty()
    ensures Guids.HashCode(Empty) == 0
  {
    Pow2Word();
    XorZero(0, 32);
  }

  /** The parity of a Guid's hash is that of the fields its lowest bit mixes. */
  lemma HashCodeParity(g: Guid)
    requires Valid(g)
    ensures Guids.HashCode(g) % 2 == (g.a + g.c + g.d[7] as nat) % 2
  {
    Pow2Word();
    var x := g.b * 0x1_0000 + g.c;
    var y := g.d[2] as nat * 0x100_0000 + g.d[7] as nat;
    var inner := Xor(g.a, x, 32);
    var outer := Xor(inner, y, 32);
    XorParity(g.a, x, 32);
    XorParity(inner, y, 32);
    LowBit(x, g.b * 0x8000, g.c);
    LowBit(y, g.d[2] as nat * 0x80_0000, g.d[7] as nat);
    MixParity(g.a, x, g.c, inner, y, g.d[7] as nat, outer);
    WrapParity(outer);
  }

  lemma LowBit(x: int, k: int, y: int)
    requires x == 2 * k + y
    ensures x % 2 == y % 2
  {
  }

  lemma MixParity(a: int, x: int, c: int, inner: int, y: int, e: int, outer: int)
    requires x % 2 == c % 2 && y % 2 == e % 2
    requires inner % 2 == (a + x) % 2 && outer % 2 == (inner + y) % 2
    ensures outer % 2 == (a + c + e) % 2
  {
  }

  /** Wrapping to 32 bits keeps the lowest bit. */
  lemma WrapParity(v: int)
    ensures Wrap(Int32, v) % 2 == v % 2
  {
    Pow2Word();
    var r := Wrap(Int32, v);
    var k := (r - v) / Int32.Modulus();
    assert r - v == Int32.Modulus() * k;
    LowBit(r, v / 2 + k * 0x8000_0000, v % 2);
  }
}
