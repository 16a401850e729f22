// The vectors of Version.cs, as consequences of the model in version.dfy.
module VersionExamples {
  import opened Wrappers
  import opened Digits
  import opened Versions
  import NumberParsing

  /** new Version(...) with any negative argument raises ArgumentOutOfRangeException (Version.cs 22-62). */
  lemma ConstructorRejects(parts: seq<int>)
    requires parts in {[-1, 0], [0, -1], [-1, 0, 0], [0, -1, 0], [0, 0, -1],
      [-1, 0, 0, 0], [0, -1, 0, 0], [0, 0, -1, 0], [0, 0, 0, -1]}
    ensures New(parts) == Err(ArgumentOutOfRange)
  {
  }

  /**
   * The omitted components read back as -1, so MajorRevision and
   * MinorRevision are -1 too; with revision 7 they are 0 and 7, and with
   * int.MaxValue 32767 and -1 (Version.cs 13-90).
   */
  lemma ConstructorDefaults()
    ensures New([2, 3]) == Ok(Version(2, 3, -1, -1))
    ensures New([2, 3, 4]) == Ok(Version(2, 3, 4, -1))
    ensures MajorRevision(Version(2, 3, -1, -1)) == -1 && MinorRevision(Version(2, 3, -1, -1)) == -1
    ensures MajorRevision(Version(2, 3, 4, 7)) == 0 && MinorRevision(Version(2, 3, 4, 7)) == 7
    ensures var m := Int32Max;
      MajorRevision(Version(m, m, m, m)) == 0x7FFF && MinorRevision(Version(m, m, m, m)) == -1
  {
    assert Components(Version(2, 3, -1, -1)) == [2, 3];
    assert Components(Version(2, 3, 4, -1)) == [2, 3, 4];
  }

  /** 1.2 against the CompareToData rows (Version.cs 92-113). */
  lemma CompareToVectors()
    ensures var v := Version(1, 2, -1, -1);
      CompareTo(v, None) == 1 && CompareTo(v, Some(v)) == 0
      && CompareTo(v, Some(Version(2, 0, -1, -1))) == -1
      && CompareTo(v, Some(Version(1, 2, 1, -1))) == -1
      && CompareTo(v, Some(Version(1, 2, 0, 1))) == -1
      && CompareTo(v, Some(Version(1, 0, -1, -1))) == 1
      && CompareTo(v, Some(Version(1, 0, 1, -1))) == 1
      && CompareTo(v, Some(Version(1, 0, 0, 1))) == 1
  {
  }

  /** The EqualsData rows, in both directions (Version.cs 115-148). */
  lemma EqualsVectors()
    ensures Equals(Version(2, 3, -1, -1), Some(Version(2, 3, -1, -1)))
    ensures Equals(Version(2, 3, 4, 5), Some(Version(2, 3, 4, 5)))
    ensures !Equals(Version(5, 5, -1, -1), Some(Version(5, 4, -1, -1)))
    ensures !Equals(Version(10, 10, 10, -1), Some(Version(10, 10, 2, -1)))
    ensures !Equals(Version(10, 10, 10, 10), Some(Version(10, 10, -1, -1)))
    ensures !Equals(Version(10, 10, -1, -1), Some(Version(10, 10, 10, 10)))
    ensures !Equals(Version(2, 3, -1, -1), Some(Version(2, 4, -1, -1)))
  {
  }

  lemma TextPieces(v: Version, s: string)
    requires (v == Version(1, 2, -1, -1) && s == "1.2") || (v == Version(1, 2, 3, -1) && s == "1.2.3")
      || (v == Version(1, 2, 3, 4) && s == "1.2.3.4")
    ensures Valid(v) && Text(v) == s
  {
    if v.build < 0 {
      TextOfTwo(v, s);
    } else if v.revision < 0 {
      TextOfThree(v, s);
    } else {
      TextOfFour(v, s);
    }
  }

  lemma TextOfTwo(v: Version, s: string)
    requires v == Version(1, 2, -1, -1) && s == "1.2"
    ensures Valid(v) && Text(v) == s
  {
    TextShape(v);
    assert DecimalText(1) == "1" && DecimalText(2) == "2";
  }

  lemma TextOfThree(v: Version, s: string)
    requires v == Version(1, 2, 3, -1) && s == "1.2.3"
    ensures Valid(v) && Text(v) == s
  {
    TextShape(v);
    assert DecimalText(1) == "1" && DecimalText(2) == "2" && DecimalText(3) == "3";
  }

  lemma TextOfFour(v: Version, s: string)
    requires v == Version(1, 2, 3, 4) && s == "1.2.3.4"
    ensures Valid(v) && Text(v) == s
  {
    TextShape(v);
    assert DecimalText(1) == "1" && DecimalText(2) == "2" && DecimalText(3) == "3" && DecimalText(4) == "4";
  }

  lemma SmallTexts()
    ensures DecimalText(1) == "1" && DecimalText(2) == "2" && DecimalText(3) == "3" && DecimalText(4) == "4"
    ensures DecimalText(5) == "5" && DecimalText(10) == "10" && DecimalText(11) == "11" && DecimalText(12) == "12"
  {
  }

  /** ToString() of 1.2, 1.2.3 and 1.2.3.4, and Parse of that text (Version.cs 157-163, 196-213). */
  lemma TextVectors(v: Version, s: string)
    requires (v == Version(1, 2, -1, -1) && s == "1.2") || (v == Version(1, 2, 3, -1) && s == "1.2.3")
      || (v == Version(1, 2, 3, 4) && s == "1.2.3.4")
    ensures Text(v) == s && Parse(s) == Ok(v) && TryParse(s) == Some(v)
  {
    TextPieces(v, s);
    ParseText(v);
  }

  /** ToString(n) of 5.3: "", "5", "5.3", then ArgumentException for 3, 4, 5 and -1 (Version.cs 168-175). */
  lemma FieldCountTwo(n: int)
    ensures var v := Version(5, 3, -1, -1);
      TextOf(v, n) == if n == 0 then Ok("") else if n == 1 then Ok("5") else if n == 2 then Ok("5.3") else Err(Argument)
  {
    var v := Version(5, 3, -1, -1);
    assert |Components(v)| == 2;
    if 1 <= n <= 2 {
      SmallTexts();
      TextOfShape(v);
      assert TextOf(v, 1) == Ok("5");
      assert DecimalText(5) + "." + DecimalText(3) == "5.3";
      assert TextOf(v, 2) == Ok("5.3");
    }
  }

  /** ToString(n) of 10.11.12: up to "10.11.12", then ArgumentException for 4, 5 and -1 (Version.cs 177-184). */
  lemma FieldCountThree(n: int)
    ensures var v := Version(10, 11, 12, -1);
      TextOf(v, n) == if n == 0 then Ok("") else if n == 1 then Ok("10") else if n == 2 then Ok("10.11")
        else if n == 3 then Ok("10.11.12") else Err(Argument)
  {
    var v := Version(10, 11, 12, -1);
    assert |Components(v)| == 3;
    if 1 <= n <= 3 {
      TextOfShape(v);
      TwoDigitTexts(v);
    }
  }

  lemma TwoDigitTexts(v: Version)
    requires v == Version(10, 11, 12, -1)
    ensures DecimalText(v.major) == "10"
    ensures DecimalText(v.major) + "." + DecimalText(v.minor) == "10.11"
    ensures DecimalText(v.major) + "." + DecimalText(v.minor) + "." + DecimalText(v.build) == "10.11.12"
  {
    assert DecimalText(10) == "10" && DecimalText(11) == "11" && DecimalText(12) == "12";
  }

  /** ToString(n) of 1.2.3.4: up to "1.2.3.4", then ArgumentException for 5 and -1 (Version.cs 186-193). */
  lemma FieldCountFour(n: int)
    ensures var v := Version(1, 2, 3, 4);
      TextOf(v, n) == if n == 0 then Ok("") else if n == 1 then Ok("1") else if n == 2 then Ok("1.2")
        else if n == 3 then Ok("1.2.3") else if n == 4 then Ok("1.2.3.4") else Err(Argument)
  {
    var v := Version(1, 2, 3, 4);
    assert |Components(v)| == 4;
    if 1 <= n <= 3 {
      SmallTexts();
      TextOfShape(v);
      assert TextOf(v, 1) == Ok("1");
      assert DecimalText(1) + "." + DecimalText(2) == "1.2";
      assert DecimalText(1) + "." + DecimalText(2) + "." + DecimalText(3) == "1.2.3";
    } else if n == 4 {
      TextPieces(v, "1.2.3.4");
    }
  }

  /** One or two digits with white space around them read as their value. */
  lemma Spaced(p: string, w1: string, d: string, w2: string)
    requires p == w1 + d + w2 && NumberParsing.AllWhite(w1) && NumberParsing.AllWhite(w2)
    requires AllDigits(d) && 1 <= |d| <= 2
    ensures ParseComponent(p) == Ok(if |d| == 1 then DigitValue(d[0]) else 10 * DigitValue(d[0]) + DigitValue(d[1]))
  {
    assert p == w1 + [] + d + w2;
    ShortDecimalValue(d);
    ParseComponentDigits(p, w1, false, d, w2);
  }

  /** The four pieces of "2  .3.    4.  \t\r\n15  ", one at a time. */
  lemma SpacedComponent(p: string, x: int)
    requires (p == "2  " && x == 2) || (p == "3" && x == 3) || (p == "    4" && x == 4) || (p == "  \t\r\n15  " && x == 15)
    ensures ParseComponent(p) == Ok(x)
  {
    if x == 2 {
      Spaced(p, [], "2", "  ");
    } else if x == 3 {
      Spaced(p, [], "3", []);
    } else if x == 4 {
      Spaced(p, "    ", "4", []);
    } else {
      Spaced(p, "  \t\r\n", "15", "  ");
    }
  }

  lemma SpacedText(s: string, parts: seq<string>)
    requires s == "2  .3.    4.  \t\r\n15  " && parts == ["2  ", "3", "    4", "  \t\r\n15  "]
    ensures s == Join(parts)
  {
    JoinDisplay(parts);
    assert s == "2  " + "." + "3" + "." + "    4" + "." + "  \t\r\n15  ";
  }

  lemma SpacedPieces(parts: seq<string>)
    requires parts == ["2  ", "3", "    4", "  \t\r\n15  "]
    ensures forall k :: 0 <= k < |parts| ==> NoDot(parts[k])
  {
    forall k | 0 <= k < |parts| ensures NoDot(parts[k]) {
      if k == 0 { assert parts[k] == "2  "; }
      else if k == 1 { assert parts[k] == "3"; }
      else if k == 2 { assert parts[k] == "    4"; }
      else { assert parts[k] == "  \t\r\n15  "; }
    }
  }

  lemma SpacedReads(parts: seq<string>, v: Version)
    requires parts == ["2  ", "3", "    4", "  \t\r\n15  "] && v == Version(2, 3, 4, 15)
    ensures Valid(v) && |parts| == |Components(v)|
    ensures forall k :: 0 <= k < |parts| ==> ParseComponent(parts[k]) == Ok(Components(v)[k])
  {
    var c := Components(v);
    assert c == [2, 3, 4, 15];
    forall k | 0 <= k < |parts| ensures ParseComponent(parts[k]) == Ok(c[k]) {
      SpacedComponent(parts[k], c[k]);
    }
  }

  /** "2  .3.    4.  \t\r\n15  " is 2.3.4.15: white space around each component is skipped (Version.cs 201). */
  lemma ParseSpaced(s: string)
    requires s == "2  .3.    4.  \t\r\n15  "
    ensures Parse(s) == Ok(Version(2, 3, 4, 15))
  {
    var parts := ["2  ", "3", "    4", "  \t\r\n15  "];
    SpacedText(s, parts);
    SpacedPieces(parts);
    SpacedReads(parts, Version(2, 3, 4, 15));
    ParseJoinedOk(parts, Version(2, 3, 4, 15));
  }

  /** A null string raises ArgumentNullException, and TryParse refuses it (Version.cs 216). */
  lemma ParseNull()
    ensures ParseNullable(None) == Err(ArgumentNull) && TryParseNullable(None) == None
  {
  }

  /** "1,2,3,4" and "1" are one piece, so ArgumentException (Version.cs 217-218). */
  lemma ParseOnePiece(s: string)
    requires s == "1,2,3,4" || s == "1"
    ensures Parse(s) == Err(Argument) && TryParse(s) == None
  {
    SplitNoDot(s);
  }

  lemma PairPieces(s: string, a: string, b: string)
    requires NoDot(a) && NoDot(b) && s == a + "." + b
    ensures s == Join([a, b]) && forall k :: 0 <= k < 2 ==> NoDot([a, b][k])
  {
    JoinDisplay([a, b]);
  }

  lemma LetterText(s: string, parts: seq<string>)
    requires s == "1.b.3.4" && parts == ["1", "b", "3", "4"]
    ensures s == Join(parts)
  {
    JoinDisplay(parts);
    assert s == "1" + "." + "b" + "." + "3" + "." + "4";
  }

  lemma LetterPieces(parts: seq<string>)
    requires parts == ["1", "b", "3", "4"]
    ensures forall k :: 0 <= k < |parts| ==> NoDot(parts[k])
    ensures ParseComponent(parts[0]).Ok? && ParseComponent(parts[1]) == Err(Format)
  {
    forall k | 0 <= k < |parts| ensures NoDot(parts[k]) {
      assert |parts[k]| == 1 && parts[k][0] != '.';
    }
    Spaced(parts[0], [], "1", []);
    LetterComponent(parts[1]);
  }

  /** "1.b.3.4": the second component is not a number, so FormatException (Version.cs 219). */
  lemma ParseLetter(s: string)
    requires s == "1.b.3.4"
    ensures Parse(s) == Err(Format) && TryParse(s) == None
  {
    var parts := ["1", "b", "3", "4"];
    LetterText(s, parts);
    LetterPieces(parts);
    ParseJoinedErr(parts, 1);
  }

  lemma LetterComponent(p: string)
    requires p == "b"
    ensures ParseComponent(p) == Err(Format)
  {
    NumberParsing.InvariantIsSane();
    assert p == [] + (['b'] + []) && NumberParsing.AllWhite([]);
    NumberParsing.RejectsNoDigits(p, [], 'b', [], NumberParsing.Integer, NumberParsing.Invariant, Integers.Int32);
  }

  /** "1.-1": the minor component parses as -1, so ArgumentOutOfRangeException (Version.cs 220). */
  lemma ParseNegative(s: string)
    requires s == "1.-1"
    ensures Parse(s) == Err(ArgumentOutOfRange) && TryParse(s) == None
  {
    assert s == "1" + "." + "-1";
    PairPieces(s, "1", "-1");
    Spaced("1", [], "1", []);
    ShortDecimalValue("1");
    ParseComponentDigits("-1", [], true, "1", []);
    ParseJoinedErr(["1", "-1"], 1);
  }

  /** Ten to the twelfth, one power at a time. */
  lemma Pow10Twelve()
    ensures Pow10(12) == 1_000_000_000_000
  {
    assert Pow10(3) == 1000;
    assert Pow10(6) == 1000 * Pow10(3);
    assert Pow10(9) == 1000 * Pow10(6);
    assert Pow10(12) == 1000 * Pow10(9);
  }

  lemma LargeComponent(d: string)
    requires d == "5000000000000"
    ensures ParseComponent(d) == Err(Overflow)
  {
    LeadingDigitBound(d);
    Pow10Twelve();
    ParseComponentDigits(d, [], false, d, []);
  }

  /** "1.5000000000000": the minor component is beyond int.MaxValue, so OverflowException (Version.cs 221). */
  lemma ParseTooLarge(s: string)
    requires s == "1.5000000000000"
    ensures Parse(s) == Err(Overflow) && TryParse(s) == None
  {
    var d := "5000000000000";
    assert s == "1" + "." + d;
    PairPieces(s, "1", d);
    Spaced("1", [], "1", []);
    LargeComponent(d);
    ParseJoinedErr(["1", d], 1);
  }
}
