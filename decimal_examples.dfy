// The vectors of Decimal.cs, as consequences of the model in decimal.dfy.
module DecimalExamples {
  import opened Wrappers
  import opened Digits
  import Integers
  import opened Decimals

  const UIntMax: nat := 0xFFFF_FFFF
  const ULongMax: nat := 0xFFFF_FFFF_FFFF_FFFF

  /**
   * new decimal(1, 1, 1, false, 0) and new decimal(new int[] { 1, 1, 1, 0 })
   * are both 3 + uint.MaxValue + ulong.MaxValue (Decimal.cs 50-68).
   */
  lemma PartsConstructors()
    ensures FromParts(1, 1, 1, false, 0) == Ok(Decimal(false, 0, 3 + UIntMax + ULongMax))
    ensures FromBits(Some([1, 1, 1, 0])) == Ok(Decimal(false, 0, 3 + UIntMax + ULongMax))
  {
  }

  /** A null array raises ArgumentNullException; arrays of 3 and 5 words raise ArgumentException (Decimal.cs 70-76). */
  lemma BitsConstructorRejects()
    ensures FromBits(None) == Err(ArgumentNull)
    ensures FromBits(Some([0, 0, 0])) == Err(Argument)
    ensures FromBits(Some([0, 0, 0, 0, 0])) == Err(Argument)
  {
  }

  /** The words of small magnitudes (Decimal.cs 782-791). */
  lemma GetBitsSmall()
    ensures GetBits(One) == [1, 0, 0, 0]
    ensures GetBits(Decimal(false, 0, 100000000000000)) == [0x107A4000, 0x5AF3, 0, 0]
    ensures GetBits(Decimal(false, 9, 123456789)) == [0x075BCD15, 0, 0, 0x0009_0000]
    ensures GetBits(Decimal(false, 0, ULongMax)) == [-1, -1, 0, 0]
  {
  }

  /** 10^28 at scales 14 and 28 (Decimal.cs 784-785). */
  lemma GetBitsScaled()
    ensures GetBits(Decimal(false, 14, 10000000000000000000000000000))
      == [0x10000000, 0x3E250261, 0x204FCE5E, 0x000E_0000]
    ensures GetBits(Decimal(false, 28, 10000000000000000000000000000))
      == [0x10000000, 0x3E250261, 0x204FCE5E, 0x001C_0000]
  {
  }

  /** MaxValue, MinValue and -7.9228162514264337593543950335 (Decimal.cs 792-794). */
  lemma GetBitsExtremes()
    ensures GetBits(MaxValue) == [-1, -1, -1, 0]
    ensures GetBits(MinValue) == [-1, -1, -1, -0x8000_0000]
    ensures GetBits(Decimal(true, 28, MaxMagnitude)) == [-1, -1, -1, 0x801C_0000 - 0x1_0000_0000]
  {
  }

  /**
   * The EqualsTestData rows (Decimal.cs 78-114): Equals, and the hash codes
   * agreeing exactly when the values are equal.
   */
  lemma EqualsVectors()
    ensures Equals(Zero, Zero) && !Equals(Zero, One)
    ensures Equals(MaxValue, MaxValue) && Equals(MinValue, MinValue) && !Equals(MaxValue, MinValue)
    ensures HashCode(Zero) != HashCode(One) && HashCode(MaxValue) != HashCode(MinValue)
    ensures !EqualsObject(One, NullObject) && !EqualsObject(One, BoxedInteger(Integers.Int32, 1))
    ensures !EqualsObject(One, BoxedText("one"))
  {
    HashVectors();
  }

  /** Under the stand-in hash, Zero and One hash to 0 and 1; MaxValue and MinValue to -1 and 1. */
  lemma HashVectors()
    ensures HashCode(Zero) == 0 && HashCode(One) == 1
    ensures HashCode(MaxValue) == -1 && HashCode(MinValue) == 1
  {
    assert Pow10(0) == 1;
    assert Truncate(Zero) == Zero && Truncate(One) == One;
    assert Truncate(MaxValue) == MaxValue && Truncate(MinValue) == MinValue;
    assert Integers.Wrap(Integers.Int32, MaxMagnitude) == -1;
    assert Integers.Wrap(Integers.Int32, -(MaxMagnitude as int)) == 1;
  }

  /** The CompareTestData rows and the rejected objects of TestCompare_Invalid (Decimal.cs 116-170). */
  lemma CompareVectors()
    ensures Compare(FromInteger(5), FromInteger(15)) == -1
    ensures Compare(FromInteger(15), FromInteger(15)) == 0
    ensures Compare(FromInteger(15), FromInteger(5)) == 1
    ensures Compare(Zero, One) == -1 && Compare(One, Zero) == 1 && Compare(Zero, Zero) == 0
    ensures Compare(MaxValue, MinValue) == 1 && Compare(MinValue, MaxValue) == -1
    ensures Compare(MaxValue, MaxValue) == 0 && Compare(MinValue, MinValue) == 0
    ensures CompareTo(FromInteger(248), BoxedText("248")) == Err(Argument)
    ensures CompareTo(FromInteger(248), BoxedInteger(Integers.Int32, 248)) == Err(Argument)
  {
  }

  /** NegateTestData (Decimal.cs 464-477). */
  lemma NegateVectors()
    ensures SameValue(Negate(One), MinusOne) && SameValue(Negate(Zero), Zero) && SameValue(Negate(MinusOne), One)
    ensures Negate(MaxValue) == MinValue && Negate(MinValue) == MaxValue
  {
    NegateReverses(Zero, Zero);
  }

  /** 123.456 and -123.456 under Floor, Ceiling and Truncate (Decimal.cs 213-226, 354-367, 765-778). */
  lemma RoundingVectors(d: Decimal, e: Decimal)
    requires d == Decimal(false, 3, 123456) && e == Decimal(true, 3, 123456)
    ensures Floor(d) == Decimal(false, 0, 123) && Ceiling(d) == Decimal(false, 0, 124)
    ensures Truncate(d) == Decimal(false, 0, 123)
    ensures Floor(e) == Decimal(true, 0, 124) && Ceiling(e) == Decimal(true, 0, 123)
    ensures Truncate(e) == Decimal(true, 0, 123)
  {
  }

  /** An integer-valued decimal converts to any integer type that holds it, and overflows otherwise. */
  lemma ToIntegerOfInteger(t: Integers.IntegerType, v: int)
    requires Abs(v) < Word * Word
    ensures ToInteger(t, FromInteger(v)) == if t.Contains(v) then Ok(v) else Err(Overflow)
  {
    assert Pow10(0) == 1;
  }

  /**
   * ToSByte through ToUInt64 accept the target's MinValue and raise
   * OverflowException one below it (Decimal.cs 850-968).
   */
  lemma ToIntegerAtMin(t: Integers.IntegerType)
    ensures ToInteger(t, FromInteger(t.MinValue())) == Ok(t.MinValue())
    ensures ToInteger(t, FromInteger(t.MinValue() - 1)) == Err(Overflow)
  {
    ToIntegerOfInteger(t, t.MinValue());
    ToIntegerOfInteger(t, t.MinValue() - 1);
  }

  /**
   * ToSByte through ToUInt64 accept the target's MaxValue, and all but
   * ToUInt64 raise OverflowException one above it (Decimal.cs 850-968).
   */
  lemma ToIntegerAtMax(t: Integers.IntegerType)
    ensures ToInteger(t, FromInteger(t.MaxValue())) == Ok(t.MaxValue())
    ensures t != Integers.UInt64 ==> ToInteger(t, FromInteger(t.MaxValue() + 1)) == Err(Overflow)
  {
    ToIntegerOfInteger(t, t.MaxValue());
    if t != Integers.UInt64 {
      ToIntegerOfInteger(t, t.MaxValue() + 1);
    }
  }
}

// Decimal.cs's arithmetic vectors: sums, differences, products, quotients and remainders.
module DecimalArithmeticExamples {
  import opened Wrappers
  import opened Digits
  import opened Decimals

  /** A result whose exact whole-number value x is past 96 bits is OverflowException. */
  lemma WholeOverflow(r: Result<Decimal>, x: int)
    requires Abs(x) > MaxMagnitude
    requires (r.Err? <==> RoundHalfEven(Abs(x), Pow10(0)) > MaxMagnitude) && (r.Err? ==> r.error == Overflow)
    ensures r == Err(Overflow)
  {
    assert Pow10(0) == 1 && Abs(x) * 1 == Abs(x);
    RoundExact(Abs(x), 1);
  }

  /** 1 + 1 is 2 (Decimal.cs 174). */
  lemma AddOnes()
    ensures Add(One, One) == Ok(Decimal(false, 0, 2))
  {
  }

  /** 1234.5678 + 0.00009 is 1234.56789, at the larger scale (Decimal.cs 182). */
  lemma AddScales()
    ensures Add(Decimal(false, 4, 12345678), Decimal(false, 5, 9)) == Ok(Decimal(false, 5, 123456789))
  {
  }

  /** -1234.5678 + 0.00009 is -1234.56771 (Decimal.cs 183). */
  lemma AddSigns()
    ensures Add(Decimal(true, 4, 12345678), Decimal(false, 5, 9)) == Ok(Decimal(true, 5, 123456771))
  {
  }

  /** 79228162514264337593543950330 + 5 is MaxValue (Decimal.cs 178). */
  lemma AddToMax()
    ensures Add(Decimal(false, 0, MaxMagnitude - 5), Decimal(false, 0, 5)) == Ok(MaxValue)
  {
  }

  /** -79228162514264337593543950330 + -5 is MinValue (Decimal.cs 181). */
  lemma AddToMin()
    ensures Add(Decimal(true, 0, MaxMagnitude - 5), Decimal(true, 0, 5)) == Ok(MinValue)
  {
  }

  /** 0.5555555555555555555555555555 doubled is 1.1111111111111111111111111110 (Decimal.cs 185). */
  lemma AddFractions()
    ensures Add(Decimal(false, 28, 5555555555555555555555555555), Decimal(false, 28, 5555555555555555555555555555))
      == Ok(Decimal(false, 28, 11111111111111111111111111110))
  {
  }

  /** MaxValue + MaxValue raises OverflowException (Decimal.cs 201). */
  lemma AddMaxOverflows()
    ensures Add(MaxValue, MaxValue) == Err(Overflow)
  {
    var d, e := MaxValue, MaxValue;
    assert Max(d.scale, e.scale) == 0;
    WholeOverflow(Add(d, e), Aligned(d, 0) + Aligned(e, 0));
  }

  /** 79228162514264337593543950330 + 6 raises OverflowException (Decimal.cs 202). */
  lemma AddOverflows()
    ensures Add(Decimal(false, 0, MaxMagnitude - 5), Decimal(false, 0, 6)) == Err(Overflow)
  {
    var d, e := Decimal(false, 0, MaxMagnitude - 5), Decimal(false, 0, 6);
    assert Max(d.scale, e.scale) == 0;
    WholeOverflow(Add(d, e), Aligned(d, 0) + Aligned(e, 0));
  }

  /** -79228162514264337593543950330 + -6 raises OverflowException (Decimal.cs 203). */
  lemma AddUnderflows()
    ensures Add(Decimal(true, 0, MaxMagnitude - 5), Decimal(true, 0, 6)) == Err(Overflow)
  {
    var d, e := Decimal(true, 0, MaxMagnitude - 5), Decimal(true, 0, 6);
    assert Max(d.scale, e.scale) == 0;
    WholeOverflow(Add(d, e), Aligned(d, 0) + Aligned(e, 0));
  }

  /** 12345.678 incremented is 12346.678 (Decimal.cs 501). */
  lemma IncrementFraction()
    ensures Increment(Decimal(false, 3, 12345678)) == Ok(Decimal(false, 3, 12346678))
  {
  }

  /** -12345.678 incremented is -12344.678 (Decimal.cs 502). */
  lemma IncrementNegative()
    ensures Increment(Decimal(true, 3, 12345678)) == Ok(Decimal(true, 3, 12344678))
  {
  }

  /** -1 incremented is zero (Decimal.cs 499). */
  lemma IncrementMinusOne()
    ensures Increment(MinusOne).Ok? && SameValue(Increment(MinusOne).value, Zero)
  {
    assert Pow10(0) == 1;
  }

  /** 12345.678 decremented is 12344.678 (Decimal.cs 485). */
  lemma DecrementFraction()
    ensures Decrement(Decimal(false, 3, 12345678)) == Ok(Decimal(false, 3, 12344678))
  {
  }

  /** 0 decremented is -1 (Decimal.cs 482). */
  lemma DecrementZero()
    ensures Decrement(Zero) == Ok(MinusOne)
  {
    DecrementWholeZero(Zero);
  }

  /** Any zero at scale 0 decremented is -1. */
  lemma DecrementWholeZero(d: Decimal)
    requires Valid(d) && d.scale == 0 && d.magnitude == 0
    ensures Decrement(d) == Ok(MinusOne)
  {
    assert Pow10(d.scale) == 1 && Abs(Signed(d) - Pow10(d.scale)) == 1;
    var r := Decrement(d);
    assert Signed(r.value) == -1;
  }

  /** 7922816251426433759354395033.5 * 10 rounds its product back to scale 0: MaxValue (Decimal.cs 402). */
  lemma MultiplyToMax()
    ensures Multiply(Decimal(false, 1, MaxMagnitude), Decimal(false, 0, 10)) == Ok(MaxValue)
  {
  }

  /** MaxValue * 0.9 is ...301.5, which rounds to the even ...302 (Decimal.cs 408). */
  lemma MultiplyNineTenths()
    ensures Multiply(MaxValue, Decimal(false, 1, 9)) == Ok(Decimal(false, 0, 71305346262837903834189555302))
  {
    RoundHalfEvenUnique(MaxMagnitude * 9, 10, 71305346262837903834189555302);
  }

  /** A product below 10^-28 rounds to the smallest unit, at scale 28 (Decimal.cs 405). */
  lemma MultiplyTiny()
    ensures Multiply(Decimal(false, 28, 345435353453563), Decimal(false, 28, 23525235234234))
      == Ok(Decimal(false, 28, 1))
  {
    var p := 10000000000000000000000000000;
    assert Pow10(28) == p by { Pow10Literal28(); }
    RoundHalfEvenUnique(345435353453563 * 23525235234234, p, 1);
  }

  lemma Pow10Literal28()
    ensures Pow10(28) == 10000000000000000000000000000
  {
    assert Pow10(7) == 10000000;
    Pow10Add(7, 7);
    Pow10Add(14, 14);
  }

  /** MaxValue * MinValue raises OverflowException (Decimal.cs 425). */
  lemma MultiplyExtremesOverflow()
    ensures Multiply(MaxValue, MinValue) == Err(Overflow)
  {
    var m := MaxMagnitude * MaxMagnitude;
    assert Pow10(0) == 1;
    assert RoundHalfEven(m, 1) == m > MaxMagnitude;
  }

  /** MaxValue * 1.1 raises OverflowException (Decimal.cs 427). */
  lemma MultiplyOverflows()
    ensures Multiply(MaxValue, Decimal(false, 1, 11)) == Err(Overflow)
  {
  }

  /** 1234.5678 - 0.00009 is 1234.56771 (Decimal.cs 738). */
  lemma SubtractScales()
    ensures Subtract(Decimal(false, 4, 12345678), Decimal(false, 5, 9)) == Ok(Decimal(false, 5, 123456771))
  {
  }

  /** 79228162514264337593543950330 - -5 is MaxValue (Decimal.cs 734). */
  lemma SubtractToMax()
    ensures Subtract(Decimal(false, 0, MaxMagnitude - 5), Decimal(true, 0, 5)) == Ok(MaxValue)
  {
    SubtractAddsNegation(Decimal(false, 0, MaxMagnitude - 5), Decimal(true, 0, 5));
    AddToMax();
    assert Negate(Decimal(true, 0, 5)) == Decimal(false, 0, 5);
  }

  /** -79228162514264337593543950330 - 5 is MinValue (Decimal.cs 736). */
  lemma SubtractToMin()
    ensures Subtract(Decimal(true, 0, MaxMagnitude - 5), Decimal(false, 0, 5)) == Ok(MinValue)
  {
    SubtractAddsNegation(Decimal(true, 0, MaxMagnitude - 5), Decimal(false, 0, 5));
    AddToMin();
    assert Negate(Decimal(false, 0, 5)) == Decimal(true, 0, 5);
  }

  /** 79228162514264337593543950330 - -6 raises OverflowException (Decimal.cs 754). */
  lemma SubtractOverflows()
    ensures Subtract(Decimal(false, 0, MaxMagnitude - 5), Decimal(true, 0, 6)) == Err(Overflow)
  {
    SubtractAddsNegation(Decimal(false, 0, MaxMagnitude - 5), Decimal(true, 0, 6));
    AddOverflows();
    assert Negate(Decimal(true, 0, 6)) == Decimal(false, 0, 6);
  }

  /** -79228162514264337593543950330 - 6 raises OverflowException (Decimal.cs 755). */
  lemma SubtractUnderflows()
    ensures Subtract(Decimal(true, 0, MaxMagnitude - 5), Decimal(false, 0, 6)) == Err(Overflow)
  {
    SubtractAddsNegation(Decimal(true, 0, MaxMagnitude - 5), Decimal(false, 0, 6));
    AddUnderflows();
    assert Negate(Decimal(false, 0, 6)) == Decimal(true, 0, 6);
  }

  /** 15 / 2 is 7.5 (Decimal.cs 232). */
  lemma DivideHalves()
    ensures Divide(Decimal(false, 0, 15), Decimal(false, 0, 2)).Ok?
    ensures SameValue(Divide(Decimal(false, 0, 15), Decimal(false, 0, 2)).value, Decimal(false, 1, 75))
  {
    DivideRepresentable(Decimal(false, 0, 15), Decimal(false, 0, 2), Decimal(false, 1, 75));
  }

  /** 1 / 0 raises DivideByZeroException (Decimal.cs 312). */
  lemma DivideByZeroRaises()
    ensures Divide(One, Zero) == Err(DivideByZero)
  {
  }

  /** MaxValue / 0.1 raises OverflowException (Decimal.cs 318). */
  lemma DivideOverflows()
    ensures Divide(MaxValue, Decimal(false, 1, 1)) == Err(Overflow)
  {
  }

  /** 5 % 3 is 2 (Decimal.cs 649). */
  lemma RemainderSmall()
    ensures Remainder(Decimal(false, 0, 5), Decimal(false, 0, 3)) == Ok(Decimal(false, 0, 2))
  {
  }

  /** 8.55 % 2.25 is 1.80 (Decimal.cs 664). */
  lemma RemainderScaled()
    ensures Remainder(Decimal(false, 2, 855), Decimal(false, 2, 225)) == Ok(Decimal(false, 2, 180))
  {
  }

  /** 10 / -2 is -5 (Decimal.cs 235). */
  lemma DivideSigns()
    ensures Divide(Decimal(false, 0, 10), Decimal(true, 0, 2)).Ok?
    ensures SameValue(Divide(Decimal(false, 0, 10), Decimal(true, 0, 2)).value, Decimal(true, 0, 5))
  {
    DivideRepresentable(Decimal(false, 0, 10), Decimal(true, 0, 2), Decimal(true, 0, 5));
  }

  /** MaxValue / -1 is MinValue (Decimal.cs 241). */
  lemma DivideMaxByMinusOne()
    ensures Divide(MaxValue, MinusOne).Ok? && SameValue(Divide(MaxValue, MinusOne).value, MinValue)
  {
    DivideRepresentable(MaxValue, MinusOne, MinValue);
  }

  /** MinValue / MaxValue is -1 (Decimal.cs 242). */
  lemma DivideMinByMax()
    ensures Divide(MinValue, MaxValue).Ok? && SameValue(Divide(MinValue, MaxValue).value, MinusOne)
  {
    DivideRepresentable(MinValue, MaxValue, MinusOne);
  }

  /** MaxValue / 10 keeps every digit: 7922816251426433759354395033.5 (Decimal.cs 251). */
  lemma DivideMaxByTen()
    ensures Divide(MaxValue, Decimal(false, 0, 10)).Ok?
    ensures SameValue(Divide(MaxValue, Decimal(false, 0, 10)).value, Decimal(false, 1, MaxMagnitude))
  {
    DivideRepresentable(MaxValue, Decimal(false, 0, 10), Decimal(false, 1, MaxMagnitude));
  }

  /** 0 / 0 and 0.0 / 0.0 raise DivideByZeroException too (Decimal.cs 313-314). */
  lemma DivideZeroByZero()
    ensures Divide(Zero, Zero) == Err(DivideByZero)
    ensures Divide(Decimal(false, 1, 0), Decimal(false, 1, 0)) == Err(DivideByZero)
  {
  }

  /** MaxValue / -0.1 raises OverflowException (Decimal.cs 342). */
  lemma DivideNegativeOverflows()
    ensures Divide(MaxValue, Decimal(true, 1, 1)) == Err(Overflow)
  {
  }

  /** 7922816251426433759354395034 / 0.1 is just past MaxValue (Decimal.cs 319). */
  lemma DivideJustOverflows()
    ensures Divide(Decimal(false, 0, 7922816251426433759354395034), Decimal(false, 1, 1)) == Err(Overflow)
  {
  }

  /** The remainder takes the dividend's sign: 5 % -3 is 2 and -5 % 3 is -2 (Decimal.cs 650-651). */
  lemma RemainderSigns()
    ensures Remainder(Decimal(false, 0, 5), Decimal(true, 0, 3)) == Ok(Decimal(false, 0, 2))
    ensures Remainder(Decimal(true, 0, 5), Decimal(false, 0, 3)) == Ok(Decimal(true, 0, 2))
  {
  }

  /** -2.0 % 0.5 is a negative zero (Decimal.cs 659). */
  lemma RemainderNegativeZero()
    ensures Remainder(Decimal(true, 1, 20), Decimal(false, 1, 5)) == Ok(Decimal(true, 1, 0))
  {
  }

  /** 2.3 % 0.531 is 0.176 (Decimal.cs 660). */
  lemma RemainderFraction()
    ensures Remainder(Decimal(false, 1, 23), Decimal(false, 3, 531)) == Ok(Decimal(false, 3, 176))
  {
  }

  /** 3242 % 0.00123 is 0.00044 (Decimal.cs 662). */
  lemma RemainderByFraction()
    ensures Remainder(Decimal(false, 0, 3242), Decimal(false, 5, 123)) == Ok(Decimal(false, 5, 44))
  {
  }

  /** MaxValue % 2394713 is 1494647 and MaxValue % -32768 is 32767 (Decimal.cs 672-673). */
  lemma RemainderOfMax()
    ensures Remainder(MaxValue, Decimal(false, 0, 2394713)) == Ok(Decimal(false, 0, 1494647))
    ensures Remainder(MaxValue, Decimal(true, 0, 32768)) == Ok(Decimal(false, 0, 32767))
  {
  }

  /** MinValue % 1 is a negative zero (Decimal.cs 681). */
  lemma RemainderOfMin()
    ensures Remainder(MinValue, One) == Ok(Decimal(true, 0, 0))
  {
  }

  /** 5 % 0 raises DivideByZeroException and MaxValue % 0.1 raises OverflowException (Decimal.cs 713-714). */
  lemma RemainderRejects()
    ensures Remainder(Decimal(false, 0, 5), Zero) == Err(DivideByZero)
    ensures Remainder(MaxValue, Decimal(false, 1, 1)) == Err(Overflow)
  {
  }
}
