// System.Decimal (Decimal.cs): a sign, a scale from 0 to 28 and a 96-bit
// magnitude; the value is (-1)^sign * magnitude / 10^scale. The same value
// has several encodings (1, 1.0, 1.00), so equality and order are numeric.
// Every value is compared at a common scale s through Aligned(d, s), its
// value counted in units of 10^-s.
module Decimals {
  import opened Wrappers
  import opened Digits
  import opened Integers
  import opened Comparers

  const MaxScale: nat := 28
  /** 2^96 - 1, the largest magnitude: decimal.MaxValue is 79228162514264337593543950335. */
  const MaxMagnitude: nat := 0xFFFF_FFFF_FFFF_FFFF_FFFF_FFFF
  /** 2^32, the weight of one 32-bit word of the magnitude. */
  const Word: nat := 0x1_0000_0000

  datatype Decimal = Decimal(negative: bool, scale: nat, magnitude: nat)

  predicate Valid(d: Decimal) {
    d.scale <= MaxScale && d.magnitude <= MaxMagnitude
  }

  const Zero := Decimal(false, 0, 0)
  const One := Decimal(false, 0, 1)
  const MinusOne := Decimal(true, 0, 1)
  const MaxValue := Decimal(false, 0, MaxMagnitude)
  const MinValue := Decimal(true, 0, MaxMagnitude)

  /** The magnitude with its sign: the value is Signed(d) / 10^scale. */
  function Signed(d: Decimal): int {
    if d.negative then -(d.magnitude as int) else d.magnitude
  }

  /** The value of d in units of 10^-s, for any s at least d's scale. */
  function Aligned(d: Decimal, s: nat): int
    requires s >= d.scale
  {
    Signed(d) * Pow10(s - d.scale)
  }

  function Max(a: nat, b: nat): nat { if a >= b then a else b }

  /** Two decimals are numerically equal when they agree at their common scale. */
  predicate SameValue(d: Decimal, e: Decimal) {
    var s := Max(d.scale, e.scale);
    Aligned(d, s) == Aligned(e, s)
  }

  lemma {:induction false} Pow10Add(m: nat, n: nat)
    ensures Pow10(m + n) == Pow10(m) * Pow10(n)
    decreases n
  {
    if n > 0 {
      Pow10Add(m, n - 1);
    }
  }

  /** Counting in a unit 10^t times finer multiplies the count by 10^t. */
  lemma AlignedFiner(d: Decimal, s: nat, t: nat)
    requires s >= d.scale
    ensures Aligned(d, s + t) == Aligned(d, s) * Pow10(t)
  {
    Pow10Add(s - d.scale, t);
    assert s + t - d.scale == (s - d.scale) + t;
    MulAssociates(Signed(d), Pow10(s - d.scale), Pow10(t));
  }

  lemma MulAssociates(x: int, p: int, q: int)
    ensures x * (p * q) == (x * p) * q
  {
  }

  /** Multiplying by a positive factor keeps order and equality. */
  lemma ScaleKeepsOrder(x: int, y: int, p: int)
    requires p > 0
    ensures x < y <==> x * p < y * p
    ensures x == y <==> x * p == y * p
  {
    if x < y {
      assert y * p - x * p == (y - x) * p;
    } else if y < x {
      assert x * p - y * p == (x - y) * p;
    }
  }

  /** Agreement and order at one common scale carry over to every finer one. */
  lemma AlignedOrder(d: Decimal, e: Decimal, s: nat, t: nat)
    requires s >= d.scale && s >= e.scale && t >= s
    ensures Aligned(d, s) < Aligned(e, s) <==> Aligned(d, t) < Aligned(e, t)
    ensures Aligned(d, s) == Aligned(e, s) <==> Aligned(d, t) == Aligned(e, t)
  {
    AlignedFiner(d, s, t - s);
    AlignedFiner(e, s, t - s);
    ScaleKeepsOrder(Aligned(d, s), Aligned(e, s), Pow10(t - s));
  }

  // ---------------------------------------------------------------------
  // Construction and the four-word encoding (Decimal.cs 26-76, 780-809)

  /** new decimal(int), (long), (uint), (ulong): the integer itself at scale 0. */
  function FromInteger(v: int): (d: Decimal)
    requires Abs(v) < Word * Word
    ensures Valid(d) && d.scale == 0 && Signed(d) == v
  {
    Decimal(v < 0, 0, Abs(v))
  }

  /** The 96-bit magnitude whose 32-bit words are the bit patterns of lo, mid and hi. */
  function Magnitude(lo: int, mid: int, hi: int): (m: nat)
    requires IsInt32(lo) && IsInt32(mid) && IsInt32(hi)
    ensures m <= MaxMagnitude
  {
    Unsigned(Int32, lo) + Unsigned(Int32, mid) * Word + Unsigned(Int32, hi) * (Word * Word)
  }

  /**
   * new decimal(lo, mid, hi, isNegative, scale): the words make up the
   * magnitude; a scale beyond 28 raises ArgumentOutOfRangeException.
   */
  function FromParts(lo: int, mid: int, hi: int, isNegative: bool, scale: nat): (r: Result<Decimal>)
    requires IsInt32(lo) && IsInt32(mid) && IsInt32(hi) && scale < 0x100
    ensures r.Ok? <==> scale <= MaxScale
    ensures r.Err? ==> r.error == ArgumentOutOfRange
    ensures r.Ok? ==> Valid(r.value) && r.value.scale == scale && r.value.negative == isNegative
    ensures r.Ok? ==> r.value.magnitude == Magnitude(lo, mid, hi)
  {
    if scale > MaxScale then Err(ArgumentOutOfRange)
    else Ok(Decimal(isNegative, scale, Magnitude(lo, mid, hi)))
  }

  /**
   * The flags word: bit 31 is the sign, bits 16-23 the scale, which is at
   * most 28, and every other bit is zero.
   */
  predicate FlagsValid(flags: int) {
    var u := Unsigned(Int32, flags);
    u % 0x1_0000 == 0 && (u / 0x1_0000) % 0x8000 <= MaxScale
  }

  predicate AllInt32(bits: seq<int>) {
    forall k :: 0 <= k < |bits| ==> IsInt32(bits[k])
  }

  /**
   * new decimal(int[] bits): a null array raises ArgumentNullException; an
   * array that is not four words long, or whose flags word is malformed,
   * raises ArgumentException.
   */
  function FromBits(bits: Option<seq<int>>): (r: Result<Decimal>)
    requires bits.Some? ==> AllInt32(bits.value)
    ensures bits.None? ==> r == Err(ArgumentNull)
    ensures bits.Some? ==> (r.Ok? <==> |bits.value| == 4 && FlagsValid(bits.value[3]))
    ensures bits.Some? && r.Err? ==> r.error == Argument
    ensures r.Ok? ==> Valid(r.value)
  {
    match bits
    case None => Err(ArgumentNull)
    case Some(b) =>
      if |b| != 4 || !FlagsValid(b[3]) then Err(Argument)
      else
        var u := Unsigned(Int32, b[3]);
        Ok(Decimal(u >= 0x8000_0000, (u / 0x1_0000) % 0x8000, Magnitude(b[0], b[1], b[2])))
  }

  /** The flags word of d: the sign in bit 31, the scale in bits 16-23. */
  function Flags(d: Decimal): (f: int)
    requires Valid(d)
    ensures IsInt32(f)
  {
    Wrap(Int32, (if d.negative then 0x8000_0000 else 0) + d.scale * 0x1_0000)
  }

  /** decimal.GetBits: the low, middle and high words of the magnitude, then the flags. */
  function GetBits(d: Decimal): (bits: seq<int>)
    requires Valid(d)
    ensures |bits| == 4 && AllInt32(bits)
  {
    [Wrap(Int32, d.magnitude % Word), Wrap(Int32, d.magnitude / Word % Word),
     Wrap(Int32, d.magnitude / Word / Word), Flags(d)]
  }

  /** The bit pattern of a word read back as a signed int is the word itself. */
  lemma UnsignedWrap(x: int)
    requires 0 <= x < Word
    ensures Unsigned(Int32, Wrap(Int32, x)) == x
  {
    var r := Wrap(Int32, x);
    if x <= Int32Max {
      assert r == x;
    } else {
      assert r == x - Word;
    }
  }

  lemma WordsOfMagnitude(m: nat)
    requires m <= MaxMagnitude
    ensures m / Word / Word < Word
    ensures m == m % Word + m / Word % Word * Word + m / Word / Word * (Word * Word)
  {
    var q := m / Word;
    assert m == m % Word + q * Word;
    assert q == q % Word + q / Word * Word;
  }

  /** What the flags word says: the sign, the scale and nothing else. */
  lemma FlagsFields(d: Decimal)
    requires Valid(d)
    ensures FlagsValid(Flags(d))
    ensures Flags(d) < 0 <==> d.negative
    ensures Unsigned(Int32, Flags(d)) >= 0x8000_0000 <==> d.negative
    ensures (Unsigned(Int32, Flags(d)) / 0x1_0000) % 0x8000 == d.scale
    ensures (Flags(d) / 0x1_0000) % 0x80 == d.scale
  {
    var x := (if d.negative then 0x8000_0000 else 0) + d.scale * 0x1_0000;
    var f := Flags(d);
    UnsignedWrap(x);
    assert f == if d.negative then x - Word else x;
    FlagsWord(d.negative, d.scale, x, f);
  }

  /** The arithmetic of the flags word, its unsigned pattern x and its signed value f. */
  lemma FlagsWord(negative: bool, s: nat, x: int, f: int)
    requires s <= MaxScale && x == (if negative then 0x8000_0000 else 0) + s * 0x1_0000
    requires f == if negative then x - Word else x
    ensures x % 0x1_0000 == 0 && (x / 0x1_0000) % 0x8000 == s
    ensures f < 0 <==> negative
    ensures x >= 0x8000_0000 <==> negative
    ensures (f / 0x1_0000) % 0x80 == s
  {
    var h := if negative then 0x8000 else 0;
    assert x == (h + s) * 0x1_0000;
    DivModUnique(x, 0x1_0000, h + s, 0);
    DivModUnique(h + s, 0x8000, if negative then 1 else 0, s);
    var g := if negative then s - 0x8000 else s;
    assert f == g * 0x1_0000;
    DivModUnique(f, 0x1_0000, g, 0);
    DivModUnique(g, 0x80, if negative then -0x100 else 0, s);
  }

  /** Rebuilding a decimal from GetBits gives it back (Decimal.cs 780-809). */
  lemma GetBitsRoundTrip(d: Decimal)
    requires Valid(d)
    ensures FromBits(Some(GetBits(d))) == Ok(d)
  {
    var b := GetBits(d);
    var m := d.magnitude;
    WordsOfMagnitude(m);
    UnsignedWrap(m % Word);
    UnsignedWrap(m / Word % Word);
    UnsignedWrap(m / Word / Word);
    assert Magnitude(b[0], b[1], b[2]) == m;
    FlagsFields(d);
  }

  /**
   * The test's own decoding of GetBits (Decimal.cs 802-806): the sign is
   * bit 31 of the flags, the scale `(flags >> 16) & 0x7F`; the five-part
   * constructor then rebuilds the same decimal.
   */
  lemma GetBitsPartsRoundTrip(d: Decimal)
    requires Valid(d)
    ensures var b := GetBits(d);
      FromParts(b[0], b[1], b[2], b[3] < 0, (b[3] / 0x1_0000) % 0x80) == Ok(d)
  {
    var b := GetBits(d);
    var m := d.magnitude;
    WordsOfMagnitude(m);
    UnsignedWrap(m % Word);
    UnsignedWrap(m / Word % Word);
    UnsignedWrap(m / Word / Word);
    assert Magnitude(b[0], b[1], b[2]) == m;
    FlagsFields(d);
  }

  /** Only GetBits(d) decodes to d: the encoding is one-to-one on well-formed words. */
  lemma FromBitsInverse(bits: seq<int>, d: Decimal)
    requires AllInt32(bits)
    requires FromBits(Some(bits)) == Ok(d)
    ensures GetBits(d) == bits
  {
    var lo, mid, hi := Unsigned(Int32, bits[0]), Unsigned(Int32, bits[1]), Unsigned(Int32, bits[2]);
    WordsRecovered(lo, mid, hi, d.magnitude);
    WrapUnsigned(Int32, bits[0]);
    WrapUnsigned(Int32, bits[1]);
    WrapUnsigned(Int32, bits[2]);
    FlagsRecovered(bits[3], d);
  }

  lemma WordsRecovered(lo: nat, mid: nat, hi: nat, m: nat)
    requires lo < Word && mid < Word
    requires m == lo + mid * Word + hi * (Word * Word)
    ensures m % Word == lo && m / Word % Word == mid && m / Word / Word == hi
  {
    assert m == lo + (mid + hi * Word) * Word;
    assert m / Word == mid + hi * Word;
  }

  lemma FlagsRecovered(f: int, d: Decimal)
    requires IsInt32(f) && FlagsValid(f) && Valid(d)
    requires d.negative == (Unsigned(Int32, f) >= 0x8000_0000)
    requires d.scale == (Unsigned(Int32, f) / 0x1_0000) % 0x8000
    ensures Flags(d) == f
  {
    var u := Unsigned(Int32, f);
    assert u == (if d.negative then 0x8000_0000 else 0) + d.scale * 0x1_0000;
    WrapUnsigned(Int32, f);
  }

  // ---------------------------------------------------------------------
  // Equality, order and hashing (Decimal.cs 78-170)

  /**
   * decimal.Compare and CompareTo(decimal): -1, 0 or 1 by numeric order;
   * the encodings' scales do not matter.
   */
  function Compare(d: Decimal, e: Decimal): (c: int)
    ensures -1 <= c <= 1
    ensures c == 0 <==> SameValue(d, e)
  {
    var s := Max(d.scale, e.scale);
    var x, y := Aligned(d, s), Aligned(e, s);
    if x < y then -1 else if x == y then 0 else 1
  }

  /** The order Compare gives is the order of the values at any common scale. */
  lemma CompareAtAnyScale(d: Decimal, e: Decimal, t: nat)
    requires t >= d.scale && t >= e.scale
    ensures Compare(d, e) < 0 <==> Aligned(d, t) < Aligned(e, t)
    ensures Compare(d, e) == 0 <==> Aligned(d, t) == Aligned(e, t)
    ensures Compare(d, e) > 0 <==> Aligned(d, t) > Aligned(e, t)
  {
    AlignedOrder(d, e, Max(d.scale, e.scale), t);
  }

  /** Compare is a total order: reflexive, antisymmetric and transitive. */
  lemma CompareIsComparer()
    ensures IsComparer(Compare)
  {
    forall x, y, z | Compare(x, y) <= 0 && Compare(y, z) <= 0
      ensures Compare(x, z) <= 0
    {
      var t := Max(Max(x.scale, y.scale), z.scale);
      CompareAtAnyScale(x, y, t);
      CompareAtAnyScale(y, z, t);
      CompareAtAnyScale(x, z, t);
    }
  }

  /** decimal.Equals(d1, d2), d1 == d2: numeric equality. */
  function Equals(d: Decimal, e: Decimal): (r: bool)
    ensures r <==> Compare(d, e) == 0
  {
    SameValue(d, e)
  }

  /** The objects the object overloads of Equals and CompareTo may receive. */
  datatype Object = NullObject | BoxedDecimal(value: Decimal) | BoxedInteger(kind: IntegerType, n: int) | BoxedText(text: string)

  /** Equals(object): only a boxed decimal of the same value is equal; the int 1 is not 1m. */
  function EqualsObject(d: Decimal, o: Object): (r: bool)
    ensures r <==> o.BoxedDecimal? && Compare(d, o.value) == 0
  {
    o.BoxedDecimal? && Equals(d, o.value)
  }

  /**
   * IComparable.CompareTo(object): null sorts below every decimal; a boxed
   * integer or string raises ArgumentException (Decimal.cs 164-170).
   */
  function CompareTo(d: Decimal, o: Object): (r: Result<int>)
    ensures r.Ok? <==> o.NullObject? || o.BoxedDecimal?
    ensures r.Err? ==> r.error == Argument
    ensures o.NullObject? ==> r == Ok(1)
    ensures o.BoxedDecimal? ==> r == Ok(Compare(d, o.value))
  {
    match o
    case NullObject => Ok(1)
    case BoxedDecimal(e) => Ok(Compare(d, e))
    case _ => Err(Argument)
  }

  /** Negate: the sign flips, the encoding is otherwise kept. */
  function Negate(d: Decimal): (r: Decimal)
    ensures Signed(r) == -Signed(d) && r.scale == d.scale
    ensures Valid(d) ==> Valid(r)
  {
    Decimal(!d.negative, d.scale, d.magnitude)
  }

  /** Negation reverses the order and undoes itself; it swaps MaxValue and MinValue. */
  lemma NegateReverses(d: Decimal, e: Decimal)
    ensures Compare(Negate(d), Negate(e)) == Compare(e, d)
    ensures Negate(Negate(d)) == d
    ensures Negate(MaxValue) == MinValue && Negate(MinValue) == MaxValue
  {
    var s := Max(d.scale, e.scale);
    assert Aligned(Negate(d), s) == -Aligned(d, s);
    assert Aligned(Negate(e), s) == -Aligned(e, s);
  }

  /** The quotient of x by a positive p is pinned down by its bracket. */
  lemma QuotientUnique(x: int, p: int, q1: int, q2: int)
    requires p > 0
    requires q1 * p <= x < (q1 + 1) * p
    requires q2 * p <= x < (q2 + 1) * p
    ensures q1 == q2
  {
    if q1 < q2 {
      MulMonotone(q1 + 1, q2, p);
    } else if q2 < q1 {
      MulMonotone(q2 + 1, q1, p);
    }
  }

  lemma MulMonotone(a: int, b: int, p: int)
    requires a <= b && p >= 0
    ensures a * p <= b * p
  {
    assert b * p - a * p == (b - a) * p;
  }

  /** decimal.Truncate: the whole part, rounding toward zero (Decimal.cs 765-778). */
  function Truncate(d: Decimal): (r: Decimal)
    ensures r.scale == 0 && r.negative == d.negative
    ensures r.magnitude * Pow10(d.scale) <= d.magnitude < (r.magnitude + 1) * Pow10(d.scale)
    ensures Valid(d) ==> Valid(r)
  {
    DivBounds(d.magnitude, Pow10(d.scale));
    Decimal(d.negative, 0, d.magnitude / Pow10(d.scale))
  }

  /** decimal.Floor: the greatest whole number not above d (Decimal.cs 354-367). */
  function Floor(d: Decimal): (r: Decimal)
    requires Valid(d)
    ensures Valid(r) && r.scale == 0
    ensures Aligned(r, d.scale) <= Signed(d) < Aligned(r, d.scale) + Pow10(d.scale)
  {
    var r := FloorOf(d.magnitude, Pow10(d.scale), d.negative);
    FloorAligned(d, r);
    r
  }

  /** The floor of the count m in units of p, with its sign. */
  function FloorOf(m: nat, p: nat, negative: bool): Decimal
    requires p >= 1
  {
    if negative && m % p != 0 then Decimal(true, 0, m / p + 1) else Decimal(negative, 0, m / p)
  }

  /** Floor's contract, from the bracket at d's own scale. */
  lemma FloorAligned(d: Decimal, r: Decimal)
    requires Valid(d) && r == FloorOf(d.magnitude, Pow10(d.scale), d.negative)
    ensures Valid(r) && r.scale == 0
    ensures Aligned(r, d.scale) <= Signed(d) < Aligned(r, d.scale) + Pow10(d.scale)
  {
    FloorBracket(d.magnitude, Pow10(d.scale), d.negative, r);
    assert Aligned(r, d.scale) == Signed(r) * Pow10(d.scale);
  }

  /** The bracket of the floor, in terms of quotient and remainder. */
  lemma FloorBracket(m: nat, p: nat, negative: bool, r: Decimal)
    requires m <= MaxMagnitude && p >= 1
    requires r == FloorOf(m, p, negative)
    ensures r.magnitude <= MaxMagnitude
    ensures var v := if negative then -(m as int) else m;
      Signed(r) * p <= v < Signed(r) * p + p
  {
    var q, k := m / p, m % p;
    assert m == q * p + k && 0 <= k < p;
    assert (q + 1) * p == q * p + p;
    if k != 0 {
      MulMonotone(2, p, q);
    }
    if negative {
      assert -q * p == -(q * p);
      assert -(q + 1) * p == -(q * p) - p;
    }
  }

  /** decimal.Ceiling: the least whole number not below d (Decimal.cs 213-226). */
  function Ceiling(d: Decimal): (r: Decimal)
    requires Valid(d)
    ensures Valid(r) && r.scale == 0
    ensures Aligned(r, d.scale) - Pow10(d.scale) < Signed(d) <= Aligned(r, d.scale)
  {
    var r := CeilingOf(d.magnitude, Pow10(d.scale), d.negative);
    CeilingAligned(d, r);
    r
  }

  /** The ceiling of the count m in units of p, with its sign. */
  function CeilingOf(m: nat, p: nat, negative: bool): Decimal
    requires p >= 1
  {
    if !negative && m % p != 0 then Decimal(false, 0, m / p + 1) else Decimal(negative, 0, m / p)
  }

  /** Ceiling's contract, from the bracket at d's own scale. */
  lemma CeilingAligned(d: Decimal, r: Decimal)
    requires Valid(d) && r == CeilingOf(d.magnitude, Pow10(d.scale), d.negative)
    ensures Valid(r) && r.scale == 0
    ensures Aligned(r, d.scale) - Pow10(d.scale) < Signed(d) <= Aligned(r, d.scale)
  {
    CeilingBracket(d.magnitude, Pow10(d.scale), d.negative, r);
    assert Aligned(r, d.scale) == Signed(r) * Pow10(d.scale);
  }

  /** The ceiling's bracket is the floor's bracket of the negated value. */
  lemma CeilingBracket(m: nat, p: nat, negative: bool, r: Decimal)
    requires m <= MaxMagnitude && p >= 1
    requires r == CeilingOf(m, p, negative)
    ensures r.magnitude <= MaxMagnitude
    ensures var v := if negative then -(m as int) else m;
      Signed(r) * p - p < v <= Signed(r) * p
  {
    FloorBracket(m, p, !negative, Negate(r));
    assert Signed(Negate(r)) * p == -(Signed(r) * p);
  }

  /**
   * The three roundings coincide on whole numbers; otherwise Truncate is
   * Floor for d >= 0 and Ceiling for d < 0.
   */
  lemma RoundingsAgree(d: Decimal)
    requires Valid(d)
    ensures !d.negative ==> Floor(d) == Truncate(d)
    ensures d.negative ==> Ceiling(d) == Truncate(d)
    ensures d.magnitude % Pow10(d.scale) == 0 ==> Floor(d) == Truncate(d) == Ceiling(d)
  {
  }

  /**
   * GetHashCode. The runtime hashes through the double value; this
   * stand-in takes the low 32 bits of the whole part instead. Like any hash
   * of the value alone it keeps the promise that equal decimals hash alike,
   * and it keeps the inequalities the tests assert.
   */
  function HashCode(d: Decimal): (h: int)
    ensures IsInt32(h)
  {
    Wrap(Int32, Signed(Truncate(d)))
  }

  /** Equal decimals, however encoded, have equal hash codes (Decimal.cs 104). */
  lemma HashCodeRespectsEquality(d: Decimal, e: Decimal)
    requires Equals(d, e)
    ensures HashCode(d) == HashCode(e)
  {
    var s := Max(d.scale, e.scale);
    assert Aligned(d, s) == Aligned(e, s);
    AlignedMagnitude(d, s);
    AlignedMagnitude(e, s);
    TruncateAtScale(d, s);
    TruncateAtScale(e, s);
    EqualTruncations(Aligned(d, s), d.magnitude * Pow10(s - d.scale), e.magnitude * Pow10(s - e.scale), Pow10(s),
      Truncate(d).magnitude, Truncate(e).magnitude, d.negative, e.negative);
    assert Signed(Truncate(d)) == Signed(Truncate(e));
  }

  /**
   * Two counts of the same signed value x give the same whole part, and a
   * nonzero whole part the same sign.
   */
  lemma EqualTruncations(x: int, md: nat, me: nat, p: nat, qd: nat, qe: nat, nd: bool, ne: bool)
    requires p > 0 && md == Abs(x) && me == Abs(x)
    requires qd * p <= md < (qd + 1) * p && qe * p <= me < (qe + 1) * p
    requires (x < 0 <==> nd && md != 0) && (x < 0 <==> ne && me != 0)
    ensures qd == qe && (qd != 0 ==> nd == ne)
  {
    QuotientUnique(md, p, qd, qe);
    if qd != 0 {
      MulMonotone(1, qd, p);
    }
  }

  /** |d| counted in units of 10^-s. */
  function Units(d: Decimal, s: nat): (u: nat)
    requires s >= d.scale
    ensures u == Abs(Aligned(d, s))
    ensures d.magnitude != 0 ==> u >= 1
    ensures s == d.scale ==> u == d.magnitude
  {
    AlignedMagnitude(d, s);
    MulMonotone(1, Pow10(s - d.scale), d.magnitude);
    d.magnitude * Pow10(s - d.scale)
  }

  /** Counted at any scale, d keeps its magnitude's size and its sign. */
  lemma AlignedMagnitude(d: Decimal, s: nat)
    requires s >= d.scale
    ensures Abs(Aligned(d, s)) == d.magnitude * Pow10(s - d.scale)
    ensures Aligned(d, s) < 0 <==> d.negative && d.magnitude != 0
  {
    var f := Pow10(s - d.scale);
    if d.negative {
      assert Aligned(d, s) == -(d.magnitude * f);
    }
    if d.magnitude != 0 {
      MulMonotone(1, d.magnitude, f);
    }
  }

  /** The whole part brackets the magnitude counted at any finer scale too. */
  lemma TruncateAtScale(d: Decimal, s: nat)
    requires s >= d.scale
    ensures var q := Truncate(d).magnitude;
      q * Pow10(s) <= d.magnitude * Pow10(s - d.scale) < (q + 1) * Pow10(s)
  {
    var p, f := Pow10(d.scale), Pow10(s - d.scale);
    Pow10Add(d.scale, s - d.scale);
    assert d.scale + (s - d.scale) == s;
    BracketScales(Truncate(d).magnitude, p, d.magnitude, f);
  }

  lemma BracketScales(q: nat, p: nat, m: nat, f: nat)
    requires f > 0 && q * p <= m < (q + 1) * p
    ensures q * (p * f) <= m * f < (q + 1) * (p * f)
  {
    MulMonotone(q * p, m, f);
    ScaleKeepsOrder(m, (q + 1) * p, f);
    MulAssociates(q, p, f);
    MulAssociates(q + 1, p, f);
  }

  /**
   * decimal.ToSByte through ToUInt64: the value truncated toward zero,
   * or OverflowException when that whole number is outside the target
   * type (Decimal.cs 850-968).
   */
  function ToInteger(t: IntegerType, d: Decimal): (r: Result<int>)
    requires Valid(d)
    ensures r.Ok? <==> t.Contains(TruncDiv(Signed(d), Pow10(d.scale)))
    ensures r.Ok? ==> r.value == TruncDiv(Signed(d), Pow10(d.scale))
    ensures r.Err? ==> r.error == Overflow
  {
    var v := Signed(Truncate(d));
    assert v == TruncDiv(Signed(d), Pow10(d.scale));
    if t.Contains(v) then Ok(v) else Err(Overflow)
  }

  // ---------------------------------------------------------------------
  // Rounding to 96 bits (Decimal.cs 172-211, 399-462)

  /** n / p rounded to the nearest whole number, ties to the even one (banker's rounding). */
  function RoundHalfEven(n: nat, p: nat): (q: nat)
    requires p >= 1
    ensures 2 * Abs(n - q * p) <= p
    ensures 2 * Abs(n - q * p) == p ==> q % 2 == 0
  {
    var r := if 2 * (n % p) > p || (2 * (n % p) == p && n / p % 2 == 1) then n / p + 1 else n / p;
    RoundPicked(n, p, r);
    r
  }

  /** The whole number the rounding picks is within half of p of n, and even at a tie. */
  lemma RoundPicked(n: nat, p: nat, r: nat)
    requires p >= 1
    requires r == if 2 * (n % p) > p || (2 * (n % p) == p && n / p % 2 == 1) then n / p + 1 else n / p
    ensures 2 * Abs(n - r * p) <= p
    ensures 2 * Abs(n - r * p) == p ==> r % 2 == 0
  {
    RoundCandidates(n, p);
    RoundChoice(n, p, n / p, n % p, r);
  }

  lemma RoundChoice(n: nat, p: nat, q: nat, k: nat, r: nat)
    requires 0 <= k < p && n - q * p == k && n - (q + 1) * p == k - p
    requires r == if 2 * k > p || (2 * k == p && q % 2 == 1) then q + 1 else q
    ensures 2 * Abs(n - r * p) <= p
    ensures 2 * Abs(n - r * p) == p ==> r % 2 == 0
  {
  }

  /** The two whole numbers next to n / p, and how far n is from each. */
  lemma RoundCandidates(n: nat, p: nat)
    requires p >= 1
    ensures var q, k := n / p, n % p;
      0 <= k < p && n - q * p == k && n - (q + 1) * p == k - p
  {
    var q, k := n / p, n % p;
    assert n == q * p + k;
    assert (q + 1) * p == q * p + p;
  }

  /** Nearest with ties to even leaves no choice: RoundHalfEven is the only such rounding. */
  lemma RoundHalfEvenUnique(n: nat, p: nat, q: nat)
    requires p >= 1
    requires 2 * Abs(n - q * p) <= p
    requires 2 * Abs(n - q * p) == p ==> q % 2 == 0
    ensures q == RoundHalfEven(n, p)
  {
    var r := RoundHalfEven(n, p);
    if q < r {
      NearestApart(n, p, q, r);
    } else if r < q {
      NearestApart(n, p, r, q);
    }
  }

  /** Two whole numbers both within half a step of n / p are the two ends of a tie. */
  lemma NearestApart(n: nat, p: nat, a: nat, b: nat)
    requires p >= 1 && a < b
    requires 2 * Abs(n - a * p) <= p && 2 * Abs(n - b * p) <= p
    ensures b == a + 1 && 2 * Abs(n - a * p) == p && 2 * Abs(n - b * p) == p
  {
    MulMonotoneBy(a, 1, b, p);
    if b > a + 1 {
      MulMonotoneBy(a, 2, b, p);
    }
  }

  lemma MulMonotoneBy(a: int, k: nat, b: int, p: nat)
    requires a + k <= b
    ensures a * p + k * p <= b * p
  {
    assert b * p - a * p - k * p == (b - a - k) * p;
  }

  /** A whole number that is an exact quotient is its own rounding. */
  lemma RoundExact(x: nat, p: nat)
    requires p >= 1
    ensures RoundHalfEven(x * p, p) == x
  {
    RoundHalfEvenUnique(x * p, p, x);
  }

  /**
   * If the rounding of m / (p * f) is past `bound`, so is the rounding of
   * m / p whenever f >= 2: a finer step only makes the count larger.
   */
  lemma CoarserPastBound(m: nat, p: nat, f: nat, bound: nat)
    requires p >= 1 && f >= 2
    requires RoundHalfEven(m, p * f) > bound
    ensures RoundHalfEven(m, p) > bound
  {
    RoundNear(m, p * f);
    RoundNear(m, p);
    CoarserCore(m, p, f, RoundHalfEven(m, p * f), RoundHalfEven(m, p), bound);
  }

  lemma RoundedNear(n: nat, p: nat, q: nat)
    requires p >= 1 && q == RoundHalfEven(n, p)
    ensures 2 * Abs(n - q * p) <= p
  {
  }

  /** The rounded quotient, as bounds on twice the dividend. */
  lemma RoundNear(n: nat, p: nat)
    requires p >= 1
    ensures 2 * (RoundHalfEven(n, p) * p) - p <= 2 * n <= 2 * (RoundHalfEven(n, p) * p) + p
  {
    NearBounds(n, p, RoundHalfEven(n, p));
  }

  lemma CoarserCore(m: nat, p: nat, f: nat, a: nat, b: nat, bound: nat)
    requires p >= 1 && f >= 2 && a >= bound + 1
    requires 2 * (a * (p * f)) - p * f <= 2 * m
    requires 2 * m - p <= 2 * (b * p)
    ensures b > bound
  {
    Shrink(a, p * f);
    PastBoundArith(m, p, f, a, b, bound);
  }

  lemma Shrink(a: int, q: int)
    ensures (2 * a - 1) * q == 2 * (a * q) - q
  {
  }

  /** Within half a step of n / p, as two linear bounds. */
  lemma NearBounds(n: nat, p: nat, q: nat)
    requires 2 * Abs(n - q * p) <= p
    ensures 2 * (q * p) - p <= 2 * n <= 2 * (q * p) + p
  {
  }

  /** The arithmetic shared by both directions: a count past `bound` stays past it at a step f >= 2 times finer. */
  lemma PastBoundArith(total: int, p: nat, f: nat, a: nat, b: nat, bound: nat)
    requires p >= 1 && f >= 2 && a >= bound + 1
    requires 2 * total >= (2 * a - 1) * (p * f)
    requires 2 * total - p <= 2 * (b * p)
    ensures b > bound
  {
    var q := p * f;
    var c := (2 * bound + 1) * p;
    MulMonotone(2 * bound + 1, 2 * a - 1, q);
    MulAssociates(2 * bound + 1, p, f);
    MulMonotone(2, f, c);
    assert total >= c;
    Spread(bound, p);
    if b <= bound {
      MulMonotone(b, bound, p);
    }
  }

  lemma Spread(bound: nat, p: nat)
    ensures (2 * bound + 1) * p == 2 * (bound * p) + p && bound * p >= 0
  {
  }

  /** The same step made coarser by a power of ten: whole-number overflow reaches every finer scale. */
  lemma CoarserPastMax(m: nat, j: nat, k: nat)
    requires j <= k
    requires RoundHalfEven(m, Pow10(k)) > MaxMagnitude
    ensures RoundHalfEven(m, Pow10(j)) > MaxMagnitude
  {
    if j < k {
      Pow10Add(j, k - j);
      assert j + (k - j) == k;
      assert Pow10(k - j) >= 10 by { Pow10Grows(k - j); }
      CoarserPastBound(m, Pow10(j), Pow10(k - j), MaxMagnitude);
    }
  }

  lemma Pow10Grows(n: nat)
    requires n >= 1
    ensures Pow10(n) >= 10
  {
    if n > 1 {
      Pow10Grows(n - 1);
    }
  }

  /**
   * The magnitude m at scale `scale`, rounded to the finest scale that
   * fits 96 bits, dropping at least k digits: each dropped digit lowers the
   * scale by one; overflow when even the whole number does not fit.
   */
  function Fit(negative: bool, m: nat, scale: nat, k: nat): (r: Result<Decimal>)
    requires scale <= MaxScale + k && k <= scale
    ensures r.Ok? ==> Valid(r.value) && r.value.negative == negative
    ensures r.Ok? ==> k <= scale - r.value.scale <= scale
    ensures r.Ok? ==> r.value.magnitude == RoundHalfEven(m, Pow10(scale - r.value.scale))
    ensures r.Err? ==> r.error == Overflow && RoundHalfEven(m, Pow10(scale)) > MaxMagnitude
    decreases scale - k
  {
    var q := RoundHalfEven(m, Pow10(k));
    if q <= MaxMagnitude then Ok(Decimal(negative, scale - k, q))
    else if k == scale then Err(Overflow)
    else Fit(negative, m, scale, k + 1)
  }

  /** The scale Fit stops at is the finest: dropping fewer digits, but at least k, overflows. */
  lemma {:induction false} FitFinest(negative: bool, m: nat, scale: nat, k: nat, j: nat)
    requires scale <= MaxScale + k && k <= scale
    requires Fit(negative, m, scale, k).Ok? && k <= j < scale - Fit(negative, m, scale, k).value.scale
    ensures RoundHalfEven(m, Pow10(j)) > MaxMagnitude
    decreases scale - k
  {
    if j > k {
      FitFinest(negative, m, scale, k + 1, j);
    }
  }

  /** Dropping j digits from m, for every j in [lo, hi), leaves a rounded count past 96 bits. */
  ghost predicate FinerOverflow(m: nat, lo: nat, hi: nat) {
    forall j :: lo <= j < hi ==> RoundHalfEven(m, Pow10(j)) > MaxMagnitude
  }

  /** FitFinest for every scale at once. */
  lemma FitFinestAll(negative: bool, m: nat, scale: nat, k: nat)
    requires scale <= MaxScale + k && k <= scale
    ensures Fit(negative, m, scale, k).Ok? ==> FinerOverflow(m, k, scale - Fit(negative, m, scale, k).value.scale)
  {
    var r := Fit(negative, m, scale, k);
    if r.Ok? {
      forall j | k <= j < scale - r.value.scale ensures RoundHalfEven(m, Pow10(j)) > MaxMagnitude {
        FitFinest(negative, m, scale, k, j);
      }
    }
  }

  /** Fit fails only when the whole number overflows, which rules out every scale. */
  lemma FitOverflow(negative: bool, m: nat, scale: nat, k: nat)
    requires scale <= MaxScale + k && k <= scale
    ensures Fit(negative, m, scale, k).Err? <==> RoundHalfEven(m, Pow10(scale)) > MaxMagnitude
  {
    if RoundHalfEven(m, Pow10(scale)) > MaxMagnitude {
      var r := Fit(negative, m, scale, k);
      if r.Ok? {
        CoarserPastMax(m, scale - r.value.scale, scale);
      }
    }
  }

  /** Fit drops no digit when the magnitude already fits at a valid scale. */
  lemma FitExact(negative: bool, m: nat, scale: nat)
    requires scale <= MaxScale && m <= MaxMagnitude
    ensures Fit(negative, m, scale, 0) == Ok(Decimal(negative, scale, m))
  {
    RoundExact(m, 1);
    assert m * 1 == m;
  }

  /** The rounded count, signed and counted back at the finer scale, is within half a step. */
  lemma RoundedBack(m: nat, p: nat, q: nat, negative: bool, x: int)
    requires 2 * Abs(m - q * p) <= p
    requires x == (if negative then -(m as int) else m)
    ensures 2 * Abs((if negative then -(q as int) else q) * p - x) <= p
  {
    if negative {
      assert (-(q as int)) * p - x == -(q * p - m);
    }
  }


  /**
   * If n / den rounds past `bound`, then so does n * f / den for every
   * f >= 1: counting the quotient in finer units only makes it larger.
   */
  lemma FinerPastBound(n: nat, den: nat, f: nat, bound: nat)
    requires den >= 1 && f >= 1
    requires RoundHalfEven(n, den) > bound
    ensures RoundHalfEven(n * f, den) > bound
  {
    if f >= 2 {
      RoundNear(n, den);
      RoundNear(n * f, den);
      FinerCore(n, den, f, RoundHalfEven(n, den), RoundHalfEven(n * f, den), bound);
    } else {
      assert n * f == n;
    }
  }

  lemma FinerCore(n: nat, den: nat, f: nat, a: nat, b: nat, bound: nat)
    requires den >= 1 && f >= 2 && a >= bound + 1
    requires 2 * (a * den) - den <= 2 * n
    requires 2 * (n * f) - den <= 2 * (b * den)
    ensures b > bound
  {
    MulMonotone(2 * (a * den) - den, 2 * n, f);
    FinerIdentity(n, a, den, f);
    PastBoundArith(n * f, den, f, a, b, bound);
  }

  lemma FinerIdentity(n: int, a: int, den: int, f: int)
    ensures (2 * (a * den) - den) * f == (2 * a - 1) * (den * f)
    ensures (2 * n) * f == 2 * (n * f)
  {
    MulAssociates(a, den, f);
  }

  // ---------------------------------------------------------------------
  // Addition, subtraction and multiplication (Decimal.cs 172-211, 399-462, 724-763)

  /**
   * decimal.Add, d1 + d2: the exact sum at the larger of the two scales;
   * a sum past 96 bits is rounded half-even to the finest scale that fits,
   * and only a sum whose whole number is past 2^96 - 1 raises
   * OverflowException. A zero sum keeps the first operand's sign.
   */
  function Add(d: Decimal, e: Decimal): (r: Result<Decimal>)
    requires Valid(d) && Valid(e)
    ensures RoundedSum(r, Aligned(d, Max(d.scale, e.scale)) + Aligned(e, Max(d.scale, e.scale)), Max(d.scale, e.scale))
  {
    var s := Max(d.scale, e.scale);
    var sum := Aligned(d, s) + Aligned(e, s);
    var negative := if sum != 0 then sum < 0 else d.negative;
    var r := Fit(negative, Abs(sum), s, 0);
    FitSum(negative, sum, s, r);
    r
  }

  /**
   * r is the exact signed count `sum` at scale s, rounded: a valid decimal
   * within half a unit of its last place, whose count is |sum| rounded
   * half-even at the finest scale that fits 96 bits (so a sum that already
   * fits is kept whole), or Overflow exactly when the whole-number sum is
   * past 2^96 - 1.
   */
  ghost predicate RoundedSum(r: Result<Decimal>, sum: int, s: nat) {
    && (r.Ok? ==> Valid(r.value) && r.value.scale <= s && 2 * Abs(Aligned(r.value, s) - sum) <= Pow10(s - r.value.scale))
    && (r.Ok? ==>
          r.value.magnitude == RoundHalfEven(Abs(sum), Pow10(s - r.value.scale)) && FinerOverflow(Abs(sum), 0, s - r.value.scale))
    && (Abs(sum) <= MaxMagnitude ==> r.Ok? && r.value.scale == s && Aligned(r.value, s) == sum)
    && (r.Err? <==> RoundHalfEven(Abs(sum), Pow10(s)) > MaxMagnitude)
    && (r.Err? ==> r.error == Overflow)
  }

  /** What Fit promises about a signed count: rounding within half a step, exactness, overflow. */
  lemma FitSum(negative: bool, sum: int, s: nat, r: Result<Decimal>)
    requires s <= MaxScale
    requires sum != 0 ==> negative == (sum < 0)
    requires r == Fit(negative, Abs(sum), s, 0)
    ensures RoundedSum(r, sum, s)
  {
    FitOverflow(negative, Abs(sum), s, 0);
    FitFinestAll(negative, Abs(sum), s, 0);
    if r.Ok? {
      FitSumRounded(negative, sum, s, r.value);
    }
    if Abs(sum) <= MaxMagnitude {
      FitSumExact(negative, sum, s, r);
    }
  }

  lemma FitSumExact(negative: bool, sum: int, s: nat, r: Result<Decimal>)
    requires s <= MaxScale && Abs(sum) <= MaxMagnitude
    requires sum != 0 ==> negative == (sum < 0)
    requires r == Fit(negative, Abs(sum), s, 0)
    ensures r.Ok? && r.value.scale == s && Aligned(r.value, s) == sum
  {
    FitExact(negative, Abs(sum), s);
    assert Aligned(r.value, s) == Signed(r.value) * 1;
  }

  lemma FitSumRounded(negative: bool, sum: int, s: nat, v: Decimal)
    requires sum != 0 ==> negative == (sum < 0)
    requires v.negative == negative && v.scale <= s
    requires v.magnitude == RoundHalfEven(Abs(sum), Pow10(s - v.scale))
    ensures 2 * Abs(Aligned(v, s) - sum) <= Pow10(s - v.scale)
  {
    var p := Pow10(s - v.scale);
    assert sum == (if negative then -(Abs(sum) as int) else Abs(sum));
    RoundedBack(Abs(sum), p, v.magnitude, negative, sum);
    assert Aligned(v, s) == (if negative then -(v.magnitude as int) else v.magnitude) * p;
  }

  /** decimal.Subtract, d1 - d2: the sum with the negated subtrahend. */
  function Subtract(d: Decimal, e: Decimal): (r: Result<Decimal>)
    requires Valid(d) && Valid(e)
    ensures RoundedSum(r, Aligned(d, Max(d.scale, e.scale)) - Aligned(e, Max(d.scale, e.scale)), Max(d.scale, e.scale))
  {
    var s := Max(d.scale, e.scale);
    var diff := Aligned(d, s) - Aligned(e, s);
    var negative := if diff != 0 then diff < 0 else d.negative;
    var r := Fit(negative, Abs(diff), s, 0);
    FitSum(negative, diff, s, r);
    r
  }

  /** Subtract is Add with the subtrahend's sign flipped. */
  lemma SubtractAddsNegation(d: Decimal, e: Decimal)
    requires Valid(d) && Valid(e)
    ensures Subtract(d, e) == Add(d, Negate(e))
  {
    AlignedNegate(e, Max(d.scale, e.scale));
  }

  lemma AlignedNegate(e: Decimal, s: nat)
    requires s >= e.scale
    ensures Aligned(Negate(e), s) == -Aligned(e, s)
  {
  }

  /** The ++ operator: d + 1. */
  function Increment(d: Decimal): (r: Result<Decimal>)
    requires Valid(d)
    ensures Abs(Signed(d) + Pow10(d.scale)) <= MaxMagnitude ==>
      r.Ok? && r.value.scale == d.scale && Signed(r.value) == Signed(d) + Pow10(d.scale)
  {
    assert Aligned(d, d.scale) == Signed(d) && Aligned(One, d.scale) == Pow10(d.scale);
    Add(d, One)
  }

  /** The -- operator: d - 1. */
  function Decrement(d: Decimal): (r: Result<Decimal>)
    requires Valid(d)
    ensures Abs(Signed(d) - Pow10(d.scale)) <= MaxMagnitude ==>
      r.Ok? && r.value.scale == d.scale && Signed(r.value) == Signed(d) - Pow10(d.scale)
  {
    assert Aligned(d, d.scale) == Signed(d) && Aligned(One, d.scale) == Pow10(d.scale);
    Subtract(d, One)
  }

  /** The fewest digits a product at scale s must drop to reach scale 28. */
  function Dropped(s: nat): (k: nat)
    ensures k <= s && s <= MaxScale + k
    ensures s <= MaxScale ==> k == 0
  {
    if s > MaxScale then s - MaxScale else 0
  }

  /**
   * decimal.Multiply, d1 * d2: the exact product has the sum of the
   * scales; it is rounded half-even to scale 28 or below, to the finest
   * scale that fits 96 bits, and raises OverflowException only when its
   * whole number is past 2^96 - 1.
   */
  function Multiply(d: Decimal, e: Decimal): (r: Result<Decimal>)
    requires Valid(d) && Valid(e)
    ensures ShortProductTooFine(d, e) ==> r == Ok(Decimal(false, 0, 0))
    ensures !ShortProductTooFine(d, e) ==>
      RoundedProduct(r, d.negative != e.negative, d.magnitude * e.magnitude, d.scale + e.scale)
  {
    if ShortProductTooFine(d, e) then Ok(Decimal(false, 0, 0))
    else
      var s, m := d.scale + e.scale, d.magnitude * e.magnitude;
      var r := Fit(d.negative != e.negative, m, s, Dropped(s));
      FitProduct(d.negative != e.negative, m, s, r);
      r
  }

  /**
   * The runtime's shortcut for two counts that each fit 32 bits: when the
   * product's scale is past 28 + 19, the product is returned as a positive
   * zero at scale 0.
   */
  predicate ShortProductTooFine(d: Decimal, e: Decimal) {
    d.magnitude < 0x1_0000_0000 && e.magnitude < 0x1_0000_0000 && d.scale + e.scale > MaxScale + 19
  }

  /**
   * The shortcut agrees in value with the rounding rule: a product of two
   * 32-bit counts is below 2^64, less than half of the 10^20 or more it
   * would be divided by to reach scale 28, so it rounds to zero there too.
   */
  lemma ShortProductVanishes(d: Decimal, e: Decimal)
    requires Valid(d) && Valid(e) && ShortProductTooFine(d, e)
    ensures var s := d.scale + e.scale;
      RoundHalfEven(d.magnitude * e.magnitude, Pow10(s - MaxScale)) == 0
  {
    ShortProductBound(d.magnitude, e.magnitude);
    SmallCountRounds(d.magnitude * e.magnitude, d.scale + e.scale - MaxScale);
  }

  lemma SmallCountRounds(m: nat, k: nat)
    requires m < 0x1_0000_0000_0000_0000 && k >= 20
    ensures RoundHalfEven(m, Pow10(k)) == 0
  {
    Pow10Twenty(k);
    RoundsToZero(m, Pow10(k));
  }

  lemma ShortProductBound(a: nat, b: nat)
    requires a < 0x1_0000_0000 && b < 0x1_0000_0000
    ensures a * b < 0x1_0000_0000_0000_0000
  {
    MulMonotone(a, 0xFFFF_FFFF, b);
    MulMonotone(b, 0xFFFF_FFFF, 0xFFFF_FFFF);
  }

  lemma Pow10Twenty(k: nat)
    requires k >= 20
    ensures Pow10(k) >= 100000000000000000000
  {
    assert Pow10(5) == 100000;
    Pow10Add(5, 5);
    Pow10Add(10, 10);
    Pow10Add(20, k - 20);
    MulMonotone(1, Pow10(k - 20), Pow10(20));
  }

  /** A count below 2^64 divided by 10^20 or more rounds to zero: it is less than half the divisor. */
  lemma RoundsToZero(m: nat, p: nat)
    requires m < 0x1_0000_0000_0000_0000 && p >= 100000000000000000000
    ensures RoundHalfEven(m, p) == 0
  {
    assert m / p == 0 && m % p == m;
  }

  /**
   * r is the exact product m at scale s, rounded: a valid decimal of the
   * product's sign whose count is m rounded half-even to a scale of at most
   * 28, the finest such scale whose count fits 96 bits (so a product that
   * already fits is kept whole), or Overflow exactly when the whole-number
   * product is past 2^96 - 1.
   */
  ghost predicate RoundedProduct(r: Result<Decimal>, negative: bool, m: nat, s: nat) {
    && (r.Ok? ==> Valid(r.value) && r.value.negative == negative && r.value.scale <= s)
    && (r.Ok? ==> 2 * Abs(m - r.value.magnitude * Pow10(s - r.value.scale)) <= Pow10(s - r.value.scale))
    && (r.Ok? ==>
          r.value.magnitude == RoundHalfEven(m, Pow10(s - r.value.scale)) && FinerOverflow(m, Dropped(s), s - r.value.scale))
    && (s <= MaxScale && m <= MaxMagnitude ==> r == Ok(Decimal(negative, s, m)))
    && (r.Err? <==> RoundHalfEven(m, Pow10(s)) > MaxMagnitude)
    && (r.Err? ==> r.error == Overflow)
  }

  lemma FitProduct(negative: bool, m: nat, s: nat, r: Result<Decimal>)
    requires r == Fit(negative, m, s, Dropped(s))
    ensures RoundedProduct(r, negative, m, s)
  {
    var k := Dropped(s);
    FitRounds(negative, m, s, k, r);
    FitOverflow(negative, m, s, k);
    FitProductFinest(negative, m, s, r);
    if s <= MaxScale && m <= MaxMagnitude {
      FitExact(negative, m, s);
    }
  }

  /** A fitted result is within half a step of m, at a scale no finer than m's. */
  lemma FitProductFinest(negative: bool, m: nat, s: nat, r: Result<Decimal>)
    requires r == Fit(negative, m, s, Dropped(s))
    ensures r.Ok? ==>
      r.value.magnitude == RoundHalfEven(m, Pow10(s - r.value.scale)) && FinerOverflow(m, Dropped(s), s - r.value.scale)
  {
    FitFinestAll(negative, m, s, Dropped(s));
  }

  lemma FitRounds(negative: bool, m: nat, s: nat, k: nat, r: Result<Decimal>)
    requires s <= MaxScale + k && k <= s && r == Fit(negative, m, s, k)
    ensures r.Ok? ==> Valid(r.value) && r.value.negative == negative && r.value.scale <= s
    ensures r.Ok? ==> 2 * Abs(m - r.value.magnitude * Pow10(s - r.value.scale)) <= Pow10(s - r.value.scale)
    ensures r.Err? ==> r.error == Overflow
  {
    if r.Ok? {
      RoundedNear(m, Pow10(s - r.value.scale), r.value.magnitude);
    }
  }

  // ---------------------------------------------------------------------
  // Division and remainder (Decimal.cs 228-352, 646-722)

  /**
   * The quotient n / den rounded half-even at the finest scale, from t
   * down to 0, whose count fits 96 bits; Overflow when even the whole
   * quotient does not.
   */
  function DivideAtScale(negative: bool, n: nat, den: nat, t: nat): (r: Result<Decimal>)
    requires den >= 1 && t <= MaxScale
    ensures r.Ok? ==> Valid(r.value) && r.value.negative == negative && r.value.scale <= t
    ensures r.Ok? ==> r.value.magnitude == RoundHalfEven(n * Pow10(r.value.scale), den)
    ensures r.Err? ==> r.error == Overflow && RoundHalfEven(n * Pow10(0), den) > MaxMagnitude
    decreases t
  {
    var q := RoundHalfEven(n * Pow10(t), den);
    if q <= MaxMagnitude then Ok(Decimal(negative, t, q))
    else if t == 0 then Err(Overflow)
    else DivideAtScale(negative, n, den, t - 1)
  }

  /** u is the finest scale, up to 28, at which n / den rounded half-even fits 96 bits. */
  ghost predicate FinestQuotientScale(n: nat, den: nat, u: nat)
    requires den >= 1
  {
    u <= MaxScale && RoundHalfEven(n * Pow10(u), den) <= MaxMagnitude
    && QuotientOverflowAbove(n, den, u, MaxScale)
  }

  /** n / den rounded half-even overflows 96 bits at every scale above u, up to t. */
  ghost predicate QuotientOverflowAbove(n: nat, den: nat, u: nat, t: nat)
    requires den >= 1
  {
    forall j :: u < j <= t ==> OverflowsAt(n, den, j)
  }

  /** n / den rounded half-even at scale j is past 2^96 - 1. */
  ghost predicate OverflowsAt(n: nat, den: nat, j: nat)
    requires den >= 1
  {
    RoundHalfEven(n * Pow10(j), den) > MaxMagnitude
  }

  /** v, counted at the finest scale u, is n / den rounded half-even there. */
  ghost predicate RoundsAtFinest(n: nat, den: nat, v: Decimal, u: nat)
    requires den >= 1
  {
    FinestQuotientScale(n, den, u) && v.scale <= u
    && v.magnitude * Pow10(u - v.scale) == RoundHalfEven(n * Pow10(u), den)
  }

  /** There is at most one such scale. */
  lemma FinestQuotientScaleUnique(n: nat, den: nat, u: nat, w: nat)
    requires den >= 1 && FinestQuotientScale(n, den, u) && FinestQuotientScale(n, den, w)
    ensures u == w
  {
    assert u < w ==> OverflowsAt(n, den, w);
    assert w < u ==> OverflowsAt(n, den, u);
  }

  /** The search over all 29 scales stops at the finest one. */
  lemma DivideAtScaleFinestAll(negative: bool, n: nat, den: nat)
    requires den >= 1
    ensures DivideAtScale(negative, n, den, MaxScale).Ok? ==>
      FinestQuotientScale(n, den, DivideAtScale(negative, n, den, MaxScale).value.scale)
  {
    var r := DivideAtScale(negative, n, den, MaxScale);
    if r.Ok? {
      DivideAtScaleAbove(negative, n, den, MaxScale);
    }
  }

  /** The scale the search stops at is the finest: every finer one, up to t, overflows. */
  lemma {:induction false} DivideAtScaleAbove(negative: bool, n: nat, den: nat, t: nat)
    requires den >= 1 && t <= MaxScale && DivideAtScale(negative, n, den, t).Ok?
    ensures QuotientOverflowAbove(n, den, DivideAtScale(negative, n, den, t).value.scale, t)
    decreases t
  {
    if OverflowsAt(n, den, t) {
      DivideAtScaleAbove(negative, n, den, t - 1);
    }
  }

  /** The search fails exactly when the whole-number quotient is past 2^96 - 1. */
  lemma DivideAtScaleOverflow(negative: bool, n: nat, den: nat, t: nat)
    requires den >= 1 && t <= MaxScale
    ensures DivideAtScale(negative, n, den, t).Err? <==> RoundHalfEven(n, den) > MaxMagnitude
  {
    var r := DivideAtScale(negative, n, den, t);
    assert n * Pow10(0) == n;
    if r.Ok? && RoundHalfEven(n, den) > MaxMagnitude {
      FinerPastBound(n, den, Pow10(r.value.scale), MaxMagnitude);
    }
  }

  /**
   * Drops trailing zero digits while the scale is above `preferred`; the
   * value is unchanged and the last digit left above `preferred` is not 0.
   */
  function StripZeros(v: Decimal, preferred: nat): (r: Decimal)
    ensures r.negative == v.negative && r.scale <= v.scale && r.magnitude <= v.magnitude
    ensures r.magnitude * Pow10(v.scale - r.scale) == v.magnitude
    ensures r.scale == v.scale || r.scale >= preferred
    ensures r.scale > preferred ==> r.magnitude % 10 != 0
    ensures Valid(v) ==> Valid(r)
    decreases v.scale
  {
    if v.scale > preferred && v.magnitude % 10 == 0 then
      var r := StripZeros(Decimal(v.negative, v.scale - 1, v.magnitude / 10), preferred);
      StripStep(r.magnitude, Pow10(v.scale - 1 - r.scale), v.magnitude);
      assert Pow10(v.scale - r.scale) == 10 * Pow10(v.scale - 1 - r.scale);
      r
    else
      assert Pow10(0) == 1;
      v
  }

  lemma StripStep(a: nat, p: nat, m: nat)
    requires a * p == m / 10 && m % 10 == 0
    ensures a * (10 * p) == m
  {
  }

  /**
   * decimal.Divide, d1 / d2: DivideByZeroException for a zero divisor;
   * otherwise the quotient rounded half-even at the finest scale that fits,
   * and OverflowException when the whole-number quotient is past 2^96 - 1.
   * Trailing zeros are dropped down to the scale d1.scale - d2.scale when
   * the quotient is exact at that scale, and down to scale 0 otherwise.
   * Both operands are counted in units of the finer of their two scales,
   * and the quotient is the ratio of those counts.
   */
  function Divide(d: Decimal, e: Decimal): (r: Result<Decimal>)
    requires Valid(d) && Valid(e)
    ensures r == Err(DivideByZero) <==> e.magnitude == 0
    ensures e.magnitude != 0 ==> var s := Max(d.scale, e.scale);
      RoundedQuotient(r, d.negative != e.negative, Units(d, s), Units(e, s))
    ensures e.magnitude != 0 && r.Ok? && r.value.scale > PreferredScale(d, e) ==> r.value.magnitude % 10 != 0
  {
    if e.magnitude == 0 then Err(DivideByZero)
    else
      var s := Max(d.scale, e.scale);
      Quotient(d.negative != e.negative, Units(d, s), Units(e, s), PreferredScale(d, e))
  }

  /**
   * The scale Divide drops trailing zeros down to: the natural scale
   * d1.scale - d2.scale (0 when that is negative) when the quotient is
   * exact at it, 0 when it is not.
   */
  function PreferredScale(d: Decimal, e: Decimal): (p: nat)
    requires Valid(d) && Valid(e) && e.magnitude != 0
    ensures var s, natural := Max(d.scale, e.scale), if d.scale >= e.scale then d.scale - e.scale else 0;
      p == natural || p == 0
    ensures var s, natural := Max(d.scale, e.scale), if d.scale >= e.scale then d.scale - e.scale else 0;
      p == natural <==> natural == 0 || (Units(d, s) * Pow10(natural)) % Units(e, s) == 0
  {
    var s := Max(d.scale, e.scale);
    var natural := if d.scale >= e.scale then d.scale - e.scale else 0;
    if (Units(d, s) * Pow10(natural)) % Units(e, s) == 0 then natural else 0
  }

  /**
   * r is n / den rounded: a valid decimal of the given sign within half a
   * unit of its last place of the quotient, whose value is the quotient
   * rounded half-even at the finest scale that fits 96 bits (with trailing
   * zeros possibly dropped), or Overflow exactly when the whole-number
   * quotient is past 2^96 - 1.
   */
  ghost predicate RoundedQuotient(r: Result<Decimal>, negative: bool, n: nat, den: nat) {
    && den >= 1
    && (r.Ok? ==> Valid(r.value) && r.value.negative == negative)
    && (r.Ok? ==> 2 * Abs(n * Pow10(r.value.scale) - r.value.magnitude * den) <= den)
    && (r.Ok? ==> exists u :: RoundsAtFinest(n, den, r.value, u))
    && (r.Err? <==> RoundHalfEven(n, den) > MaxMagnitude)
    && (r.Err? ==> r.error == Overflow)
  }

  /** The rounded quotient n / den with trailing zeros dropped down to `preferred`. */
  function Quotient(negative: bool, n: nat, den: nat, preferred: nat): (r: Result<Decimal>)
    requires den >= 1
    ensures RoundedQuotient(r, negative, n, den)
    ensures r.Ok? && r.value.scale > preferred ==> r.value.magnitude % 10 != 0
  {
    var q := DivideAtScale(negative, n, den, MaxScale);
    DivideAtScaleOverflow(negative, n, den, MaxScale);
    DivideAtScaleFinestAll(negative, n, den);
    if q.Err? then q
    else
      StripRounded(negative, n, den, q.value, preferred);
      Ok(StripZeros(q.value, preferred))
  }

  lemma StripRounded(negative: bool, n: nat, den: nat, v: Decimal, preferred: nat)
    requires den >= 1 && Valid(v) && v.negative == negative
    requires v.magnitude == RoundHalfEven(n * Pow10(v.scale), den)
    requires RoundHalfEven(n, den) <= MaxMagnitude
    requires FinestQuotientScale(n, den, v.scale)
    ensures RoundedQuotient(Ok(StripZeros(v, preferred)), negative, n, den)
  {
    var r := StripZeros(v, preferred);
    RoundedNear(n * Pow10(v.scale), den, v.magnitude);
    StripKeepsNear(n, den, v, r);
    StripAtFinest(n, den, v, r);
    RoundedQuotientOk(negative, n, den, r, v.scale);
  }

  lemma RoundedQuotientOk(negative: bool, n: nat, den: nat, r: Decimal, u: nat)
    requires den >= 1 && Valid(r) && r.negative == negative
    requires 2 * Abs(n * Pow10(r.scale) - r.magnitude * den) <= den
    requires RoundsAtFinest(n, den, r, u) && RoundHalfEven(n, den) <= MaxMagnitude
    ensures RoundedQuotient(Ok(r), negative, n, den)
  {
  }

  /** Dropping zeros keeps the value, so the stripped decimal still reads the finest rounding. */
  lemma StripAtFinest(n: nat, den: nat, v: Decimal, r: Decimal)
    requires den >= 1 && FinestQuotientScale(n, den, v.scale)
    requires v.magnitude == RoundHalfEven(n * Pow10(v.scale), den)
    requires r.scale <= v.scale && r.magnitude * Pow10(v.scale - r.scale) == v.magnitude
    ensures RoundsAtFinest(n, den, r, v.scale)
  {
  }

  /** Dropping zeros keeps the rounded quotient within half a unit of its last place. */
  lemma StripKeepsNear(n: nat, den: nat, v: Decimal, r: Decimal)
    requires den >= 1 && r.scale <= v.scale
    requires 2 * Abs(n * Pow10(v.scale) - v.magnitude * den) <= den
    requires r.magnitude * Pow10(v.scale - r.scale) == v.magnitude
    ensures 2 * Abs(n * Pow10(r.scale) - r.magnitude * den) <= den
  {
    var f := Pow10(v.scale - r.scale);
    Pow10Add(r.scale, v.scale - r.scale);
    assert r.scale + (v.scale - r.scale) == v.scale;
    MulAssociates(n, Pow10(r.scale), f);
    NearScaled(n * Pow10(r.scale), r.magnitude * den, f, den, r.magnitude);
  }

  lemma NearScaled(x: int, y: int, f: nat, den: nat, a: int)
    requires f >= 1 && y == a * den
    requires 2 * Abs(x * f - (a * f) * den) <= den
    ensures 2 * Abs(x - y) <= den
  {
    assert x * f - (a * f) * den == (x - y) * f;
    MulMonotone(1, f, Abs(x - y));
    assert Abs((x - y) * f) == Abs(x - y) * f;
  }

  /**
   * When some count q <= 2^96 - 1 at a scale u <= 28 is the exact quotient,
   * the division is exact: the result times the divisor is the dividend.
   */
  lemma DivideExact(d: Decimal, e: Decimal, u: nat, q: nat)
    requires Valid(d) && Valid(e) && e.magnitude != 0
    requires u <= MaxScale && q <= MaxMagnitude
    requires ExactAt(q, Units(d, Max(d.scale, e.scale)), Units(e, Max(d.scale, e.scale)), u)
    ensures ExactQuotient(Divide(d, e), Units(d, Max(d.scale, e.scale)), Units(e, Max(d.scale, e.scale)))
  {
    var s := Max(d.scale, e.scale);
    var preferred := PreferredScale(d, e);
    assert Divide(d, e) == Quotient(d.negative != e.negative, Units(d, s), Units(e, s), preferred);
    QuotientExact(d.negative != e.negative, Units(d, s), Units(e, s), preferred, u, q);
  }

  /** The count q at scale u is the exact quotient n / den: q * den is n counted at scale u. */
  predicate ExactAt(q: nat, n: nat, den: nat, u: nat) {
    q * den == n * Pow10(u)
  }

  /** r is the exact quotient n / den. */
  predicate ExactQuotient(r: Result<Decimal>, n: nat, den: nat) {
    r.Ok? && ExactAt(r.value.magnitude, n, den, r.value.scale)
  }

  lemma QuotientExact(negative: bool, n: nat, den: nat, preferred: nat, u: nat, q: nat)
    requires den >= 1 && u <= MaxScale && q <= MaxMagnitude
    requires ExactAt(q, n, den, u)
    ensures ExactQuotient(Quotient(negative, n, den, preferred), n, den)
  {
    var v := DivideAtScale(negative, n, den, MaxScale);
    DivideAtScaleExact(negative, n, den, MaxScale, u, q);
    StripKeepsExact(n, den, v.value, StripZeros(v.value, preferred));
  }

  /** Two exact quotients of the same sign are the same number, whatever their scales. */
  lemma ExactQuotientsAgree(r: Decimal, x: Decimal, n: nat, den: nat)
    requires den >= 1 && r.negative == x.negative
    requires ExactAt(r.magnitude, n, den, r.scale) && ExactAt(x.magnitude, n, den, x.scale)
    ensures SameValue(r, x)
  {
    var s := Max(r.scale, x.scale);
    ExactFiner(r.magnitude, n, den, r.scale, s);
    ExactFiner(x.magnitude, n, den, x.scale, s);
    var a, b := r.magnitude * Pow10(s - r.scale), x.magnitude * Pow10(s - x.scale);
    ScaleKeepsOrder(a, b, den);
    assert Aligned(r, s) == (if r.negative then -(a as int) else a) by {
      MulSign(r.negative, r.magnitude, Pow10(s - r.scale));
    }
    assert Aligned(x, s) == (if x.negative then -(b as int) else b) by {
      MulSign(x.negative, x.magnitude, Pow10(s - x.scale));
    }
  }

  /**
   * A quotient that a decimal x represents exactly is what Divide returns,
   * up to trailing zeros: Divide(d, e) has x's value.
   */
  lemma DivideRepresentable(d: Decimal, e: Decimal, x: Decimal)
    requires Valid(d) && Valid(e) && Valid(x) && e.magnitude != 0
    requires x.negative == (d.negative != e.negative)
    requires ExactAt(x.magnitude, Units(d, Max(d.scale, e.scale)), Units(e, Max(d.scale, e.scale)), x.scale)
    ensures Divide(d, e).Ok? && SameValue(Divide(d, e).value, x)
  {
    var s := Max(d.scale, e.scale);
    DivideExact(d, e, x.scale, x.magnitude);
    ExactQuotientsAgree(Divide(d, e).value, x, Units(d, s), Units(e, s));
  }

  lemma MulSign(negative: bool, m: nat, p: nat)
    ensures (if negative then -(m as int) else m) * p == (if negative then -((m * p) as int) else m * p)
  {
  }

  /** An exact quotient at scale u, counted at a finer scale s. */
  lemma ExactFiner(q: nat, n: nat, den: nat, u: nat, s: nat)
    requires u <= s && ExactAt(q, n, den, u)
    ensures (q * Pow10(s - u)) * den == n * Pow10(s)
  {
    Pow10Add(u, s - u);
    assert u + (s - u) == s;
    ExactScaled(q, den, n, Pow10(u), Pow10(s - u));
  }

  lemma {:induction false} DivideAtScaleExact(negative: bool, n: nat, den: nat, t: nat, u: nat, q: nat)
    requires den >= 1 && u <= t <= MaxScale && q <= MaxMagnitude
    requires ExactAt(q, n, den, u)
    ensures ExactQuotient(DivideAtScale(negative, n, den, t), n, den)
    ensures DivideAtScale(negative, n, den, t).Ok? ==> DivideAtScale(negative, n, den, t).value.scale >= u
    decreases t
  {
    ExactAtScale(n, den, t, u, q);
    if t > u && RoundHalfEven(n * Pow10(t), den) > MaxMagnitude {
      DivideAtScaleExact(negative, n, den, t - 1, u, q);
    }
  }

  /** An exact quotient at scale u is exact, and found, at every finer scale t. */
  lemma ExactAtScale(n: nat, den: nat, t: nat, u: nat, q: nat)
    requires den >= 1 && u <= t
    requires ExactAt(q, n, den, u)
    ensures ExactAt(RoundHalfEven(n * Pow10(t), den), n, den, t)
    ensures t == u ==> RoundHalfEven(n * Pow10(t), den) == q
  {
    var f := Pow10(t - u);
    Pow10Add(u, t - u);
    assert u + (t - u) == t;
    ExactScaled(q, den, n, Pow10(u), f);
    RoundExact(q * f, den);
    if t == u {
      assert q * f == q;
    }
  }

  lemma ExactScaled(q: nat, den: nat, n: nat, p: nat, f: nat)
    requires q * den == n * p
    ensures (q * f) * den == n * (p * f)
  {
    MulAssociates(n, p, f);
    assert (q * f) * den == (q * den) * f;
  }

  lemma StripKeepsExact(n: nat, den: nat, v: Decimal, r: Decimal)
    requires r.scale <= v.scale
    requires ExactAt(v.magnitude, n, den, v.scale)
    requires r.magnitude * Pow10(v.scale - r.scale) == v.magnitude
    ensures ExactAt(r.magnitude, n, den, r.scale)
  {
    var f := Pow10(v.scale - r.scale);
    Pow10Add(r.scale, v.scale - r.scale);
    assert r.scale + (v.scale - r.scale) == v.scale;
    MulAssociates(n, Pow10(r.scale), f);
    assert (r.magnitude * f) * den == (r.magnitude * den) * f;
    ScaleKeepsOrder(r.magnitude * den, n * Pow10(r.scale), f);
  }

  /**
   * decimal.Remainder, d1 % d2: DivideByZeroException for a zero divisor;
   * otherwise, at the larger scale s, the remainder of truncated division,
   * carrying the dividend's sign (a zero one included). The runtime forms
   * the quotient first, so a dividend past 2^96 - 1 divisors away raises
   * OverflowException.
   */
  function Remainder(d: Decimal, e: Decimal): (r: Result<Decimal>)
    requires Valid(d) && Valid(e)
    ensures r == Err(DivideByZero) <==> e.magnitude == 0
    ensures e.magnitude != 0 ==> var s := Max(d.scale, e.scale);
      (r.Err? <==> RoundHalfEven(Units(d, s), Units(e, s)) > MaxMagnitude)
      && (r.Err? ==> r.error == Overflow)
      && (r.Ok? ==> Valid(r.value) && r.value.negative == d.negative && r.value.scale == s)
      && (r.Ok? ==> Aligned(r.value, s) == TruncRem(Aligned(d, s), Aligned(e, s)))
  {
    if e.magnitude == 0 then Err(DivideByZero)
    else
      var s := Max(d.scale, e.scale);
      var a, b := Units(d, s), Units(e, s);
      if RoundHalfEven(a, b) > MaxMagnitude then Err(Overflow)
      else
        RemainderValue(d, e, s);
        Ok(Decimal(d.negative, s, a % b))
  }

  lemma RemainderValue(d: Decimal, e: Decimal, s: nat)
    requires Valid(d) && Valid(e) && e.magnitude != 0
    requires s == Max(d.scale, e.scale)
    ensures Units(d, s) % Units(e, s) <= MaxMagnitude
    ensures Aligned(Decimal(d.negative, s, Units(d, s) % Units(e, s)), s) == TruncRem(Aligned(d, s), Aligned(e, s))
  {
    var a, b := Units(d, s), Units(e, s);
    AlignedMagnitude(d, s);
    DivBounds(a, b);
    assert Aligned(Decimal(d.negative, s, a % b), s) == Signed(Decimal(d.negative, s, a % b)) * 1;
    if a == 0 {
      assert a % b == 0;
    }
  }
}
