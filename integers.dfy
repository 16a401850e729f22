// The eight fixed-width integer types (Byte.cs, SByte.cs, Int16.cs,
// UInt16.cs, Int32.cs, UInt32.cs, Int64.cs, UInt64.cs): their ranges, the
// unchecked conversion between widths, and the members every one of them
// has in common (CompareTo, Equals, GetHashCode).
module Integers {
  import opened Wrappers
  import opened Comparers

  datatype IntegerType = SByte | Byte | Int16 | UInt16 | Int32 | UInt32 | Int64 | UInt64
  {
    predicate Signed() {
      this == SByte || this == Int16 || this == Int32 || this == Int64
    }

    /** 2^bits: the number of distinct values of the type. */
    function Modulus(): (m: nat)
      ensures m >= 0x100
    {
      match this
      case SByte | Byte => 0x100
      case Int16 | UInt16 => 0x1_0000
      case Int32 | UInt32 => 0x1_0000_0000
      case Int64 | UInt64 => 0x1_0000_0000_0000_0000
    }

    /** MinValue: -2^(bits-1) for the signed types, 0 for the unsigned ones. */
    function MinValue(): int {
      if Signed() then -(Modulus() / 2) else 0
    }

    /** MaxValue: 2^(bits-1) - 1 for the signed types, 2^bits - 1 for the unsigned ones. */
    function MaxValue(): int {
      if Signed() then Modulus() / 2 - 1 else Modulus() - 1
    }

    predicate Contains(v: int) {
      MinValue() <= v <= MaxValue()
    }
  }

  /** The range spans exactly Modulus() values. */
  lemma RangeWidth(t: IntegerType)
    ensures t.MaxValue() - t.MinValue() + 1 == t.Modulus()
    ensures t.MinValue() <= 0 < t.MaxValue()
  {
  }

  /**
   * The unchecked conversion `unchecked((T)v)`: the low bits of v,
   * reinterpreted as a two's complement value when T is signed.
   */
  function Wrap(t: IntegerType, v: int): (r: int)
    ensures t.Contains(r)
    ensures (r - v) % t.Modulus() == 0
    ensures t.Contains(v) ==> r == v
  {
    ModuloFacts(t, v);
    ModuloResidues(t, v);
    var m := v % t.Modulus();
    if m > t.MaxValue() then m - t.Modulus() else m
  }

  /** The remainder lies in [0, Modulus) and leaves a value of the type in place. */
  lemma ModuloFacts(t: IntegerType, v: int)
    ensures 0 <= v % t.Modulus() < t.Modulus()
    ensures t.Contains(v) ==> v % t.Modulus() == if v >= 0 then v else v + t.Modulus()
  {
    match t
    case SByte | Byte => {}
    case Int16 | UInt16 => {}
    case Int32 | UInt32 => {}
    case Int64 | UInt64 => {}
  }

  /** The remainder, and the remainder less one modulus, are congruent to v. */
  lemma ModuloResidues(t: IntegerType, v: int)
    ensures (v % t.Modulus() - v) % t.Modulus() == 0
    ensures (v % t.Modulus() - t.Modulus() - v) % t.Modulus() == 0
  {
    Residues(v, t.Modulus());
  }

  /** v % m and v % m - m differ from v by whole multiples of m. */
  lemma Residues(v: int, m: int)
    requires m > 0
    ensures (v % m - v) % m == 0
    ensures (v % m - m - v) % m == 0
  {
    var q := v / m;
    assert v == q * m + v % m;
    assert v % m - v == (-q) * m;
    assert v % m - m - v == (-q - 1) * m;
    DivModUnique(v % m - v, m, -q, 0);
    DivModUnique(v % m - m - v, m, -q - 1, 0);
  }

  /** The bit pattern of v over the type's width, as an unsigned number. */
  function Unsigned(t: IntegerType, v: int): (u: nat)
    ensures u < t.Modulus()
    ensures (u - v) % t.Modulus() == 0
  {
    ModuloFacts(t, v);
    ModuloResidues(t, v);
    v % t.Modulus()
  }

  /** Reading a value's own bit pattern back gives the value. */
  lemma WrapUnsigned(t: IntegerType, v: int)
    requires t.Contains(v)
    ensures Wrap(t, Unsigned(t, v)) == v
  {
    RangeWidth(t);
    SmallModulo(t, v);
    SmallModulo(t, Unsigned(t, v));
  }

  /** The remainder of a value less than one modulus away from zero. */
  lemma SmallModulo(t: IntegerType, v: int)
    requires -(t.Modulus() as int) <= v < t.Modulus()
    ensures v % t.Modulus() == if v >= 0 then v else v + t.Modulus()
  {
    match t
    case SByte | Byte => {}
    case Int16 | UInt16 => {}
    case Int32 | UInt32 => {}
    case Int64 | UInt64 => {}
  }

  /** The boxed values `IComparable.CompareTo` and `Equals(object)` may receive. */
  datatype Object = Null | Integer(kind: IntegerType, value: int) | Text(s: string)

  /**
   * CompareTo(object): a null object sorts below every value; an integer of
   * the same type compares by value; any other object (a string, an integer
   * of another width) raises ArgumentException. Only the sign of the result
   * is promised.
   */
  function CompareTo(t: IntegerType, x: int, o: Object): (r: Result<int>)
    ensures r.Ok? <==> o.Null? || (o.Integer? && o.kind == t)
    ensures r.Err? ==> r.error == Argument
    ensures o.Null? ==> r == Ok(1)
    ensures o.Integer? && o.kind == t ==>
      (r.value < 0 <==> x < o.value) && (r.value == 0 <==> x == o.value) && (r.value > 0 <==> x > o.value)
  {
    match o
    case Null => Ok(1)
    case Integer(kind, y) => if kind == t then Ok(CompareValues(x, y)) else Err(Argument)
    case Text(_) => Err(Argument)
  }

  /** CompareTo(T): -1, 0 or 1 by the order of the two values. */
  function CompareValues(x: int, y: int): (r: int)
    ensures -1 <= r <= 1
  {
    if x < y then -1 else if x == y then 0 else 1
  }

  /** CompareTo on values of one type is a comparer in the sense the sort routines need. */
  lemma CompareValuesIsComparer()
    ensures IsComparer(CompareValues)
  {
    var cmp := CompareValues;
    forall x, y, z | cmp(x, y) <= 0 && cmp(y, z) <= 0 ensures cmp(x, z) <= 0 {
      assert x <= y <= z;
    }
  }

  /** Equals(object): true exactly for a boxed value of the same type and the same value. */
  function Equals(t: IntegerType, x: int, o: Object): (r: bool)
    ensures r <==> o == Integer(t, x)
  {
    o.Integer? && o.kind == t && o.value == x
  }

  /**
   * GetHashCode. An sbyte hashes to `value ^ (value << 8)` and a short to
   * `(ushort)value | (value << 16)`, both on 32-bit ints; a byte, ushort,
   * int or uint hashes to its own value read as an int; the 64-bit types
   * fold their two 32-bit halves together with XOR.
   */
  function HashCode(t: IntegerType, x: int): (h: int)
    ensures IsInt32(h)
  {
    if t == SByte then Wrap(Int32, Xor(Unsigned(Int32, x), Unsigned(Int32, x * 0x100), 32))
    else if t == Int16 then ShortHash(Wrap(Int16, x))
    else if t.Modulus() <= 0x1_0000_0000 then Wrap(Int32, x)
    else Wrap(Int32, FoldHalves(Unsigned(t, x)))
  }

  /**
   * `(ushort)value | (value << 16)` for a short: the shift leaves the low
   * 16 bits clear, so the OR of the two disjoint bit ranges is their sum,
   * and the sum of a short times 2^16 and a ushort is an int.
   */
  function ShortHash(x: int): (h: int)
    requires Int16.Contains(x)
    ensures IsInt32(h)
    ensures h % 0x1_0000 == Unsigned(Int16, x) && (h - Unsigned(Int16, x)) / 0x1_0000 == x
  {
    x * 0x1_0000 + Unsigned(Int16, x)
  }

  /** The low 32 bits of a 64-bit pattern XOR its high 32 bits. */
  function FoldHalves(u: nat): (h: nat)
    requires u < 0x1_0000_0000_0000_0000
    ensures h < 0x1_0000_0000
  {
    Pow2Word();
    Xor(u % 0x1_0000_0000, u / 0x1_0000_0000, 32)
  }

  function Pow2(n: nat): (r: nat)
    ensures r >= 1
  {
    if n == 0 then 1 else 2 * Pow2(n - 1)
  }

  lemma {:induction false} Pow2Add(a: nat, b: nat)
    ensures Pow2(a + b) == Pow2(a) * Pow2(b)
  {
    if a > 0 {
      Pow2Add(a - 1, b);
    }
  }

  lemma Pow2Word()
    ensures Pow2(32) == 0x1_0000_0000
  {
    assert Pow2(4) == 16;
    Pow2Add(4, 4);
    Pow2Add(8, 8);
    Pow2Add(16, 16);
  }

  /** Bitwise exclusive or of the low `width` bits of a and b. */
  function Xor(a: nat, b: nat, width: nat): (r: nat)
    ensures r < Pow2(width)
  {
    if width == 0 then 0
    else (if a % 2 == b % 2 then 0 else 1) + 2 * Xor(a / 2, b / 2, width - 1)
  }

  /** The lowest bit of a XOR b is the parity of a + b. */
  lemma XorParity(a: nat, b: nat, width: nat)
    requires width > 0
    ensures Xor(a, b, width) % 2 == (a + b) % 2
  {
    XorHalves(a, b, width);
  }

  /** XOR with zero leaves a value of the given width unchanged. */
  lemma {:induction false} XorZero(a: nat, width: nat)
    requires a < Pow2(width)
    ensures Xor(a, 0, width) == a
  {
    if width > 0 {
      XorZero(a / 2, width - 1);
    }
  }

  /**
   * For the types of at most 32 bits, two values hash alike only when
   * they are equal, which is what the Equals tests check on their hash codes.
   */
  lemma HashCodeInjective(t: IntegerType, x: int, y: int)
    requires t.Modulus() <= 0x1_0000_0000
    requires t.Contains(x) && t.Contains(y)
    requires HashCode(t, x) == HashCode(t, y)
    ensures x == y
  {
    if t == UInt32 {
      SmallModulo(Int32, x);
      SmallModulo(Int32, y);
    } else if t == SByte {
      HashCodeSByte(x);
      HashCodeSByte(y);
      SByteHashInjective(x, y);
    }
  }

  /** Two sbytes with one hash are equal: 257 * a is never 255 * b for a sbyte a >= 0 and b < 0. */
  lemma SByteHashInjective(x: int, y: int)
    requires SByte.Contains(x) && SByte.Contains(y)
    ensures (if x >= 0 then 257 * x else -255 * x) == (if y >= 0 then 257 * y else -255 * y) ==> x == y
  {
    if x >= 0 && y < 0 {
      SByteHashesApart(x, -y);
    } else if y >= 0 && x < 0 {
      SByteHashesApart(y, -x);
    }
  }

  /** 257 times a value up to 127 is never 255 times a value from 1 to 128. */
  lemma SByteHashesApart(a: nat, b: nat)
    requires a <= 127 && 1 <= b <= 128
    ensures 257 * a != 255 * b
  {
    if b > a {
      assert 255 * (b - a) >= 255;
      assert 255 * b - 257 * a == 255 * (b - a) - 2 * a;
    } else {
      assert 257 * a - 255 * b == 257 * (a - b) + 2 * b;
      assert 257 * (a - b) >= 0;
    }
  }

  /**
   * An sbyte's hash `x ^ (x << 8)`: for a value from 0 to 127 the two
   * bit ranges are disjoint, giving 257 * x; for a negative value the high
   * ones cancel, leaving 255 * -x.
   */
  lemma HashCodeSByte(x: int)
    requires SByte.Contains(x)
    ensures HashCode(SByte, x) == if x >= 0 then 257 * x else -255 * x
  {
    var u, v := Unsigned(Int32, x), Unsigned(Int32, x * 0x100);
    ModuloFacts(Int32, x);
    ModuloFacts(Int32, x * 0x100);
    if x >= 0 {
      SByteXorNonNegative(x, u, v);
    } else {
      SByteXorNegative(-x, u, v);
    }
  }

  lemma BytePowers()
    ensures Pow2(8) == 0x100 && Pow2(24) == 0x100_0000 && Pow2(32) == 0x1_0000_0000
  {
    Pow2Word();
    assert Pow2(4) == 16;
    Pow2Add(4, 4);
    Pow2Add(8, 8);
    Pow2Add(8, 16);
  }

  /** x ^ (x << 8) for 0 <= x < 128: the two bit ranges are disjoint. */
  lemma SByteXorNonNegative(x: nat, u: nat, v: nat)
    requires x < 0x80 && u == x && v == 0x100 * x
    ensures Xor(u, v, 32) == 257 * x
  {
    BytePowers();
    XorLowHigh(x, 0, x, 8, 32);
    assert x + 0x100 * 0 == u;
    XorZeroLeft(x, 24);
  }

  /** x ^ (x << 8) for x = -y < 0: the high ones cancel, leaving 255 * y. */
  lemma SByteXorNegative(y: nat, u: nat, v: nat)
    requires 1 <= y <= 0x80 && u == 0x1_0000_0000 - y && v == 0x1_0000_0000 - 0x100 * y
    ensures Xor(u, v, 32) == 255 * y
  {
    BytePowers();
    assert u == (0x100 - y) + 0x100 * (0x100_0000 - 1);
    assert v == 0x100 * (0x100_0000 - y);
    XorLowHigh(0x100 - y, 0x100_0000 - 1, 0x100_0000 - y, 8, 32);
    XorOnes(0x100_0000 - y, 24);
  }

  /**
   * Bits above position k of both operands, with only the first carrying
   * bits below it: those low bits pass through, the high parts are XORed.
   */
  lemma {:induction false} XorLowHigh(a: nat, h: nat, c: nat, k: nat, w: nat)
    requires a < Pow2(k) && k <= w
    ensures Xor(a + Pow2(k) * h, Pow2(k) * c, w) == a + Pow2(k) * Xor(h, c, w - k)
    decreases k
  {
    if k > 0 {
      XorLowHigh(a / 2, h, c, k - 1, w - 1);
      assert Pow2(k) == 2 * Pow2(k - 1);
      XorLowHighStep(a, h, c, Xor(h, c, w - k), Pow2(k), Pow2(k - 1), w);
    } else {
      assert Pow2(k) == 1 && a == 0;
      assert a + Pow2(k) * h == h && Pow2(k) * c == c && a + Pow2(k) * Xor(h, c, w) == Xor(h, c, w);
    }
  }

  /** The induction step of XorLowHigh, with P = Pow2(k) and p = Pow2(k - 1). */
  lemma XorLowHighStep(a: nat, h: nat, c: nat, x: nat, P: nat, p: nat, w: nat)
    requires P == 2 * p && w > 0
    requires Xor(a / 2 + p * h, p * c, w - 1) == a / 2 + p * x
    ensures Xor(a + P * h, P * c, w) == a + P * x
  {
    Doubled(p, h);
    Doubled(p, c);
    Doubled(p, x);
    XorShifted(a, p * h, p * c, p * x, w);
  }

  /** One low bit of a, then everything shifted down by one. */
  lemma XorShifted(a: nat, ph: nat, pc: nat, px: nat, w: nat)
    requires w > 0 && Xor(a / 2 + ph, pc, w - 1) == a / 2 + px
    ensures Xor(a + 2 * ph, 2 * pc, w) == a + 2 * px
  {
    XorHalves(a + 2 * ph, 2 * pc, w);
    assert (a + 2 * ph) / 2 == a / 2 + ph && (a + 2 * ph) % 2 == a % 2;
    assert (2 * pc) / 2 == pc && (2 * pc) % 2 == 0;
  }

  lemma Doubled(p: nat, h: nat)
    ensures (2 * p) * h == 2 * (p * h)
  {
  }

  /** One step of Xor: the lowest bit, then the rest shifted down. */
  lemma XorHalves(a: nat, b: nat, width: nat)
    requires width > 0
    ensures Xor(a, b, width) == (if a % 2 == b % 2 then 0 else 1) + 2 * Xor(a / 2, b / 2, width - 1)
  {
  }

  /** XOR into zero gives the other operand, when it fits the width. */
  lemma {:induction false} XorZeroLeft(c: nat, width: nat)
    requires c < Pow2(width)
    ensures Xor(0, c, width) == c
  {
    if width > 0 {
      XorZeroLeft(c / 2, width - 1);
    }
  }

  /** XOR with all ones of the width complements the other operand. */
  lemma {:induction false} XorOnes(c: nat, width: nat)
    requires c < Pow2(width)
    ensures Xor(Pow2(width) - 1, c, width) == Pow2(width) - 1 - c
  {
    if width > 0 {
      var a := Pow2(width) - 1;
      assert a % 2 == 1 && a / 2 == Pow2(width - 1) - 1;
      XorOnes(c / 2, width - 1);
    }
  }

  /** A byte or ushort hashes to its own value (Byte.cs 81, UInt16.cs 81). */
  lemma HashCodeSmallUnsigned(t: IntegerType, x: int)
    requires t == Byte || t == UInt16
    requires t.Contains(x)
    ensures HashCode(t, x) == x
  {
  }

  /** A uint hashes to `(int)value` (UInt32.cs 81). */
  lemma HashCodeUInt32(x: int)
    requires UInt32.Contains(x)
    ensures HashCode(UInt32, x) == Wrap(Int32, x)
  {
  }

  /** A ulong below 2^31 hashes to its own value, as `(int)value` (UInt64.cs 81). */
  lemma HashCodeSmallUInt64(x: int)
    requires 0 <= x < 0x8000_0000
    ensures HashCode(UInt64, x) == x
  {
    ModuloFacts(UInt64, x);
    assert Unsigned(UInt64, x) == x;
    FoldHalvesLow(x);
  }

  /** A pattern with an all-zero high half folds to its low half. */
  lemma FoldHalvesLow(u: nat)
    requires u < 0x1_0000_0000
    ensures FoldHalves(u) == u
  {
    Pow2Word();
    XorZero(u, 32);
  }
}
