// IntPtr and UIntPtr in a 64-bit process (IntPtr.cs, UIntPtr.cs): a
// pointer-sized integer stored as a long or a ulong. Add and Subtract wrap
// around without raising; narrowing to 32 bits is checked.
module NativeIntegers {
  import opened Wrappers
  import opened Integers
  import NumberParsing
  import NumberFormatting

  datatype PointerType = IntPtr | UIntPtr
  {
    /** The integer type the value is kept in: long for IntPtr, ulong for UIntPtr. */
    function Width(): IntegerType {
      if this == IntPtr then Int64 else UInt64
    }

    /** The 32-bit type of ToInt32 and ToUInt32. */
    function Narrow(): IntegerType {
      if this == IntPtr then Int32 else UInt32
    }
  }

  datatype Pointer = Pointer(kind: PointerType, value: int)

  predicate Valid(p: Pointer) {
    p.kind.Width().Contains(p.value)
  }

  /** IntPtr.Zero and UIntPtr.Zero. */
  function Zero(kind: PointerType): (p: Pointer)
    ensures Valid(p) && p.kind == kind && p.value == 0
  {
    Pointer(kind, 0)
  }

  /**
   * new IntPtr(long), new UIntPtr(ulong) and the casts from an integer of
   * those types: ToInt64 / ToUInt64 give the argument back.
   */
  function New(kind: PointerType, v: int): (p: Pointer)
    requires kind.Width().Contains(v)
    ensures Valid(p) && p.kind == kind && p.value == v
  {
    Pointer(kind, v)
  }

  /**
   * The cast from any integer, reinterpreting it over 64 bits the way an
   * unchecked conversion to long or ulong does.
   */
  function FromInteger(kind: PointerType, v: int): (p: Pointer)
    ensures Valid(p) && p.kind == kind
    ensures (p.value - v) % 0x1_0000_0000_0000_0000 == 0
    ensures kind.Width().Contains(v) ==> p == New(kind, v)
  {
    Pointer(kind, Wrap(kind.Width(), v))
  }

  /**
   * Add(p, offset) and `p + offset`: the sum taken modulo 2^64, with no
   * OverflowException.
   */
  function Add(p: Pointer, offset: int): (r: Pointer)
    requires Valid(p) && Int32.Contains(offset)
    ensures Valid(r) && r.kind == p.kind
    ensures (r.value - (p.value + offset)) % 0x1_0000_0000_0000_0000 == 0
    ensures p.kind.Width().Contains(p.value + offset) ==> r.value == p.value + offset
  {
    FromInteger(p.kind, p.value + offset)
  }

  /** Subtract(p, offset) and `p - offset`: the difference taken modulo 2^64. */
  function Subtract(p: Pointer, offset: int): (r: Pointer)
    requires Valid(p) && Int32.Contains(offset)
    ensures Valid(r) && r.kind == p.kind
    ensures (r.value - (p.value - offset)) % 0x1_0000_0000_0000_0000 == 0
    ensures p.kind.Width().Contains(p.value - offset) ==> r.value == p.value - offset
  {
    FromInteger(p.kind, p.value - offset)
  }

  /** Subtracting an offset undoes adding it, across the wrap-around too. */
  lemma SubtractUndoesAdd(p: Pointer, offset: int)
    requires Valid(p) && Int32.Contains(offset)
    ensures Subtract(Add(p, offset), offset) == p
  {
    var q := Add(p, offset);
    var r := Subtract(q, offset);
    SumOfMultiples(r.value - (q.value - offset), q.value - (p.value + offset));
    RangeWidth(p.kind.Width());
    SmallMultiple(r.value - p.value);
  }

  lemma SumOfMultiples(a: int, b: int)
    requires a % 0x1_0000_0000_0000_0000 == 0 && b % 0x1_0000_0000_0000_0000 == 0
    ensures (a + b) % 0x1_0000_0000_0000_0000 == 0
  {
  }

  lemma SmallMultiple(a: int)
    requires a % 0x1_0000_0000_0000_0000 == 0 && -0x1_0000_0000_0000_0000 < a < 0x1_0000_0000_0000_0000
    ensures a == 0
  {
  }

  /**
   * A checked conversion to an integer type: ToInt32, ToUInt32 and the
   * (int) and (uint) casts raise OverflowException when the value does not
   * fit; ToInt64 and ToUInt64 always succeed.
   */
  function Convert(p: Pointer, t: IntegerType): (r: Result<int>)
    requires Valid(p)
    ensures r.Ok? <==> t.Contains(p.value)
    ensures r.Ok? ==> r.value == p.value
    ensures r.Err? ==> r.error == Overflow
  {
    if t.Contains(p.value) then Ok(p.value) else Err(Overflow)
  }

  /** ToInt32 on IntPtr, ToUInt32 on UIntPtr. */
  function ToInt32(p: Pointer): (r: Result<int>)
    requires Valid(p)
    ensures r.Ok? <==> p.kind.Narrow().Contains(p.value)
    ensures r.Ok? ==> r.value == p.value
    ensures r.Err? ==> r.error == Overflow
  {
    Convert(p, p.kind.Narrow())
  }

  /** Converting a pointer to an integer and back gives the same pointer. */
  lemma ConvertRoundTrip(p: Pointer, t: IntegerType)
    requires Valid(p) && Convert(p, t).Ok?
    ensures FromInteger(p.kind, Convert(p, t).value) == p
  {
  }

  /** ToInt64 and ToUInt64 succeed on every pointer. */
  lemma WideConversion(p: Pointer)
    requires Valid(p)
    ensures Convert(p, p.kind.Width()) == Ok(p.value)
  {
  }

  /** ToPointer: the 64-bit pattern of the value, as an address. */
  function Address(p: Pointer): (a: nat)
    requires Valid(p)
    ensures a < 0x1_0000_0000_0000_0000
    ensures p.kind == UIntPtr ==> a == p.value
  {
    ModuloFacts(p.kind.Width(), p.value);
    Unsigned(p.kind.Width(), p.value)
  }

  /** new IntPtr(void*) and the cast from void*: the address read as the value type. */
  function FromAddress(kind: PointerType, a: nat): (p: Pointer)
    requires a < 0x1_0000_0000_0000_0000
    ensures Valid(p) && p.kind == kind
  {
    FromInteger(kind, a)
  }

  /** A pointer survives the trip through void*. */
  lemma AddressRoundTrip(p: Pointer)
    requires Valid(p)
    ensures FromAddress(p.kind, Address(p)) == p
  {
    WrapUnsigned(p.kind.Width(), p.value);
  }

  /** The boxed objects Equals(object) may receive. */
  datatype Boxed = NullObject | BoxedPointer(ptr: Pointer) | BoxedInteger(t: IntegerType, v: int)

  /**
   * Equals(object): true exactly for a boxed pointer of the same kind and
   * value; a boxed int 42 and null are never equal to a pointer.
   */
  function Equals(p: Pointer, o: Boxed): (r: bool)
    ensures r <==> o == BoxedPointer(p)
  {
    o.BoxedPointer? && o.ptr == p
  }

  /** GetHashCode: the 64-bit value folded into an int. */
  function HashCode(p: Pointer): (h: int)
    requires Valid(p)
    ensures IsInt32(h)
  {
    Integers.HashCode(p.kind.Width(), p.value)
  }

  /** Pointers that are Equals have equal hash codes. */
  lemma EqualsHashCode(p: Pointer, q: Pointer)
    requires Valid(p) && Valid(q) && Equals(p, BoxedPointer(q))
    ensures HashCode(p) == HashCode(q)
  {
  }

  /**
   * ToString(): the text of the value as a long or ulong; it reads back as
   * that value.
   */
  function Text(p: Pointer): (s: string)
    requires Valid(p)
    ensures NumberFormatting.ToString(p.kind.Width(), p.value, "", NumberParsing.Invariant) == Ok(s)
    ensures NumberParsing.Parse(s, NumberParsing.Integer, NumberParsing.Invariant, p.kind.Width()) == Ok(p.value)
  {
    NumberFormatting.DefaultIsGeneral(p.kind.Width(), p.value, NumberParsing.Invariant);
    NumberParsing.InvariantIsSane();
    NumberFormatting.GeneralRoundTrip(p.kind.Width(), p.value, NumberParsing.Invariant);
    NumberFormatting.ToString(p.kind.Width(), p.value, "", NumberParsing.Invariant).value
  }

  /** ToString("x"): the lower-case hex digits of the 64-bit pattern; they read back under HexNumber. */
  function HexText(p: Pointer): (s: string)
    requires Valid(p)
    ensures NumberFormatting.ToString(p.kind.Width(), p.value, "x", NumberParsing.Invariant) == Ok(s)
    ensures NumberParsing.Parse(s, NumberParsing.HexNumber, NumberParsing.Invariant, p.kind.Width()) == Ok(p.value)
  {
    NumberFormatting.HexSpecifier(p.kind.Width(), p.value, "x", NumberParsing.Invariant);
    NumberFormatting.HexRoundTrip(p.kind.Width(), p.value, 0, false, NumberParsing.Invariant);
    NumberFormatting.HexForm(p.kind.Width(), p.value, 0, false)
  }

  // ---- the test vectors ----

  /** IntPtr.Add(42, 5) is 47, 40 + 2 is 42, Subtract(42, 5) is 37, 44 - 2 is 42 (IntPtr.cs 74-99). */
  lemma IntPtrArithmetic()
    ensures Add(New(IntPtr, 42), 5) == New(IntPtr, 47)
    ensures Add(New(IntPtr, 40), 2) == New(IntPtr, 42)
    ensures Subtract(New(IntPtr, 42), 5) == New(IntPtr, 37)
    ensures Subtract(New(IntPtr, 44), 2) == New(IntPtr, 42)
  {
  }

  /** Adding 5 to long.MaxValue wraps to the pattern 0x8000000000000004 without raising (IntPtr.cs 81-85). */
  lemma IntPtrAddWraps()
    ensures Add(New(IntPtr, 0x7fff_ffff_ffff_ffff), 5) == New(IntPtr, 0x8000_0000_0000_0004 - 0x1_0000_0000_0000_0000)
    ensures Address(Add(New(IntPtr, 0x7fff_ffff_ffff_ffff), 5)) == 0x8000_0000_0000_0004
  {
  }

  /** Adding 5 to ulong.MaxValue wraps to 4 (UIntPtr.cs 75-80). */
  lemma UIntPtrAddWraps()
    ensures Add(New(UIntPtr, 0xffff_ffff_ffff_ffff), 5) == New(UIntPtr, 4)
    ensures Add(New(UIntPtr, 42), 5) == New(UIntPtr, 47) && Subtract(New(UIntPtr, 44), 2) == New(UIntPtr, 42)
  {
  }

  /**
   * ToInt32 succeeds on 42 and -1 and raises OverflowException on
   * 0x0fffffffffffffff and long.MaxValue (IntPtr.cs 31-56, 139-156).
   */
  lemma IntPtrNarrowing()
    ensures ToInt32(New(IntPtr, 42)) == Ok(42) && ToInt32(New(IntPtr, -1)) == Ok(-1)
    ensures ToInt32(New(IntPtr, 0x0fff_ffff_ffff_ffff)) == Err(Overflow)
    ensures ToInt32(New(IntPtr, 0x7fff_ffff_ffff_ffff)) == Err(Overflow)
  {
  }

  /** ToUInt32 and the (uint) cast raise OverflowException above uint.MaxValue (UIntPtr.cs 138-151). */
  lemma UIntPtrNarrowing()
    ensures ToInt32(New(UIntPtr, 42)) == Ok(42)
    ensures ToInt32(New(UIntPtr, 0x7fff_ffff_ffff_ffff)) == Err(Overflow)
    ensures ToInt32(New(UIntPtr, 0x0fff_ffff_ffff_ffff)) == Err(Overflow)
  {
  }

  /** A pointer equals the pointer made from its own value and differs from the next one (IntPtr.cs 101-122, 165-170). */
  lemma EqualityByValue(kind: PointerType, v: int)
    requires kind.Width().Contains(v) && kind.Width().Contains(v + 1)
    ensures Equals(New(kind, v), BoxedPointer(New(kind, v)))
    ensures !Equals(New(kind, v), BoxedPointer(New(kind, v + 1)))
    ensures !Equals(New(kind, v), BoxedInteger(Int32, v)) && !Equals(New(kind, v), NullObject)
  {
  }
}
