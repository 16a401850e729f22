// System.Buffer over arrays of primitive elements (Buffer.cs): every such
// array is a block of bytes in memory, ByteLength is its size, GetByte and
// SetByte address single bytes of it, and BlockCopy moves bytes between two
// blocks as memmove does.
module Buffers {
  import opened Wrappers
  import opened Bytes
  import ArrayOps

  /** The element types of the arrays the Buffer tests create. */
  datatype ElementKind =
    | Byte | SByte | Int16 | UInt16 | Int32 | UInt32 | Int64 | UInt64
    | IntPtr | UIntPtr | Double | Single | Boolean | Char
    | Decimal | DateTime | String | Object

  /** The primitive types: the ones whose arrays Buffer accepts. */
  predicate IsPrimitive(k: ElementKind) {
    !(k.Decimal? || k.DateTime? || k.String? || k.Object?)
  }

  /** sizeof of each primitive type on a 64-bit process. */
  function SizeOf(k: ElementKind): (n: nat)
    requires IsPrimitive(k)
    ensures 1 <= n <= 8
  {
    match k
    case Byte | SByte | Boolean => 1
    case Int16 | UInt16 | Char => 2
    case Int32 | UInt32 | Single => 4
    case Int64 | UInt64 | IntPtr | UIntPtr | Double => 8
  }

  /**
   * A one-dimensional array as Buffer sees it: its element type, its
   * element count and, for a primitive element type, its bytes in memory.
   */
  class TypedArray {
    const kind: ElementKind
    const length: nat
    const data: array<byte>

    ghost predicate Valid()
      reads this
    {
      data.Length == if IsPrimitive(kind) then length * SizeOf(kind) else 0
    }

    /** A new array of `length` default (all-zero) elements. */
    constructor (kind: ElementKind, length: nat)
      ensures Valid() && fresh(data)
      ensures this.kind == kind && this.length == length
      ensures forall i :: 0 <= i < data.Length ==> data[i] == 0
    {
      this.kind := kind;
      this.length := length;
      data := new byte[if IsPrimitive(kind) then length * SizeOf(kind) else 0](_ => 0);
    }

    /** An array of unsigned 32-bit elements holding `values`. */
    constructor OfUInt32(values: seq<nat>)
      requires forall k :: 0 <= k < |values| ==> values[k] < Pow256(4)
      ensures Valid() && fresh(data)
      ensures kind == UInt32 && length == |values|
      ensures data[..] == Words(values, 4)
    {
      kind := UInt32;
      length := |values|;
      var w := Words(values, 4);
      data := new byte[|w|](i requires 0 <= i < |w| => w[i]);
    }

    /** Element k read back from the bytes, for a uint array. */
    function UInt32At(k: nat): (v: nat)
      requires Valid() && kind == UInt32 && k < length
      reads this, data
      ensures v < Pow256(4)
    {
      MulLeft(k + 1, length, 4);
      WordAt(data[..], 4, k)
    }
  }

  /** Buffer.ByteLength: element count times element size. */
  function ByteLength(a: TypedArray?): (r: Result<int>)
    reads a
    ensures a == null <==> r == Err(ArgumentNull)
    ensures a != null && !IsPrimitive(a.kind) <==> r == Err(Argument)
    ensures r.Ok? ==> a != null && r.value == a.length * SizeOf(a.kind)
  {
    if a == null then Err(ArgumentNull)
    else if !IsPrimitive(a.kind) then Err(Argument)
    else Ok(a.length * SizeOf(a.kind))
  }

  /** Buffer.GetByte(a, index): byte `index` of the array's memory. */
  function GetByte(a: TypedArray?, index: int): (r: Result<byte>)
    requires a != null ==> a.Valid()
    reads a, if a == null then {} else {a.data}
    ensures r.Ok? <==> ByteLength(a).Ok? && 0 <= index < ByteLength(a).value
    ensures r.Ok? ==> r.value == a.data[index]
    ensures r.Err? && ByteLength(a).Ok? ==> r.error == ArgumentOutOfRange
    ensures ByteLength(a).Err? ==> r.Err? && r.error == ByteLength(a).error
  {
    var n :- ByteLength(a);
    if index < 0 || index >= n then Err(ArgumentOutOfRange) else Ok(a.data[index])
  }

  /** Buffer.SetByte(a, index, value): overwrites exactly that byte. */
  method SetByte(a: TypedArray?, index: int, value: byte) returns (r: Result<()>)
    requires a != null ==> a.Valid()
    modifies if a == null then {} else {a.data}
    ensures r.Err? <==> GetByte(a, index).Err?
    ensures r.Err? ==> r.error == GetByte(a, index).error
    ensures a != null && r.Ok? ==> a.data[..] == old(a.data[..])[index := value]
    ensures a != null && r.Err? ==> a.data[..] == old(a.data[..])
  {
    var n := ByteLength(a);
    if n.Err? {
      return Err(n.error);
    }
    if index < 0 || index >= n.value {
      return Err(ArgumentOutOfRange);
    }
    a.data[index] := value;
    return Ok(());
  }

  /**
   * Argument checks of Buffer.BlockCopy, in the order the runtime makes
   * them: null arrays, non-primitive arrays, negative offsets or count,
   * then a range that does not fit in either array.
   */
  function BlockCopyArgs(src: TypedArray?, srcOffset: int, dst: TypedArray?, dstOffset: int, count: int): (r: Result<()>)
    reads src, dst
    ensures r.Ok? <==>
      (src != null && dst != null && IsPrimitive(src.kind) && IsPrimitive(dst.kind)
       && 0 <= srcOffset && 0 <= dstOffset && 0 <= count
       && srcOffset + count <= ByteLength(src).value && dstOffset + count <= ByteLength(dst).value)
    ensures r == Err(ArgumentNull) <==> src == null || dst == null
    ensures r == Err(ArgumentOutOfRange) <==>
      (src != null && dst != null && IsPrimitive(src.kind) && IsPrimitive(dst.kind)
       && (srcOffset < 0 || dstOffset < 0 || count < 0))
    ensures r.Err? ==> r.error == ArgumentNull || r.error == ArgumentOutOfRange || r.error == Argument
  {
    if src == null || dst == null then Err(ArgumentNull)
    else if !IsPrimitive(src.kind) || !IsPrimitive(dst.kind) then Err(Argument)
    else if srcOffset < 0 || dstOffset < 0 || count < 0 then Err(ArgumentOutOfRange)
    else if srcOffset + count > ByteLength(src).value || dstOffset + count > ByteLength(dst).value then Err(Argument)
    else Ok(())
  }

  /**
   * Buffer.BlockCopy(src, srcOffset, dst, dstOffset, count): the `count`
   * bytes at dst[dstOffset..] become the bytes src held at srcOffset before
   * the call, even when src and dst are the same array; every other byte of
   * dst is unchanged.
   */
  method BlockCopy(src: TypedArray?, srcOffset: int, dst: TypedArray?, dstOffset: int, count: int) returns (r: Result<()>)
    requires src != null ==> src.Valid()
    requires dst != null ==> dst.Valid()
    modifies if dst == null then {} else {dst.data}
    ensures r == BlockCopyArgs(src, srcOffset, dst, dstOffset, count)
    ensures r.Ok? ==>
      dst.data[..] == ArrayOps.Spliced(old(dst.data[..]), dstOffset, old(src.data[srcOffset..srcOffset + count]))
    ensures r.Err? && dst != null ==> dst.data[..] == old(dst.data[..])
  {
    r := BlockCopyArgs(src, srcOffset, dst, dstOffset, count);
    if r.Err? {
      return;
    }
    ArrayOps.MoveRange(src.data, srcOffset, dst.data, dstOffset, count);
  }

  /** The first BlockCopy vector of Buffer.cs 13-27: four bytes into a larger array. */
  method BlockCopyExample() returns (into: seq<byte>)
    ensures into == [0x6f, 0x1a, 0x2b, 0x3c, 0x4d, 0x6f]
  {
    var b1 := new TypedArray(Byte, 4);
    b1.data[0], b1.data[1], b1.data[2], b1.data[3] := 0x1a, 0x2b, 0x3c, 0x4d;
    var b2 := new TypedArray(Byte, 6);
    var i := 0;
    while i < 6
      invariant 0 <= i <= 6
      invariant forall k :: 0 <= k < i ==> b2.data[k] == 0x6f
      modifies b2.data
    {
      b2.data[i] := 0x6f;
      i := i + 1;
    }
    ghost var before := b2.data[..];
    assert before == [0x6f, 0x6f, 0x6f, 0x6f, 0x6f, 0x6f];
    assert b1.data[0..4] == [0x1a, 0x2b, 0x3c, 0x4d];
    var r := BlockCopy(b1, 0, b2, 1, 4);
    into := b2.data[..];
  }

  /** The second BlockCopy vector of Buffer.cs 29-35: an overlapping copy within one array. */
  method BlockCopyOverlapExample() returns (within: seq<byte>)
    ensures within == [0x1a, 0x2b, 0x2b, 0x3c, 0x5e]
  {
    var b := new TypedArray(Byte, 5);
    b.data[0], b.data[1], b.data[2], b.data[3], b.data[4] := 0x1a, 0x2b, 0x3c, 0x4d, 0x5e;
    assert b.data[1..3] == [0x2b, 0x3c];
    var r := BlockCopy(b, 1, b, 2, 2);
    within := b.data[..];
  }

  /** The invalid BlockCopy calls of Buffer.cs 38-56. */
  method BlockCopyInvalidExample() returns (errors: seq<Result<()>>)
    ensures errors == [Err(ArgumentNull), Err(ArgumentNull), Err(ArgumentOutOfRange), Err(ArgumentOutOfRange),
      Err(ArgumentOutOfRange), Err(Argument), Err(Argument), Err(Argument), Err(Argument), Err(Argument), Err(Argument)]
  {
    var bytes := new TypedArray(Byte, 3);
    var ints := new TypedArray(Int32, 3);
    var strings := new TypedArray(String, 3);
    var e0 := BlockCopy(null, 0, ints, 0, 0);
    var e1 := BlockCopy(strings, 0, null, 0, 0);
    var e2 := BlockCopy(bytes, -1, bytes, 0, 0);
    var e3 := BlockCopy(bytes, 0, bytes, -1, 0);
    var e4 := BlockCopy(bytes, 0, bytes, 0, -1);
    var e5 := BlockCopy(strings, 0, bytes, 0, 0);
    var e6 := BlockCopy(bytes, 0, strings, 0, 0);
    var e7 := BlockCopy(bytes, 3, bytes, 0, 1);
    var e8 := BlockCopy(bytes, 4, bytes, 0, 0);
    var e9 := BlockCopy(bytes, 0, bytes, 3, 1);
    var e10 := BlockCopy(bytes, 0, bytes, 4, 0);
    errors := [e0, e1, e2, e3, e4, e5, e6, e7, e8, e9, e10];
  }

  /** The ByteLength vectors of Buffer.cs 58-104, for arrays of 25 elements. */
  method ByteLengthExample() returns (ints: Result<int>, chars: Result<int>, longs: Result<int>, decimals: Result<int>, strings: Result<int>, none: Result<int>)
    ensures ints == Ok(100) && chars == Ok(50) && longs == Ok(200)
    ensures decimals == Err(Argument) && strings == Err(Argument) && none == Err(ArgumentNull)
  {
    var a := new TypedArray(Int32, 25);
    ints := ByteLength(a);
    assert ints == Ok(100);
    var c := new TypedArray(Char, 25);
    chars := ByteLength(c);
    assert chars == Ok(50);
    var l := new TypedArray(Int64, 25);
    longs := ByteLength(l);
    assert longs == Ok(200);
    var d := new TypedArray(Decimal, 25);
    decimals := ByteLength(d);
    var s := new TypedArray(String, 25);
    strings := ByteLength(s);
    none := ByteLength(null);
  }

  /** The GetByte and SetByte vectors of Buffer.cs 106-151 on the uint array {0x01234567, 0x89abcdef}. */
  method GetSetByteExample() returns (first: Result<byte>, last: Result<byte>, outside: Result<byte>, elements: seq<nat>, badSet: Result<()>)
    ensures first == Ok(0x67) && last == Ok(0x89) && outside == Err(ArgumentOutOfRange)
    ensures elements == [0x01234542, 0xa2abcdef]
    ensures badSet == Err(ArgumentOutOfRange)
  {
    var a := new TypedArray.OfUInt32([0x01234567, 0x89abcdef]);
    ExampleLayout();
    first, last, outside := GetByte(a, 0), GetByte(a, 7), GetByte(a, 8);
    var r := SetByte(a, 0, 0x42);
    r := SetByte(a, 7, 0xa2);
    assert a.data[..] == [0x42, 0x45, 0x23, 0x01, 0xef, 0xcd, 0xab, 0xa2];
    ExampleWordsRead(a.data[..]);
    elements := [a.UInt32At(0), a.UInt32At(1)];
    badSet := SetByte(a, -1, 0xff);
  }

  /** The bytes of the uint array {0x01234567, 0x89abcdef}. */
  lemma ExampleLayout()
    ensures Words([0x01234567, 0x89abcdef], 4) == [0x67, 0x45, 0x23, 0x01, 0xef, 0xcd, 0xab, 0x89]
  {
    assert [0x01234567, 0x89abcdef][1..] == [0x89abcdef];
    assert Words([0x89abcdef], 4) == LittleEndian(0x89abcdef, 4) by {
      assert [0x89abcdef][1..] == [];
    }
  }

  /** The two uints of the bytes after both SetByte calls. */
  lemma ExampleWordsRead(s: seq<byte>)
    requires s == [0x42, 0x45, 0x23, 0x01, 0xef, 0xcd, 0xab, 0xa2]
    ensures WordAt(s, 4, 0) == 0x01234542 && WordAt(s, 4, 1) == 0xa2abcdef
  {
    assert s[0..4] == [0x42, 0x45, 0x23, 0x01];
    assert s[4..8] == [0xef, 0xcd, 0xab, 0xa2];
    FromLittleEndian4(s[0..4]);
    FromLittleEndian4(s[4..8]);
  }
}
