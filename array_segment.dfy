// ArraySegment<T> (ArraySegment.cs): a value naming a window
// array[offset..offset + count] of an array it does not own. The segment
// itself never changes; its indexer setter and CopyTo write through to the
// arrays involved.
module ArraySegments {
  import opened Wrappers
  import opened ArrayOps

  datatype Segment<T> = Segment(arr: array?<T>, offset: nat, count: nat)
  {
    /** What every constructor establishes: the window lies inside the array. */
    predicate Valid() {
      if arr == null then offset == 0 && count == 0 else offset + count <= arr.Length
    }
  }

  /** `new ArraySegment<T>()`: no array, offset 0, count 0. */
  function Default<T>(): (seg: Segment<T>)
    ensures seg.Valid() && seg.arr == null && seg.offset == 0 && seg.count == 0
  {
    Segment(null, 0, 0)
  }

  /** `new ArraySegment<T>(array)`: the whole array; null raises ArgumentNullException. */
  function OfArray<T>(a: array?<T>): (r: Result<Segment<T>>)
    ensures r.Ok? <==> a != null
    ensures r.Err? ==> r.error == ArgumentNull
    ensures r.Ok? ==> r.value.Valid() && r.value.arr == a && r.value.offset == 0 && r.value.count == a.Length
  {
    if a == null then Err(ArgumentNull) else Ok(Segment(a, 0, a.Length))
  }

  /**
   * `new ArraySegment<T>(array, offset, count)`: a null array raises
   * ArgumentNullException, a negative offset or count
   * ArgumentOutOfRangeException, and a window running past the end of the
   * array ArgumentException.
   */
  function Make<T>(a: array?<T>, offset: int, count: int): (r: Result<Segment<T>>)
    ensures r.Ok? <==> a != null && 0 <= offset && 0 <= count && offset + count <= a.Length
    ensures r == Err(ArgumentNull) <==> a == null
    ensures r == Err(ArgumentOutOfRange) <==> a != null && (offset < 0 || count < 0)
    ensures r.Err? ==> r.error == ArgumentNull || r.error == ArgumentOutOfRange || r.error == Argument
    ensures r.Ok? ==> r.value.Valid() && r.value.arr == a && r.value.offset == offset && r.value.count == count
  {
    if a == null then Err(ArgumentNull)
    else if offset < 0 || count < 0 then Err(ArgumentOutOfRange)
    else if offset + count > a.Length then Err(Argument)
    else Ok(Segment(a, offset, count))
  }

  /** Every segment built from an array is the whole-array window's sub-window. */
  lemma OfArrayIsMake<T>(a: array<T>)
    ensures OfArray(a) == Make(a, 0, a.Length)
  {
  }

  /** The elements the segment enumerates, in order. */
  function Items<T>(seg: Segment<T>): (r: seq<T>)
    requires seg.Valid()
    reads seg.arr
    ensures |r| == seg.count
    ensures seg.arr != null ==> forall i :: 0 <= i < seg.count ==> r[i] == seg.arr[seg.offset + i]
  {
    if seg.arr == null then [] else seg.arr[seg.offset..seg.offset + seg.count]
  }

  /**
   * Equals: two segments are equal exactly when they name the same array
   * object (by reference), the same offset and the same count.
   */
  function Equals<T>(x: Segment<T>, y: Segment<T>): (r: bool)
    ensures r <==> x == y
  {
    x.arr == y.arr && x.offset == y.offset && x.count == y.count
  }

  /** Equals(object): a null object is never equal to a segment. */
  function EqualsObject<T>(x: Segment<T>, o: Option<Segment<T>>): (r: bool)
    ensures r <==> o.Some? && o.value == x
  {
    o.Some? && Equals(x, o.value)
  }

  /**
   * GetHashCode, with `identity` standing for the array object's own hash
   * code. The combination `identity + 31 * (offset + 31 * count)` is a
   * stand-in, not the runtime's mixing, and it is not wrapped to 32 bits; it
   * depends on nothing but the three fields Equals compares, keeps the hash
   * (in)equalities the tests assert, and the default segment hashes to 0.
   */
  function HashCode<T>(seg: Segment<T>, identity: array?<T> -> int): (h: int)
    ensures seg.arr == null ==> h == 0
  {
    if seg.arr == null then 0 else identity(seg.arr) + 31 * (seg.offset + 31 * seg.count)
  }

  /**
   * A law of the stand-in hash: two windows of one array hash alike exactly
   * when offset + 31 * count agrees, so windows whose offsets and counts are
   * below 31 hash alike only when they are equal.
   */
  lemma SameArrayHash<T>(x: Segment<T>, y: Segment<T>, identity: array?<T> -> int)
    requires x.arr == y.arr && x.arr != null
    ensures HashCode(x, identity) == HashCode(y, identity) <==> x.offset + 31 * x.count == y.offset + 31 * y.count
    ensures 0 <= x.offset < 31 && 0 <= y.offset < 31 && 0 <= x.count < 31 && 0 <= y.count < 31 ==>
      (HashCode(x, identity) == HashCode(y, identity) <==> Equals(x, y))
  {
  }

  lemma EqualsSameHash<T>(x: Segment<T>, y: Segment<T>, identity: array?<T> -> int)
    requires Equals(x, y)
    ensures HashCode(x, identity) == HashCode(y, identity)
  {
  }

  /**
   * The IList indexer getter: element i of the window, i.e. arr[offset + i].
   * An index outside [0, count) raises ArgumentOutOfRangeException; a
   * default segment, which has no array, raises InvalidOperationException.
   */
  function Get<T>(seg: Segment<T>, i: int): (r: Result<T>)
    requires seg.Valid()
    reads seg.arr
    ensures r.Ok? <==> seg.arr != null && 0 <= i < seg.count
    ensures r.Err? ==> r.error == if seg.arr == null then InvalidOperation else ArgumentOutOfRange
    ensures r.Ok? ==> r.value == Items(seg)[i] == seg.arr[seg.offset + i]
  {
    if seg.arr == null then Err(InvalidOperation)
    else if i < 0 || i >= seg.count then Err(ArgumentOutOfRange)
    else Ok(seg.arr[seg.offset + i])
  }

  /** The IList indexer setter: writes arr[offset + i] and nothing else. */
  method Set<T>(seg: Segment<T>, i: int, v: T) returns (r: Result<()>)
    requires seg.Valid()
    modifies seg.arr
    ensures r.Ok? <==> seg.arr != null && 0 <= i < seg.count
    ensures r.Err? ==> r.error == (if seg.arr == null then InvalidOperation else ArgumentOutOfRange)
    ensures r.Ok? ==> seg.arr[..] == old(seg.arr[..])[seg.offset + i := v]
    ensures r.Ok? ==> Items(seg) == old(Items(seg))[i := v]
    ensures r.Err? && seg.arr != null ==> seg.arr[..] == old(seg.arr[..])
  {
    if seg.arr == null {
      return Err(InvalidOperation);
    }
    if i < 0 || i >= seg.count {
      return Err(ArgumentOutOfRange);
    }
    seg.arr[seg.offset + i] := v;
    return Ok(());
  }

  /**
   * IList.IndexOf: the first position inside the window holding `v`,
   * counted from the window's start, or -1; elements outside the window are
   * never seen.
   */
  function IndexOf<T(==)>(seg: Segment<T>, v: T): (r: Result<int>)
    requires seg.Valid()
    reads seg.arr
    ensures r.Ok? <==> seg.arr != null
    ensures r.Err? ==> r.error == InvalidOperation
    ensures r.Ok? ==> -1 <= r.value < seg.count
    ensures r.Ok? ==> (r.value == -1 <==> v !in Items(seg))
    ensures r.Ok? && r.value >= 0 ==> Items(seg)[r.value] == v && v !in Items(seg)[..r.value]
  {
    if seg.arr == null then Err(InvalidOperation)
    else
      var s := seg.arr[..];
      var found := ArrayOps.IndexOf(s, v, seg.offset, seg.count);
      assert s[seg.offset..seg.offset + seg.count] == Items(seg);
      if found.value < 0 then Ok(-1)
      else
        assert s[seg.offset..found.value] == Items(seg)[..found.value - seg.offset];
        Ok(found.value - seg.offset)
  }

  /** IList.Contains: whether `v` occurs inside the window. */
  function Contains<T(==)>(seg: Segment<T>, v: T): (r: Result<bool>)
    requires seg.Valid()
    reads seg.arr
    ensures r.Ok? <==> seg.arr != null
    ensures r.Err? ==> r.error == InvalidOperation
    ensures r.Ok? ==> (r.value <==> v in Items(seg))
  {
    var index :- IndexOf(seg, v);
    Ok(index >= 0)
  }

  /**
   * ICollection.CopyTo(dst, k): Array.Copy of the window to dst[k..], with
   * memmove semantics when `dst` is the segment's own array; the argument
   * errors are those of Array.Copy.
   */
  method CopyTo<T>(seg: Segment<T>, dst: array?<T>, k: int) returns (r: Result<()>)
    requires seg.Valid()
    modifies dst
    ensures seg.arr == null ==> r == Err(InvalidOperation)
    ensures seg.arr != null ==> r == CopyArgs(seg.arr, seg.offset, dst, k, seg.count)
    ensures r.Ok? ==> dst[..] == Spliced(old(dst[..]), k, old(Items(seg)))
    ensures r.Err? && dst != null ==> dst[..] == old(dst[..])
  {
    if seg.arr == null {
      return Err(InvalidOperation);
    }
    r := Copy(seg.arr, seg.offset, dst, k, seg.count);
  }

  /** The IList and ICollection members that would change the length. */
  datatype ListEdit<T> = Add(item: T) | Clear | Remove(item: T) | RemoveAt(index: int)

  /** A segment is read-only as a list: every length-changing edit raises NotSupportedException. */
  function Edit<T>(seg: Segment<T>, edit: ListEdit<T>): (r: Result<()>)
    ensures r == Err(NotSupported)
  {
    Err(NotSupported)
  }

  /** ArraySegment.cs 12-47: the three constructors. */
  method ConstructorExamples() returns (whole: Result<Segment<int>>, part: Result<Segment<int>>, none: Result<Segment<int>>)
    ensures whole.Ok? && whole.value.offset == 0 && whole.value.count == 5
    ensures part.Ok? && part.value.arr == whole.value.arr && part.value.offset == 2 && part.value.count == 3
    ensures none == Err(ArgumentNull)
  {
    var a := new int[5] [7, 8, 9, 10, 11];
    whole := OfArray(a);
    part := Make(a, 2, 3);
    none := Make<int>(null, 0, 0);
  }

  /** ArraySegment.cs 49-59: the rejected constructor arguments. */
  method InvalidConstructorExamples() returns (errors: seq<Result<Segment<int>>>)
    ensures errors == [Err(ArgumentNull), Err(ArgumentOutOfRange), Err(ArgumentOutOfRange), Err(Argument), Err(Argument)]
  {
    var a := new int[10](_ => 0);
    errors := [Make<int>(null, 0, 0), Make(a, -1, 0), Make(a, 0, -1), Make(a, 10, 1), Make(a, 9, 2)];
  }

  /**
   * ArraySegment.cs 61-83: equality by array, offset and count, and the hash
   * codes, whatever the array's own hash, that agree with it: seg1 hashes like
   * itself and seg2, and unlike seg3 and seg4.
   */
  method EqualsExamples(identity: array?<int> -> int)
    returns (same: bool, twin: bool, shifted: bool, longer: bool, withNull: bool, hashes: seq<bool>)
    ensures same && twin && !shifted && !longer && !withNull
    ensures hashes == [true, true, false, false]
  {
    var a := new int[6] [7, 8, 9, 10, 11, 12];
    var seg1, seg2, seg3, seg4 := Segment(a, 2, 3), Segment(a, 2, 3), Segment(a, 3, 3), Segment(a, 2, 4);
    same := Equals(seg1, seg1);
    twin := Equals(seg1, seg2);
    shifted := Equals(seg1, seg3);
    longer := Equals(seg1, seg4);
    withNull := EqualsObject(seg1, None);
    var h1 := HashCode(seg1, identity);
    hashes := [h1 == HashCode(seg1, identity), h1 == HashCode(seg2, identity),
               h1 == HashCode(seg3, identity), h1 == HashCode(seg4, identity)];
  }

  /** ArraySegment.cs 85-112: the segment (2, 3) of {7, ..., 13} seen as an IList. */
  method ListExamples() returns (dst: array<int>)
    ensures dst[..] == [0, 0, 0, 0, 0, 9, 99, 11, 0, 0]
  {
    var a := new int[7] [7, 8, 9, 10, 11, 12, 13];
    var seg := Segment(a, 2, 3);
    assert Get(seg, 1) == Ok(10);
    assert Edit(seg, Add(2)) == Edit(seg, Clear) == Edit(seg, Remove(2)) == Edit(seg, RemoveAt(2)) == Err(NotSupported);
    var written := Set(seg, 1, 99);
    assert Get(seg, 1) == Ok(99);
    assert Items(seg) == [9, 99, 11];
    assert Contains(seg, 11) == Ok(true) && IndexOf(seg, 11) == Ok(2);
    assert Contains(seg, 8788) == Ok(false) && IndexOf(seg, 8788) == Ok(-1);
    dst := new int[10](_ => 0);
    var copied := CopyTo(seg, dst, 5);
  }

  /** ArraySegment.cs 129-151: copying the segment (1, 3) back into its own array. */
  method CopyToExamples() returns (up: seq<int>, down: seq<int>)
    ensures up == [0, 1, 1, 2, 3]
    ensures down == [1, 2, 3, 3, 4]
  {
    var a := new int[5] [0, 1, 2, 3, 4];
    var r := CopyTo(Segment(a, 1, 3), a, 2);
    up := a[..];
    var b := new int[5] [0, 1, 2, 3, 4];
    r := CopyTo(Segment(b, 1, 3), b, 0);
    down := b[..];
  }
}
