// The comparers the array tests sort and search with (Array.cs), and what
// it means for a comparison function to be a comparer at all.
module Comparers {
  import opened Wrappers

  /** A 32-bit C# `int`. */
  type Int32 = x: int | -0x8000_0000 <= x <= 0x7FFF_FFFF

  /**
   * A comparer, read through the sign of its result: reflexive,
   * antisymmetric and transitive, so a total preorder.
   */
  ghost predicate IsComparer<T(!new)>(cmp: (T, T) -> int) {
    (forall x :: cmp(x, x) == 0)
    && (forall x, y :: cmp(x, y) < 0 <==> cmp(y, x) > 0)
    && (forall x, y, z {:trigger cmp(x, y), cmp(y, z), cmp(x, z)} :: cmp(x, y) <= 0 && cmp(y, z) <= 0 ==> cmp(x, z) <= 0)
  }

  lemma ComparerTransitive<T(!new)>(cmp: (T, T) -> int, x: T, y: T, z: T)
    requires IsComparer(cmp)
    requires cmp(x, y) <= 0 && cmp(y, z) <= 0
    ensures cmp(x, z) <= 0
  {
  }

  lemma ComparerLeLt<T(!new)>(cmp: (T, T) -> int, x: T, y: T, z: T)
    requires IsComparer(cmp)
    requires cmp(x, y) <= 0 && cmp(y, z) < 0
    ensures cmp(x, z) < 0
  {
  }

  lemma ComparerLtLe<T(!new)>(cmp: (T, T) -> int, x: T, y: T, z: T)
    requires IsComparer(cmp)
    requires cmp(x, y) < 0 && cmp(y, z) <= 0
    ensures cmp(z, x) > 0
  {
  }

  /**
   * IntegerComparer.Compare exactly as the test helper writes it: the
   * difference `x - y` in unchecked 32-bit arithmetic, which wraps around
   * by 2^32 when the true difference leaves the int range.
   */
  function IntegerCompareAsWritten(x: Int32, y: Int32): (r: int)
    ensures IsInt32(r)
    ensures (r - (x - y)) % 0x1_0000_0000 == 0
  {
    var d := x - y;
    if d > Int32Max then d - 0x1_0000_0000
    else if d < Int32Min then d + 0x1_0000_0000
    else d
  }

  /** The comparer the helper evidently intends: the sign of x compared with y. */
  function IntegerCompare(x: Int32, y: Int32): (r: int)
    ensures r < 0 <==> x < y
    ensures r == 0 <==> x == y
    ensures r > 0 <==> x > y
  {
    if x < y then -1 else if x > y then 1 else 0
  }

  /** The difference wraps, so int.MinValue compares above 1. */
  lemma IntegerCompareAsWrittenWraps()
    ensures IntegerCompareAsWritten(Int32Min, 1) == Int32Max
    ensures IntegerCompare(Int32Min, 1) < 0
  {
    assert Int32Min - 1 == Int32Max - 0x1_0000_0000;
  }

  /** So the helper as written is not a comparer: transitivity fails at (MinValue, 0, 1). */
  lemma IntegerCompareAsWrittenNotComparer()
    ensures !IsComparer(IntegerCompareAsWritten)
  {
    var lo: Int32, zero: Int32, one: Int32 := Int32Min, 0, 1;
    var f := IntegerCompareAsWritten;
    IntegerCompareAsWrittenWraps();
    assert f(lo, zero) <= 0 && f(zero, one) <= 0 && f(lo, one) > 0;
    if IsComparer(f) {
      ComparerTransitive(f, lo, zero, one);
      assert false;
    }
  }

  /** Where `x - y` does not overflow, the helper agrees in sign with the intended comparer. */
  lemma IntegerCompareAsWrittenAgrees(x: Int32, y: Int32)
    requires IsInt32(x - y)
    ensures IntegerCompareAsWritten(x, y) < 0 <==> IntegerCompare(x, y) < 0
    ensures IntegerCompareAsWritten(x, y) == 0 <==> IntegerCompare(x, y) == 0
  {
  }

  lemma IntegerCompareIsComparer()
    ensures IsComparer(IntegerCompare)
  {
  }

  /** Ordinal, code-unit by code-unit comparison of two strings. */
  function OrdinalCompare(a: string, b: string): int
    decreases |a|
  {
    if a == [] then (if b == [] then 0 else -1)
    else if b == [] then 1
    else if a[0] < b[0] then -1
    else if a[0] > b[0] then 1
    else OrdinalCompare(a[1..], b[1..])
  }

  lemma {:induction false} OrdinalCompareZero(a: string, b: string)
    ensures OrdinalCompare(a, b) == 0 <==> a == b
    decreases |a|
  {
    if a != [] && b != [] && a[0] == b[0] {
      OrdinalCompareZero(a[1..], b[1..]);
      assert a == [a[0]] + a[1..] && b == [b[0]] + b[1..];
    }
  }

  lemma {:induction false} OrdinalCompareAntisymmetric(a: string, b: string)
    ensures OrdinalCompare(a, b) < 0 <==> OrdinalCompare(b, a) > 0
    decreases |a|
  {
    if a != [] && b != [] && a[0] == b[0] {
      OrdinalCompareAntisymmetric(a[1..], b[1..]);
    }
  }

  lemma {:induction false} OrdinalCompareTransitive(a: string, b: string, c: string)
    requires OrdinalCompare(a, b) <= 0 && OrdinalCompare(b, c) <= 0
    ensures OrdinalCompare(a, c) <= 0
    decreases |a|
  {
    if a != [] && b != [] && c != [] && a[0] == b[0] == c[0] {
      OrdinalCompareTransitive(a[1..], b[1..], c[1..]);
    }
  }

  /**
   * The test's StringComparer: equal strings compare 0, null sorts before
   * every string, and two strings compare ordinally.
   */
  function StringCompare(x: Option<string>, y: Option<string>): int {
    if x == y then 0
    else if x.None? then -1
    else if y.None? then 1
    else OrdinalCompare(x.value, y.value)
  }

  lemma StringCompareIsComparer()
    ensures IsComparer(StringCompare)
  {
    forall x: Option<string>, y: Option<string>
      ensures StringCompare(x, y) < 0 <==> StringCompare(y, x) > 0
    {
      if x.Some? && y.Some? {
        OrdinalCompareAntisymmetric(x.value, y.value);
      }
    }
    forall x: Option<string>, y: Option<string>, z: Option<string>
      | StringCompare(x, y) <= 0 && StringCompare(y, z) <= 0
      ensures StringCompare(x, z) <= 0
    {
      if x.Some? && y.Some? && z.Some? {
        if x != y && y != z {
          OrdinalCompareTransitive(x.value, y.value, z.value);
        }
      }
    }
  }

  /** Null sorts first, and distinct strings never compare equal. */
  lemma StringCompareOrder(x: Option<string>, y: Option<string>)
    ensures x.None? && y.Some? ==> StringCompare(x, y) < 0
    ensures StringCompare(x, y) == 0 <==> x == y
  {
    if x.Some? && y.Some? {
      OrdinalCompareZero(x.value, y.value);
    }
  }
}
