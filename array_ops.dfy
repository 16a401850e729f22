// One-dimensional System.Array operations exercised by Array.cs: the
// in-place edits (Clear, Copy, ConstrainedCopy, Reverse) work on Dafny
// arrays, Resize hands back an array, and the queries (IndexOf,
// LastIndexOf, BinarySearch, Find*) read the array's contents.
module ArrayOps {
  import opened Wrappers
  import opened Comparers

  /** `s` with the window `s[at..at + |w|]` replaced by `w`. */
  function Spliced<T>(s: seq<T>, at: nat, w: seq<T>): (r: seq<T>)
    requires at + |w| <= |s|
    ensures |r| == |s|
    ensures forall k :: 0 <= k < |s| ==> r[k] == if at <= k < at + |w| then w[k - at] else s[k]
  {
    s[..at] + w + s[at + |w|..]
  }

  /**
   * memmove: copies `n` elements from `src[si..]` to `dst[di..]` as if
   * through a temporary buffer, so the result is right for both overlap
   * directions when `src` and `dst` are the same array.
   */
  method MoveRange<T>(src: array<T>, si: nat, dst: array<T>, di: nat, n: nat)
    requires si + n <= src.Length && di + n <= dst.Length
    modifies dst
    ensures dst[..] == Spliced(old(dst[..]), di, old(src[si..si + n]))
  {
    ghost var w := src[si..si + n];
    ghost var d0 := dst[..];
    if src == dst && si < di {
      // Destination above source: copy from the top down.
      var k := n;
      while k > 0
        invariant 0 <= k <= n
        invariant forall j :: 0 <= j < dst.Length ==>
          dst[j] == if di + k <= j < di + n then w[j - di] else d0[j]
      {
        k := k - 1;
        assert src[si + k] == d0[si + k] == w[k];
        dst[di + k] := src[si + k];
      }
    } else {
      var k := 0;
      while k < n
        invariant 0 <= k <= n
        invariant forall j :: 0 <= j < dst.Length ==>
          dst[j] == if di <= j < di + k then w[j - di] else d0[j]
        invariant src != dst ==> src[si..si + n] == w
      {
        assert src[si + k] == w[k];
        dst[di + k] := src[si + k];
        k := k + 1;
      }
    }
    assert dst[..] == Spliced(d0, di, w);
  }

  /**
   * Argument checks of Array.Copy: a null array raises
   * ArgumentNullException, a negative index or length
   * ArgumentOutOfRangeException, and a window beyond either array
   * ArgumentException.
   */
  function CopyArgs<T>(src: array?<T>, si: int, dst: array?<T>, di: int, n: int): (r: Result<()>)
    ensures r.Ok? <==> src != null && dst != null && 0 <= si && 0 <= di && 0 <= n
                       && si + n <= src.Length && di + n <= dst.Length
    ensures r == Err(ArgumentNull) <==> src == null || dst == null
    ensures r == Err(ArgumentOutOfRange) <==> src != null && dst != null && (n < 0 || si < 0 || di < 0)
    ensures r.Err? ==> r.error == ArgumentNull || r.error == ArgumentOutOfRange || r.error == Argument
  {
    if src == null || dst == null then Err(ArgumentNull)
    else if n < 0 || si < 0 || di < 0 then Err(ArgumentOutOfRange)
    else if si + n > src.Length || di + n > dst.Length then Err(Argument)
    else Ok(())
  }

  /** Array.Copy(src, si, dst, di, n). */
  method Copy<T>(src: array?<T>, si: int, dst: array?<T>, di: int, n: int) returns (r: Result<()>)
    modifies dst
    ensures r == CopyArgs(src, si, dst, di, n)
    ensures r.Ok? ==> dst[..] == Spliced(old(dst[..]), di, old(src[si..si + n]))
    ensures r.Err? && dst != null ==> dst[..] == old(dst[..])
  {
    r := CopyArgs(src, si, dst, di, n);
    if r.Ok? {
      MoveRange(src, si, dst, di, n);
    }
  }

  /**
   * Array.ConstrainedCopy: the same copy, with the guarantee that nothing
   * changes unless everything is copied; over one-dimensional arrays of one
   * element type the two coincide.
   */
  method ConstrainedCopy<T>(src: array?<T>, si: int, dst: array?<T>, di: int, n: int) returns (r: Result<()>)
    modifies dst
    ensures r == CopyArgs(src, si, dst, di, n)
    ensures r.Ok? ==> dst[..] == Spliced(old(dst[..]), di, old(src[si..si + n]))
    ensures r.Err? && dst != null ==> dst[..] == old(dst[..])
  {
    r := Copy(src, si, dst, di, n);
  }

  /** Copy within one array, both overlap directions (Array.cs 539-557). */
  method CopyOverlapExample() returns (up: seq<int>, down: seq<int>)
    ensures up == [0x12345678, 0x22334455, 0x55443322, 0x33445566, 0x33445566]
    ensures down == [0x12345678, 0x22334455, 0x778899aa, 0x778899aa, 0x55443322]
  {
    var a := new int[] [0x12345678, 0x22334455, 0x778899aa, 0x55443322, 0x33445566];
    var r := Copy(a, 3, a, 2, 2);
    up := a[..];
    var b := new int[] [0x12345678, 0x22334455, 0x778899aa, 0x55443322, 0x33445566];
    r := ConstrainedCopy(b, 2, b, 3, 2);
    down := b[..];
  }

  /**
   * Argument checks of Array.Clear: a null array raises
   * ArgumentNullException, and any window outside the array
   * IndexOutOfRangeException.
   */
  function ClearArgs<T>(a: array?<T>, index: int, length: int): (r: Result<()>)
    ensures r.Ok? <==> a != null && 0 <= index && 0 <= length && index + length <= a.Length
    ensures r.Err? ==> r.error == if a == null then ArgumentNull else IndexOutOfRange
  {
    if a == null then Err(ArgumentNull)
    else if index < 0 || length < 0 || index + length > a.Length then Err(IndexOutOfRange)
    else Ok(())
  }

  /** Array.Clear(a, index, length); `zero` is the element type's default value. */
  method Clear<T>(a: array?<T>, index: int, length: int, zero: T) returns (r: Result<()>)
    modifies a
    ensures r == ClearArgs(a, index, length)
    ensures r.Ok? ==> forall k :: 0 <= k < a.Length ==>
      a[k] == if index <= k < index + length then zero else old(a[k])
    ensures r.Err? && a != null ==> a[..] == old(a[..])
  {
    r := ClearArgs(a, index, length);
    if r.Ok? {
      var k := index;
      while k < index + length
        invariant index <= k <= index + length
        invariant forall j :: 0 <= j < a.Length ==>
          a[j] == if index <= j < k then zero else old(a[j])
      {
        a[k] := zero;
        k := k + 1;
      }
    }
  }

  /** The Clear vectors of Array.cs 223-247. */
  method ClearExample() returns (middle: seq<int>, empty: seq<int>, bad: Result<()>)
    ensures middle == [0x1234567, 0x789abcde, 0, 0, 0, 0x22446688]
    ensures empty == [0x1234567, 0x789abcde, 0x22334455, 0x66778899, 0x11335577, 0x22446688]
    ensures bad == Err(IndexOutOfRange)
  {
    var a := new int[] [0x1234567, 0x789abcde, 0x22334455, 0x66778899, 0x11335577, 0x22446688];
    var r := Clear(a, 2, 3, 0);
    middle := a[..];
    var b := new int[] [0x1234567, 0x789abcde, 0x22334455, 0x66778899, 0x11335577, 0x22446688];
    r := Clear(b, 6, 0, 0);
    empty := b[..];
    var c := new int[10];
    bad := Clear(c, 6, 0x7fffffff, 0);
  }

  function Reversed<T>(s: seq<T>): (r: seq<T>)
    ensures |r| == |s|
  {
    if s == [] then [] else Reversed(s[1..]) + [s[0]]
  }

  lemma {:induction false} ReversedAt<T>(s: seq<T>, k: nat)
    requires k < |s|
    ensures Reversed(s)[k] == s[|s| - 1 - k]
  {
    if k < |s| - 1 {
      ReversedAt(s[1..], k);
    }
  }

  /** Reversing twice gives back the original sequence. */
  lemma ReversedInvolution<T>(s: seq<T>)
    ensures Reversed(Reversed(s)) == s
  {
    forall k | 0 <= k < |s| ensures Reversed(Reversed(s))[k] == s[k] {
      ReversedAt(Reversed(s), k);
      ReversedAt(s, |s| - 1 - k);
    }
  }

  /**
   * Argument checks of Array.Reverse(a, index, length) (and of
   * Array.Sort on a range): null raises ArgumentNullException, a negative
   * index or length ArgumentOutOfRangeException, and a window beyond the
   * array ArgumentException.
   */
  function RangeArgs<T>(a: array?<T>, index: int, length: int): (r: Result<()>)
    ensures r.Ok? <==> a != null && 0 <= index && 0 <= length && index + length <= a.Length
    ensures r == Err(ArgumentOutOfRange) <==> a != null && (index < 0 || length < 0)
    ensures r == Err(ArgumentNull) <==> a == null
    ensures r.Err? ==> r.error == ArgumentNull || r.error == ArgumentOutOfRange || r.error == Argument
  {
    if a == null then Err(ArgumentNull)
    else if index < 0 || length < 0 then Err(ArgumentOutOfRange)
    else if index + length > a.Length then Err(Argument)
    else Ok(())
  }

  /** Array.Reverse(a, index, length); Array.Reverse(a) is the whole range. */
  method Reverse<T>(a: array?<T>, index: int, length: int) returns (r: Result<()>)
    modifies a
    ensures r == RangeArgs(a, index, length)
    ensures r.Ok? ==> a[..] == old(a[..index]) + Reversed(old(a[index..index + length])) + old(a[index + length..])
    ensures r.Err? && a != null ==> a[..] == old(a[..])
  {
    r := RangeArgs(a, index, length);
    if r.Err? {
      return;
    }
    ReverseRange(a, index, length);
  }

  /** The in-place swap loop behind Array.Reverse, on a range already checked. */
  method ReverseRange<T>(a: array<T>, index: nat, length: nat)
    requires index + length <= a.Length
    modifies a
    ensures a[..] == old(a[..index]) + Reversed(old(a[index..index + length])) + old(a[index + length..])
  {
    ghost var s := a[..];
    ghost var m := 2 * index + length - 1;
    var lo, hi := index, index + length - 1;
    while lo < hi
      decreases hi - lo
      invariant index <= lo <= hi + 1 <= index + length && lo + hi == m
      invariant forall k :: index <= k < lo ==> a[k] == s[m - k]
      invariant forall k :: hi < k < index + length ==> a[k] == s[m - k]
      invariant forall k :: lo <= k <= hi ==> a[k] == s[k]
      invariant forall k :: 0 <= k < index ==> a[k] == s[k]
      invariant forall k :: index + length <= k < a.Length ==> a[k] == s[k]
      invariant a.Length == |s|
    {
      a[lo], a[hi] := a[hi], a[lo];
      lo, hi := lo + 1, hi - 1;
    }
    ReversedRangeAt(s, a[..], index, length);
  }

  /** A sequence that holds s mirrored within [index, index + length) and s elsewhere is that reversal. */
  lemma ReversedRangeAt<T>(s: seq<T>, b: seq<T>, index: nat, length: nat)
    requires index + length <= |s| == |b|
    requires forall k :: index <= k < index + length ==> b[k] == s[2 * index + length - 1 - k]
    requires forall k :: 0 <= k < index ==> b[k] == s[k]
    requires forall k :: index + length <= k < |s| ==> b[k] == s[k]
    ensures b == s[..index] + Reversed(s[index..index + length]) + s[index + length..]
  {
    var w := s[index..index + length];
    var t := s[..index] + Reversed(w) + s[index + length..];
    forall k | 0 <= k < |s| ensures b[k] == t[k] {
      if index <= k < index + length {
        ReversedAt(w, k - index);
      }
    }
  }

  /**
   * The Reverse vectors of Array.cs 886-898, whole array and a range, and the
   * one-dimensional calls of TestReverse_Invalid (Array.cs 914-927): a null
   * array, a negative index, a negative count, and the windows (10, 1) and
   * (9, 2) of ten elements.
   */
  method ReverseExample() returns (whole: seq<int>, range: seq<int>, invalid: seq<Result<()>>)
    ensures whole == [5, 4, 3, 2, 1]
    ensures range == [1, 2, 5, 4, 3]
    ensures invalid == [Err(ArgumentNull), Err(ArgumentOutOfRange), Err(ArgumentOutOfRange), Err(Argument), Err(Argument)]
  {
    whole := ReverseWholeExample();
    range := ReverseRangeExample();
    invalid := ReverseInvalidExample();
  }

  method ReverseWholeExample() returns (whole: seq<int>)
    ensures whole == [5, 4, 3, 2, 1]
  {
    ReversedSmallExamples();
    var a := new int[] [1, 2, 3, 4, 5];
    assert a[..] == [1, 2, 3, 4, 5];
    assert a[0..5] == a[..];
    var r := Reverse(a, 0, a.Length);
    whole := a[..];
  }

  method ReverseRangeExample() returns (range: seq<int>)
    ensures range == [1, 2, 5, 4, 3]
  {
    ReversedSmallExamples();
    var b := new int[] [1, 2, 3, 4, 5];
    assert b[..2] == [1, 2] && b[2..5] == [3, 4, 5] && b[5..] == [];
    var r := Reverse(b, 2, 3);
    range := b[..];
  }

  method ReverseInvalidExample() returns (invalid: seq<Result<()>>)
    ensures invalid == [Err(ArgumentNull), Err(ArgumentOutOfRange), Err(ArgumentOutOfRange), Err(Argument), Err(Argument)]
  {
    var none: array?<int> := null;
    var r1 := Reverse(none, 0, 0);
    var c := new int[10];
    var r2 := Reverse(c, -1, 10);
    var r3 := Reverse(c, 0, -1);
    var r4 := Reverse(c, 10, 1);
    var r5 := Reverse(c, 9, 2);
    invalid := [r1, r2, r3, r4, r5];
  }

  lemma ReversedSmallExamples()
    ensures Reversed([1, 2, 3, 4, 5]) == [5, 4, 3, 2, 1]
    ensures Reversed([3, 4, 5]) == [5, 4, 3]
  {
    var s, t := [1, 2, 3, 4, 5], [3, 4, 5];
    forall k | 0 <= k < 5 ensures Reversed(s)[k] == s[4 - k] {
      ReversedAt(s, k);
    }
    forall k | 0 <= k < 3 ensures Reversed(t)[k] == t[2 - k] {
      ReversedAt(t, k);
    }
  }

  /** The contents after Array.Resize: the kept prefix, padded with defaults. */
  function Resized<T>(s: seq<T>, n: nat, zero: T): (r: seq<T>)
    ensures |r| == n
    ensures forall k :: 0 <= k < n ==> r[k] == if k < |s| then s[k] else zero
  {
    if n <= |s| then s[..n] else s + seq(n - |s|, _ => zero)
  }

  /** Growing and shrinking back gives the original contents. */
  lemma ResizedGrowShrink<T>(s: seq<T>, n: nat, zero: T)
    requires |s| <= n
    ensures Resized(Resized(s, n, zero), |s|, zero) == s
  {
  }

  /**
   * Array.Resize(ref a, newSize): a negative size raises
   * ArgumentOutOfRangeException and leaves `a` as it was, null turns into
   * an array of defaults, and an array already of that size is kept.
   */
  method Resize<T>(a: array?<T>, newSize: int, zero: T) returns (r: Result<array<T>>)
    ensures r.Err? <==> newSize < 0
    ensures r.Err? ==> r.error == ArgumentOutOfRange
    ensures r.Ok? ==> r.value[..] == Resized(if a == null then [] else a[..], newSize, zero)
    ensures r.Ok? && a != null && a.Length == newSize ==> r.value == a
    ensures r.Ok? && (a == null || a.Length != newSize) ==> fresh(r.value)
  {
    if newSize < 0 {
      return Err(ArgumentOutOfRange);
    }
    if a != null && a.Length == newSize {
      return Ok(a);
    }
    var b := new T[newSize](_ => zero);
    if a != null {
      var n := if a.Length < newSize then a.Length else newSize;
      MoveRange(a, 0, b, 0, n);
    }
    return Ok(b);
  }

  /** Index of the first element in s[lo..hi) satisfying `p`, or -1. */
  function FirstWhere<T>(s: seq<T>, p: T -> bool, lo: nat, hi: nat): (r: int)
    requires lo <= hi <= |s|
    ensures r == -1 || lo <= r < hi
    ensures r >= 0 ==> p(s[r]) && forall k :: lo <= k < r ==> !p(s[k])
    ensures r == -1 ==> forall k :: lo <= k < hi ==> !p(s[k])
    decreases hi - lo
  {
    if lo == hi then -1
    else if p(s[lo]) then lo
    else FirstWhere(s, p, lo + 1, hi)
  }

  /** Index of the last element in s[lo..hi) satisfying `p`, or -1. */
  function LastWhere<T>(s: seq<T>, p: T -> bool, lo: nat, hi: nat): (r: int)
    requires lo <= hi <= |s|
    ensures r == -1 || lo <= r < hi
    ensures r >= 0 ==> p(s[r]) && forall k :: r < k < hi ==> !p(s[k])
    ensures r == -1 ==> forall k :: lo <= k < hi ==> !p(s[k])
    decreases hi - lo
  {
    if lo == hi then -1
    else if p(s[hi - 1]) then hi - 1
    else LastWhere(s, p, lo, hi - 1)
  }

  /**
   * Array.IndexOf(a, value, start, count): the first index in
   * [start, start + count) holding `value`, or -1; a start outside
   * [0, Length] or a count running past the end raises
   * ArgumentOutOfRangeException.
   */
  function IndexOf<T(==)>(s: seq<T>, value: T, start: int, count: int): (r: Result<int>)
    ensures r.Err? <==> !(0 <= start <= |s| && 0 <= count <= |s| - start)
    ensures r.Err? ==> r.error == ArgumentOutOfRange
    ensures r.Ok? ==> r.value == -1 || start <= r.value < start + count
    ensures r.Ok? && r.value >= 0 ==> s[r.value] == value && value !in s[start..r.value]
    ensures r.Ok? && r.value == -1 ==> value !in s[start..start + count]
  {
    if start < 0 || start > |s| || count < 0 || count > |s| - start then Err(ArgumentOutOfRange)
    else Ok(FirstWhere(s, x => x == value, start, start + count))
  }

  /**
   * Array.LastIndexOf(a, value, start, count): scans backward over the
   * `count` elements ending at `start` and returns the last index holding
   * `value`, or -1. An empty array accepts start 0 or -1 with count 0.
   */
  function LastIndexOf<T(==)>(s: seq<T>, value: T, start: int, count: int): (r: Result<int>)
    ensures r.Ok? && |s| == 0 ==> r.value == -1
    ensures r.Ok? && |s| > 0 ==> 0 <= start < |s| && 0 <= count <= start + 1
    ensures |s| > 0 && 0 <= start < |s| && 0 <= count <= start + 1 ==> r.Ok?
    ensures r.Err? ==> r.error == ArgumentOutOfRange
    ensures r.Ok? ==> r.value == -1 || start - count < r.value <= start
    ensures r.Ok? && r.value >= 0 ==> s[r.value] == value && value !in s[r.value + 1..start + 1]
    ensures r.Ok? && r.value == -1 && |s| > 0 ==> value !in s[start - count + 1..start + 1]
  {
    if |s| == 0 then
      if (start != -1 && start != 0) || count != 0 then Err(ArgumentOutOfRange) else Ok(-1)
    else if start < 0 || start >= |s| || count < 0 || start - count + 1 < 0 then Err(ArgumentOutOfRange)
    else Ok(LastWhere(s, x => x == value, start - count + 1, start + 1))
  }

  /** The IndexOf and LastIndexOf vectors of Array.cs 706-782. */
  lemma IndexOfExamples()
    ensures IndexOf([7, 7, 8, 8, 9, 9], 8, 0, 6) == Ok(2)
    ensures IndexOf([7, 7, 8, 8, 9, 9], 8, 4, 2) == Ok(-1)
    ensures IndexOf([7, 7, 8, 8, 9, 9], 9, 2, 2) == Ok(-1)
    ensures IndexOf([7, 7, 8, 8, 9, 9], 9, 2, 3) == Ok(4)
    ensures LastIndexOf([7, 7, 8, 8, 9, 9], 8, 5, 5) == Ok(3)
    ensures LastIndexOf([7, 7, 8, 8, 9, 9], 8, 1, 1) == Ok(-1)
    ensures LastIndexOf([7, 7, 8, 8, 9, 9], 7, 3, 2) == Ok(-1)
    ensures LastIndexOf([7, 7, 8, 8, 9, 9], 7, 3, 3) == Ok(1)
  {
    var s := [7, 7, 8, 8, 9, 9];
    assert s[2] == 8 && s[1] != 8 && s[0] != 8;
    assert s[4] == 9 && s[3] != 9 && s[2] != 9;
    assert s[3] == 8 && s[4] != 8 && s[5] != 8;
    assert s[1] == 7 && s[2] != 7 && s[3] != 7;
  }

  /** The same search over a string array holding nulls (Array.cs 707-724). */
  lemma IndexOfStringExamples()
    ensures IndexOf([None, None, Some("Hello"), Some("Hello"), Some("Goodbye"), Some("Goodbye"), None, None], None, 0, 8) == Ok(0)
    ensures IndexOf([None, None, Some("Hello"), Some("Hello"), Some("Goodbye"), Some("Goodbye"), None, None], Some("Goodbye"), 2, 2) == Ok(-1)
    ensures LastIndexOf([None, None, Some("Hello"), Some("Hello"), Some("Goodbye"), Some("Goodbye"), None, None], None, 7, 7) == Ok(7)
    ensures LastIndexOf([None, None, Some("Hello"), Some("Hello"), Some("Goodbye"), Some("Goodbye"), None, None], Some("Goodbye"), 7, 3) == Ok(5)
  {
    var s: seq<Option<string>> := [None, None, Some("Hello"), Some("Hello"), Some("Goodbye"), Some("Goodbye"), None, None];
    assert s[0] == None;
    assert s[2] != Some("Goodbye") && s[3] != Some("Goodbye");
    assert s[7] == None;
    assert s[5] == Some("Goodbye") && s[6] != Some("Goodbye") && s[7] != Some("Goodbye");
  }

  ghost predicate SortedRange<T>(s: seq<T>, lo: nat, hi: nat, cmp: (T, T) -> int)
    requires lo <= hi <= |s|
  {
    forall i, j :: lo <= i < j < hi ==> cmp(s[i], s[j]) <= 0
  }

  /**
   * Array.BinarySearch(a, index, length, value, comparer). A non-negative
   * result is an index whose element compares equal to `value`; otherwise
   * the result is the bitwise complement of an index in the range and, when
   * the range is sorted, that index is the insertion point: everything
   * before it compares below `value` and everything from it on above.
   */
  method BinarySearch<T(!new)>(s: seq<T>, index: int, length: int, value: T, cmp: (T, T) -> int) returns (r: Result<int>)
    ensures r.Err? <==> index < 0 || length < 0 || index + length > |s|
    ensures r.Err? ==> r.error == if index < 0 || length < 0 then ArgumentOutOfRange else Argument
    ensures r.Ok? && r.value >= 0 ==> index <= r.value < index + length && cmp(s[r.value], value) == 0
    ensures r.Ok? && r.value < 0 ==> index <= -r.value - 1 <= index + length
    ensures r.Ok? && r.value < 0 && index < -r.value - 1 ==> cmp(s[-r.value - 2], value) < 0
    ensures r.Ok? && r.value < 0 && -r.value - 1 < index + length ==> cmp(s[-r.value - 1], value) > 0
    ensures r.Ok? && r.value < 0 && IsComparer(cmp) && SortedRange(s, index, index + length, cmp) ==>
      (forall k :: index <= k < -r.value - 1 ==> cmp(s[k], value) < 0)
      && (forall k :: -r.value - 1 <= k < index + length ==> cmp(s[k], value) > 0)
  {
    if index < 0 || length < 0 {
      return Err(ArgumentOutOfRange);
    }
    if index + length > |s| {
      return Err(Argument);
    }
    var lo, hi := index, index + length - 1;
    while lo <= hi
      invariant index <= lo <= hi + 1 <= index + length
      invariant index < lo ==> cmp(s[lo - 1], value) < 0
      invariant hi + 1 < index + length ==> cmp(s[hi + 1], value) > 0
      invariant IsComparer(cmp) && SortedRange(s, index, index + length, cmp) ==>
        (forall k :: index <= k < lo ==> cmp(s[k], value) < 0)
        && (forall k :: hi < k < index + length ==> cmp(s[k], value) > 0)
      decreases hi - lo
    {
      var mid := lo + (hi - lo) / 2;
      var c := cmp(s[mid], value);
      if c == 0 {
        return Ok(mid);
      }
      if c < 0 {
        if IsComparer(cmp) && SortedRange(s, index, index + length, cmp) {
          forall k | index <= k <= mid ensures cmp(s[k], value) < 0 {
            if k < mid {
              ComparerLeLt(cmp, s[k], s[mid], value);
            }
          }
        }
        lo := mid + 1;
      } else {
        if IsComparer(cmp) && SortedRange(s, index, index + length, cmp) {
          forall k | mid <= k < index + length ensures cmp(s[k], value) > 0 {
            if mid < k {
              ComparerLtLe(cmp, value, s[mid], s[k]);
            }
          }
        }
        hi := mid - 1;
      }
    }
    return Ok(-lo - 1);
  }

  /** The sorted int array the search vectors of Array.cs 104-157 use. */
  function SearchSample(): seq<Int32> {
    [1, 3, 6, 6, 8, 10, 12, 16]
  }

  lemma SearchSampleSorted(lo: nat, hi: nat)
    requires lo <= hi <= 8
    ensures SortedRange(SearchSample(), lo, hi, IntegerCompare)
  {
    var s := SearchSample();
    forall i, j | lo <= i < j < hi ensures IntegerCompare(s[i], s[j]) <= 0 {
      assert s[i] <= s[j];
    }
  }

  method BinarySearchFound() returns (eight: Result<int>)
    ensures eight == Ok(4)
  {
    var s := SearchSample();
    IntegerCompareIsComparer();
    eight := BinarySearch(s, 0, 8, 8, IntegerCompare);
    SearchSampleSorted(0, 8);
    assert IntegerCompare(s[4], 8) == 0;
  }

  method BinarySearchMissing() returns (missing: Result<int>)
    ensures missing == Ok(-9)
  {
    var s := SearchSample();
    IntegerCompareIsComparer();
    missing := BinarySearch(s, 0, 8, 99, IntegerCompare);
    SearchSampleBound();
  }

  method BinarySearchOutsideRange() returns (inRange: Result<int>)
    ensures inRange == Ok(-7)
  {
    var s := SearchSample();
    IntegerCompareIsComparer();
    inRange := BinarySearch(s, 1, 5, 16, IntegerCompare);
    SearchSampleBound();
  }

  /**
   * Every element of the sample lies in 1..16, so against the searched values
   * (anything from 0 to 99) the helper's difference `x - y` never wraps and
   * the helper as written orders them as IntegerCompare does.
   */
  lemma SearchSampleBound()
    ensures forall k :: 0 <= k < 8 ==> 1 <= SearchSample()[k] <= 16
    ensures forall k, v: Int32 :: 0 <= k < 8 && 0 <= v <= 99 ==>
      IntegerCompareAsWritten(SearchSample()[k], v) == SearchSample()[k] - v &&
      IntegerCompareAsWritten(v, SearchSample()[k]) == v - SearchSample()[k]
    ensures forall k, v: Int32 :: 0 <= k < 8 && 0 <= v <= 99 ==>
      (IntegerCompareAsWritten(SearchSample()[k], v) < 0 <==> IntegerCompare(SearchSample()[k], v) < 0) &&
      (IntegerCompareAsWritten(SearchSample()[k], v) == 0 <==> IntegerCompare(SearchSample()[k], v) == 0) &&
      (IntegerCompareAsWritten(v, SearchSample()[k]) < 0 <==> IntegerCompare(v, SearchSample()[k]) < 0)
  {
    var s := SearchSample();
    forall k, v: Int32 | 0 <= k < 8 && 0 <= v <= 99
      ensures (IntegerCompareAsWritten(s[k], v) < 0 <==> IntegerCompare(s[k], v) < 0) &&
        (IntegerCompareAsWritten(s[k], v) == 0 <==> IntegerCompare(s[k], v) == 0) &&
        (IntegerCompareAsWritten(v, s[k]) < 0 <==> IntegerCompare(v, s[k]) < 0)
    {
      IntegerCompareAsWrittenAgrees(s[k], v);
      IntegerCompareAsWrittenAgrees(v, s[k]);
    }
  }

  /** Array.Find: the first element satisfying `p`, or the default value. */
  function Find<T>(s: seq<T>, p: T -> bool, zero: T): (r: T)
    ensures (exists k :: 0 <= k < |s| && p(s[k])) ==>
      exists i :: 0 <= i < |s| && r == s[i] && p(s[i]) && forall k :: 0 <= k < i ==> !p(s[k])
    ensures (forall k :: 0 <= k < |s| ==> !p(s[k])) ==> r == zero
  {
    var i := FirstWhere(s, p, 0, |s|);
    if i < 0 then zero else s[i]
  }

  /** Array.FindLast: the last element satisfying `p`, or the default value. */
  function FindLast<T>(s: seq<T>, p: T -> bool, zero: T): (r: T)
    ensures (exists k :: 0 <= k < |s| && p(s[k])) ==>
      exists i :: 0 <= i < |s| && r == s[i] && p(s[i]) && forall k :: i < k < |s| ==> !p(s[k])
    ensures (forall k :: 0 <= k < |s| ==> !p(s[k])) ==> r == zero
  {
    var i := LastWhere(s, p, 0, |s|);
    if i < 0 then zero else s[i]
  }

  /**
   * Array.FindIndex(a, start, count, p): the first index in
   * [start, start + count) whose element satisfies `p`, or -1.
   */
  function FindIndex<T>(s: seq<T>, start: int, count: int, p: T -> bool): (r: Result<int>)
    ensures r.Err? <==> !(0 <= start <= |s| && 0 <= count <= |s| - start)
    ensures r.Err? ==> r.error == ArgumentOutOfRange
    ensures r.Ok? && r.value >= 0 ==>
      start <= r.value < start + count && p(s[r.value]) && forall k :: start <= k < r.value ==> !p(s[k])
    ensures r.Ok? && r.value < 0 ==> r.value == -1 && forall k :: start <= k < start + count ==> !p(s[k])
  {
    if start < 0 || start > |s| || count < 0 || count > |s| - start then Err(ArgumentOutOfRange)
    else Ok(FirstWhere(s, p, start, start + count))
  }

  /**
   * Array.FindLastIndex(a, start, count, p): the last index among the
   * `count` elements ending at `start` whose element satisfies `p`, or -1.
   */
  function FindLastIndex<T>(s: seq<T>, start: int, count: int, p: T -> bool): (r: Result<int>)
    ensures r.Ok? && |s| == 0 ==> r.value == -1
    ensures r.Ok? && |s| > 0 ==> 0 <= start < |s| && 0 <= count <= start + 1
    ensures |s| > 0 && 0 <= start < |s| && 0 <= count <= start + 1 ==> r.Ok?
    ensures r.Err? ==> r.error == ArgumentOutOfRange
    ensures r.Ok? && r.value >= 0 ==>
      start - count < r.value <= start && p(s[r.value]) && forall k :: r.value < k <= start ==> !p(s[k])
    ensures r.Ok? && r.value < 0 && |s| > 0 ==> r.value == -1 && forall k :: start - count < k <= start ==> !p(s[k])
  {
    if |s| == 0 then
      if start != -1 || count != 0 then Err(ArgumentOutOfRange) else Ok(-1)
    else if start < 0 || start >= |s| || count < 0 || start - count + 1 < 0 then Err(ArgumentOutOfRange)
    else Ok(LastWhere(s, p, start - count + 1, start + 1))
  }

  /** Array.Exists: some element satisfies `p`. */
  function Exists<T>(s: seq<T>, p: T -> bool): (r: bool)
    ensures r <==> exists k :: 0 <= k < |s| && p(s[k])
  {
    FirstWhere(s, p, 0, |s|) >= 0
  }

  /** Array.TrueForAll: every element satisfies `p`, vacuously so for an empty array. */
  function TrueForAll<T>(s: seq<T>, p: T -> bool): (r: bool)
    ensures r <==> forall k :: 0 <= k < |s| ==> p(s[k])
  {
    FirstWhere(s, x => !p(x), 0, |s|) < 0
  }

  /** Array.FindAll: the elements satisfying `p`, in their original order. */
  function FindAll<T>(s: seq<T>, p: T -> bool): (r: seq<T>)
    ensures forall x :: x in r ==> x in s && p(x)
    ensures forall k :: 0 <= k < |s| && p(s[k]) ==> s[k] in r
    ensures |r| <= |s|
  {
    if s == [] then []
    else if p(s[0]) then [s[0]] + FindAll(s[1..], p)
    else FindAll(s[1..], p)
  }

  /**
   * The indices of s[i..] whose elements satisfy `p`, in increasing order:
   * an index is listed exactly when its element matches.
   */
  ghost function MatchIndices<T>(s: seq<T>, p: T -> bool, i: nat): (idx: seq<nat>)
    requires i <= |s|
    ensures forall j :: 0 <= j < |idx| ==> i <= idx[j] < |s|
    ensures forall j1, j2 :: 0 <= j1 < j2 < |idx| ==> idx[j1] < idx[j2]
    ensures forall k :: i <= k < |s| ==> (p(s[k]) <==> k in idx)
    decreases |s| - i
  {
    if i == |s| then []
    else if p(s[i]) then [i] + MatchIndices(s, p, i + 1)
    else MatchIndices(s, p, i + 1)
  }

  /**
   * FindAll keeps the matching elements in their original order and with
   * their multiplicity: element j of the result is the element at the j-th
   * matching index.
   */
  lemma {:induction false} FindAllInOrder<T>(s: seq<T>, p: T -> bool, i: nat)
    requires i <= |s|
    ensures var r, idx := FindAll(s[i..], p), MatchIndices(s, p, i);
      |r| == |idx| && forall j :: 0 <= j < |r| ==> r[j] == s[idx[j]]
    decreases |s| - i
  {
    if i < |s| {
      assert s[i..][0] == s[i] && s[i..][1..] == s[i + 1..];
      var r', idx' := FindAll(s[i + 1..], p), MatchIndices(s, p, i + 1);
      FindAllInOrder(s, p, i + 1);
      if p(s[i]) {
        assert FindAll(s[i..], p) == [s[i]] + r';
        assert MatchIndices(s, p, i) == [i] + idx';
        var r, idx := [s[i]] + r', [i] + idx';
        forall j | 0 <= j < |r| ensures r[j] == s[idx[j]] {
          if j > 0 {
            assert r[j] == r'[j - 1] && idx[j] == idx'[j - 1];
          }
        }
      } else {
        assert FindAll(s[i..], p) == r';
        assert MatchIndices(s, p, i) == idx';
      }
    }
  }

  /** Find and FindLast over the string array of Array.cs 652-654 and 667-669, null as None. */
  lemma FindStringExamples()
    ensures var s := [Some("7"), Some("8"), Some("88"), Some("888"), Some("9")];
      var eight := (x: Option<string>) => x.Some? && |x.value| >= 1 && x.value[0] == '8';
      Find(s, eight, None) == Some("8") && FindLast(s, eight, None) == Some("888")
      && Find(s, x => x == Some("X"), None) == None && FindLast(s, x => x == Some("X"), None) == None
  {
    var s := [Some("7"), Some("8"), Some("88"), Some("888"), Some("9")];
    assert s[0] == Some("7") && s[1] == Some("8") && s[3] == Some("888") && s[4] == Some("9");
  }

  /** The Find vectors of Array.cs 638-679. */
  lemma FindExamples()
    ensures Exists([7, 8, 9], i => i == 8) && !Exists([7, 8, 9], i => i == -1)
    ensures FindAll([7, 8, 9], i => i % 2 != 0) == [7, 9]
    ensures FindIndex([40, 41, 42, 43, 44, 45, 46, 47, 48, 49], 1, 3, i => i == 43) == Ok(3)
    ensures FindIndex([40, 41, 42, 43, 44, 45, 46, 47, 48, 49], 1, 2, i => i == 43) == Ok(-1)
    ensures FindLastIndex([40, 41, 42, 43, 44, 45, 46, 47, 48, 49], 5, 3, i => i == 43) == Ok(3)
    ensures FindLastIndex([40, 41, 42, 43, 44, 45, 46, 47, 48, 49], 5, 2, i => i == 43) == Ok(-1)
    ensures TrueForAll([1, 2, 3, 4, 5], i => i > 0) && !TrueForAll([1, 2, 3, 4, 5], i => i == 3)
  {
    var s := [40, 41, 42, 43, 44, 45, 46, 47, 48, 49];
    assert s[3] == 43;
    assert [1, 2, 3, 4, 5][0] != 3;
    assert [7, 8, 9][1] == 8;
  }
}
