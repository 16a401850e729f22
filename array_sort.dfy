// The oracle the sort tests of Array.cs compare Array.Sort against:
// SimpleSort, an exchange sort over a clone, and ArraysAreEqual, an
// element-wise comparison through the comparer. The agreement lemma says
// why any correct sort of the range passes TestSortHelper.
module ArraySort {
  import opened Comparers
  import opened ArrayOps

  /** Exchanging two positions of a range permutes that range and nothing else. */
  lemma SwapInRange<T>(s: seq<T>, lo: nat, hi: nat, i: nat, j: nat)
    requires lo <= i < j < hi <= |s|
    ensures var t := s[i := s[j]][j := s[i]];
      multiset(t[lo..hi]) == multiset(s[lo..hi]) && t[..lo] == s[..lo] && t[hi..] == s[hi..]
  {
    var t := s[i := s[j]][j := s[i]];
    assert t[lo..hi] == s[lo..hi][i - lo := s[j]][j - lo := s[i]];
  }

  /**
   * SimpleSort(a, index, length, comparer): a clone of `a` whose range
   * [index, index + length) is put in ascending order by exchanging, for
   * each position, the smallest remaining element into it. The input array
   * is left alone.
   */
  method SimpleSort<T(!new)>(a: array<T>, index: nat, length: nat, cmp: (T, T) -> int) returns (result: array<T>)
    requires index + length <= a.Length
    ensures fresh(result) && result.Length == a.Length
    ensures IsComparer(cmp) ==> SortedRange(result[..], index, index + length, cmp)
    ensures multiset(result[index..index + length]) == multiset(a[index..index + length])
    ensures result[..index] == a[..index] && result[index + length..] == a[index + length..]
  {
    result := new T[a.Length](k requires 0 <= k < a.Length reads a => a[k]);
    assert result[..] == a[..];
    SortRange(result, index, index + length, cmp);
  }

  /** The selection sort SimpleSort runs on its clone, over [index, hi). */
  method SortRange<T(!new)>(r: array<T>, index: nat, hi: nat, cmp: (T, T) -> int)
    requires index <= hi <= r.Length
    modifies r
    ensures IsComparer(cmp) ==> SortedRange(r[..], index, hi, cmp)
    ensures multiset(r[index..hi]) == multiset(old(r[index..hi]))
    ensures r[..index] == old(r[..index]) && r[hi..] == old(r[hi..])
  {
    if hi - index < 2 {
      return;
    }
    var i := index;
    ghost var a0 := r[..];
    while i < hi - 1
      invariant Placed(r[..], a0, index, i, hi, cmp)
    {
      ghost var before := r[..];
      PlaceMinimum(r, index, i, hi, cmp);
      PlacedStep(before, r[..], a0, index, i, hi, cmp);
      i := i + 1;
    }
    PlacedDone(r[..], a0, index, hi, cmp);
  }

  /**
   * What SimpleSort's outer loop keeps: the range is a permutation of the
   * original with the rest untouched, whatever the comparer; and, when the
   * comparer is a total order, positions [index, i) hold their final
   * elements.
   */
  ghost predicate Placed<T(!new)>(r: seq<T>, a0: seq<T>, index: nat, i: nat, hi: nat, cmp: (T, T) -> int) {
    index <= i <= hi <= |r| == |a0|
    && multiset(r[index..hi]) == multiset(a0[index..hi])
    && r[..index] == a0[..index] && r[hi..] == a0[hi..]
    && (IsComparer(cmp) ==> PlacedOrder(r, index, i, hi, cmp))
  }

  ghost predicate PlacedOrder<T>(r: seq<T>, index: nat, i: nat, hi: nat, cmp: (T, T) -> int)
    requires index <= i <= hi <= |r|
  {
    SortedRange(r, index, i, cmp)
    && (forall p, q :: index <= p < i <= q < hi ==> cmp(r[p], r[q]) <= 0)
  }

  lemma PlacedStep<T(!new)>(r: seq<T>, t: seq<T>, a0: seq<T>, index: nat, i: nat, hi: nat, cmp: (T, T) -> int)
    requires Placed(r, a0, index, i, hi, cmp) && i < hi && |t| == |r|
    requires t[..i] == r[..i] && t[hi..] == r[hi..]
    requires multiset(t[i..hi]) == multiset(r[i..hi])
    requires IsComparer(cmp) ==> Least(t, index, i, hi, cmp)
    ensures Placed(t, a0, index, i + 1, hi, cmp)
  {
    PlacedStepMultiset(r, t, index, i, hi);
    assert t[..index] == t[..i][..index] && r[..index] == r[..i][..index];
    if IsComparer(cmp) {
      PlacedOrderStep(r, t, index, i, hi, cmp);
    }
  }

  /** Position i holds a least element of [i, hi), and the prefix lies below the whole of it. */
  ghost predicate Least<T>(t: seq<T>, index: nat, i: nat, hi: nat, cmp: (T, T) -> int)
    requires index <= i < hi <= |t|
  {
    (forall p, q :: index <= p < i <= q < hi ==> cmp(t[p], t[q]) <= 0)
    && (forall k :: i < k < hi ==> cmp(t[i], t[k]) <= 0)
  }

  lemma PlacedOrderStep<T>(r: seq<T>, t: seq<T>, index: nat, i: nat, hi: nat, cmp: (T, T) -> int)
    requires index <= i < hi <= |r| == |t|
    requires PlacedOrder(r, index, i, hi, cmp) && t[..i] == r[..i]
    requires Least(t, index, i, hi, cmp)
    ensures PlacedOrder(t, index, i + 1, hi, cmp)
  {
    forall p, q | index <= p < q < i + 1 ensures cmp(t[p], t[q]) <= 0 {
      assert t[p] == t[..i][p];
      if q < i {
        assert t[q] == t[..i][q] && r[p] == r[..i][p] && r[q] == r[..i][q];
      }
    }
  }

  lemma PlacedStepMultiset<T>(r: seq<T>, t: seq<T>, index: nat, i: nat, hi: nat)
    requires index <= i < hi <= |r| == |t|
    requires t[..i] == r[..i]
    requires multiset(t[i..hi]) == multiset(r[i..hi])
    ensures multiset(t[index..hi]) == multiset(r[index..hi])
  {
    assert t[index..hi] == t[index..i] + t[i..hi];
    assert r[index..hi] == r[index..i] + r[i..hi];
    assert t[index..i] == t[..i][index..] && r[index..i] == r[..i][index..];
  }

  lemma PlacedDone<T(!new)>(r: seq<T>, a0: seq<T>, index: nat, hi: nat, cmp: (T, T) -> int)
    requires index + 1 < hi && Placed(r, a0, index, hi - 1, hi, cmp)
    ensures IsComparer(cmp) ==> SortedRange(r, index, hi, cmp)
  {
  }

  /**
   * One pass of SimpleSort's inner loop: scanning j over (i, hi), whenever
   * the element held at i compares above result[j] the two are exchanged,
   * so that afterwards position i holds a least element of [i, hi).
   */
  method PlaceMinimum<T(!new)>(result: array<T>, index: nat, i: nat, hi: nat, cmp: (T, T) -> int)
    requires index <= i < hi <= result.Length
    requires IsComparer(cmp) ==> forall p, q :: index <= p < i <= q < hi ==> cmp(result[p], result[q]) <= 0
    modifies result
    ensures result[..i] == old(result[..i]) && result[hi..] == old(result[hi..])
    ensures multiset(result[i..hi]) == multiset(old(result[i..hi]))
    ensures IsComparer(cmp) ==> Least(result[..], index, i, hi, cmp)
  {
    ghost var s0 := result[..];
    var tmp := result[i];
    var j := i + 1;
    while j < hi
      invariant tmp == result[i]
      invariant Scanned(result[..], s0, index, i, j, hi, cmp)
    {
      ghost var before := result[..];
      if cmp(tmp, result[j]) > 0 {
        result[i] := result[j];
        result[j] := tmp;
        tmp := result[i];
      }
      assert result[..] == ScanStep(before, i, j, cmp);
      ScanStepKeeps(before, s0, index, i, j, hi, cmp);
      j := j + 1;
    }
  }

  /** What the inner loop of SimpleSort keeps once it has scanned (i, j). */
  ghost predicate Scanned<T(!new)>(r: seq<T>, s0: seq<T>, index: nat, i: nat, j: nat, hi: nat, cmp: (T, T) -> int) {
    index <= i < j <= hi <= |r| == |s0|
    && r[..i] == s0[..i] && r[hi..] == s0[hi..]
    && multiset(r[i..hi]) == multiset(s0[i..hi])
    && (IsComparer(cmp) ==>
          (forall p, q :: index <= p < i <= q < hi ==> cmp(r[p], r[q]) <= 0)
          && (forall k :: i < k < j ==> cmp(r[i], r[k]) <= 0))
  }

  /** One step of the inner loop: exchange r[i] and r[j] when r[i] compares above r[j]. */
  function ScanStep<T>(r: seq<T>, i: nat, j: nat, cmp: (T, T) -> int): seq<T>
    requires i < j < |r|
  {
    if cmp(r[i], r[j]) > 0 then r[i := r[j]][j := r[i]] else r
  }

  lemma ScanStepKeeps<T(!new)>(r: seq<T>, s0: seq<T>, index: nat, i: nat, j: nat, hi: nat, cmp: (T, T) -> int)
    requires Scanned(r, s0, index, i, j, hi, cmp) && j < hi
    ensures Scanned(ScanStep(r, i, j, cmp), s0, index, i, j + 1, hi, cmp)
  {
    var t := ScanStep(r, i, j, cmp);
    if cmp(r[i], r[j]) > 0 {
      assert t == r[i := r[j]][j := r[i]];
      SwapInRange(r, i, hi, i, j);
      if IsComparer(cmp) {
        SwapKeepsMinimum(r, i, j, cmp);
        SwapKeepsPrefixBelow(r, index, i, j, hi, cmp);
        assert forall p, q :: index <= p < i <= q < hi ==> cmp(t[p], t[q]) <= 0;
        assert forall k :: i < k < j + 1 ==> cmp(t[i], t[k]) <= 0;
      }
    } else {
      assert t == r;
    }
  }

  lemma SwapKeepsMinimum<T(!new)>(r: seq<T>, i: nat, j: nat, cmp: (T, T) -> int)
    requires IsComparer(cmp)
    requires i < j < |r| && cmp(r[i], r[j]) > 0
    requires forall k :: i < k < j ==> cmp(r[i], r[k]) <= 0
    ensures var t := r[i := r[j]][j := r[i]]; forall k :: i < k < j + 1 ==> cmp(t[i], t[k]) <= 0
  {
    var t := r[i := r[j]][j := r[i]];
    forall k | i < k < j + 1 ensures cmp(t[i], t[k]) <= 0 {
      if k < j {
        BelowThenAtMost(cmp, r[j], r[i], r[k]);
      }
    }
  }

  lemma SwapKeepsPrefixBelow<T>(r: seq<T>, index: nat, i: nat, j: nat, hi: nat, cmp: (T, T) -> int)
    requires index <= i < j < hi <= |r|
    requires forall p, q :: index <= p < i <= q < hi ==> cmp(r[p], r[q]) <= 0
    ensures var t := r[i := r[j]][j := r[i]]; forall p, q :: index <= p < i <= q < hi ==> cmp(t[p], t[q]) <= 0
  {
    var t := r[i := r[j]][j := r[i]];
    forall p, q | index <= p < i <= q < hi ensures cmp(t[p], t[q]) <= 0 {
      if q == i {
        assert t[q] == r[j];
      } else if q == j {
        assert t[q] == r[i];
      }
    }
  }

  /** x below y and y at most z puts x below z, with "x below y" read as cmp(y, x) > 0. */
  lemma BelowThenAtMost<T(!new)>(cmp: (T, T) -> int, x: T, y: T, z: T)
    requires IsComparer(cmp)
    requires cmp(y, x) > 0 && cmp(y, z) <= 0
    ensures cmp(x, z) < 0
  {
    ComparerLtLe(cmp, x, y, z);
  }

  /**
   * ArraysAreEqual(a, b, comparer): the same length, and each pair of
   * elements at the same index compares equal. Passing one array twice is
   * a mistake in the test, which the helper rejects.
   */
  method ArraysAreEqual<T>(a: array<T>, b: array<T>, cmp: (T, T) -> int) returns (eq: bool)
    requires a != b
    ensures eq <==> a.Length == b.Length && forall k :: 0 <= k < a.Length ==> cmp(a[k], b[k]) == 0
  {
    if a.Length != b.Length {
      return false;
    }
    var i := 0;
    while i < a.Length
      invariant 0 <= i <= a.Length
      invariant forall k :: 0 <= k < i ==> cmp(a[k], b[k]) == 0
    {
      if cmp(a[i], b[i]) != 0 {
        return false;
      }
      i := i + 1;
    }
    return true;
  }

  /** How many elements of `s` compare at most `v`. */
  function CountLe<T>(s: seq<T>, v: T, cmp: (T, T) -> int): (n: nat)
    ensures n <= |s|
  {
    if s == [] then 0 else (if cmp(s[0], v) <= 0 then 1 else 0) + CountLe(s[1..], v, cmp)
  }

  lemma {:induction false} CountLeAppend<T>(s: seq<T>, t: seq<T>, v: T, cmp: (T, T) -> int)
    ensures CountLe(s + t, v, cmp) == CountLe(s, v, cmp) + CountLe(t, v, cmp)
  {
    if s != [] {
      assert (s + t)[0] == s[0] && (s + t)[1..] == s[1..] + t;
      CountLeAppend(s[1..], t, v, cmp);
    } else {
      assert s + t == t;
    }
  }

  /** The count depends only on the multiset of elements. */
  lemma {:induction false} CountLePermutation<T>(s: seq<T>, t: seq<T>, v: T, cmp: (T, T) -> int)
    requires multiset(s) == multiset(t)
    ensures CountLe(s, v, cmp) == CountLe(t, v, cmp)
  {
    if s != [] {
      assert s[0] in multiset(s);
      var i :| 0 <= i < |t| && t[i] == s[0];
      RemoveAtMultiset(s, t, i);
      CountLePermutation(s[1..], t[..i] + t[i + 1..], v, cmp);
      CountLeRemoveAt(t, i, v, cmp);
    }
  }

  /** Taking the first element off s and a copy of it off t keeps the multisets equal. */
  lemma RemoveAtMultiset<T>(s: seq<T>, t: seq<T>, i: nat)
    requires s != [] && i < |t| && t[i] == s[0] && multiset(s) == multiset(t)
    ensures multiset(s[1..]) == multiset(t[..i] + t[i + 1..])
  {
    var x := s[0];
    assert t == t[..i] + [x] + t[i + 1..];
    assert s == [x] + s[1..];
    assert multiset(t) == multiset(t[..i]) + multiset{x} + multiset(t[i + 1..]);
    assert multiset(s) == multiset{x} + multiset(s[1..]);
    assert multiset(t[..i] + t[i + 1..]) == multiset(t[..i]) + multiset(t[i + 1..]);
    assert multiset(s[1..]) == multiset(s) - multiset{x};
    assert multiset(t[..i] + t[i + 1..]) == multiset(t) - multiset{x};
  }

  /** The count of t is the count of t[i] alone plus the count of the rest. */
  lemma CountLeRemoveAt<T>(t: seq<T>, i: nat, v: T, cmp: (T, T) -> int)
    requires i < |t|
    ensures CountLe(t, v, cmp) == (if cmp(t[i], v) <= 0 then 1 else 0) + CountLe(t[..i] + t[i + 1..], v, cmp)
  {
    SplitAround(t, i);
    CountLeSplit(t[..i], t[i], t[i + 1..], v, cmp);
  }

  lemma SplitAround<T>(t: seq<T>, i: nat)
    requires i < |t|
    ensures t[..i] + [t[i]] + t[i + 1..] == t
  {
  }

  lemma CountLeSplit<T>(a: seq<T>, x: T, b: seq<T>, v: T, cmp: (T, T) -> int)
    ensures CountLe(a + [x] + b, v, cmp) == (if cmp(x, v) <= 0 then 1 else 0) + CountLe(a + b, v, cmp)
  {
    CountLeAppend(a + [x], b, v, cmp);
    CountLeAppend(a, [x], v, cmp);
    CountLeAppend(a, b, v, cmp);
    CountLeSingle(x, v, cmp);
  }

  lemma CountLeSingle<T>(x: T, v: T, cmp: (T, T) -> int)
    ensures CountLe([x], v, cmp) == if cmp(x, v) <= 0 then 1 else 0
  {
    assert [x][1..] == [];
  }

  /** In a sequence sorted under cmp, the first k + 1 elements all compare at most s[k]. */
  lemma {:induction false} CountLeSortedPrefix<T(!new)>(s: seq<T>, k: nat, cmp: (T, T) -> int)
    requires IsComparer(cmp)
    requires k < |s| && SortedRange(s, 0, |s|, cmp)
    ensures CountLe(s[..k + 1], s[k], cmp) == k + 1
  {
    CountLeSuffix(s, 0, k, cmp);
    assert s[0..k + 1] == s[..k + 1];
  }

  lemma {:induction false} CountLeSuffix<T(!new)>(s: seq<T>, m: nat, k: nat, cmp: (T, T) -> int)
    requires IsComparer(cmp)
    requires m <= k < |s| && SortedRange(s, 0, |s|, cmp)
    ensures CountLe(s[m..k + 1], s[k], cmp) == k + 1 - m
    decreases k - m
  {
    assert s[m..k + 1][0] == s[m];
    assert s[m..k + 1][1..] == s[m + 1..k + 1];
    if m < k {
      CountLeSuffix(s, m + 1, k, cmp);
    }
  }

  /** Nothing at or after position k compares at most v when v is below s[k]. */
  lemma {:induction false} CountLeSortedTail<T(!new)>(s: seq<T>, k: nat, v: T, cmp: (T, T) -> int)
    requires IsComparer(cmp)
    requires k <= |s| && SortedRange(s, 0, |s|, cmp)
    requires k < |s| ==> cmp(v, s[k]) < 0
    ensures CountLe(s[k..], v, cmp) == 0
    decreases |s| - k
  {
    if k < |s| {
      assert s[k..][1..] == s[k + 1..];
      if k + 1 < |s| {
        ComparerLtLe(cmp, v, s[k], s[k + 1]);
      }
      CountLeSortedTail(s, k + 1, v, cmp);
    }
  }

  /** If two sorted permutations differed at k, they would disagree on how many elements lie at most the smaller one. */
  lemma SortedPermutationsAgreeAt<T(!new)>(s: seq<T>, t: seq<T>, k: nat, cmp: (T, T) -> int)
    requires IsComparer(cmp)
    requires multiset(s) == multiset(t) && |s| == |t|
    requires SortedRange(s, 0, |s|, cmp) && SortedRange(t, 0, |t|, cmp)
    requires k < |s|
    ensures cmp(s[k], t[k]) >= 0
  {
    if cmp(s[k], t[k]) < 0 {
      CountLeSortedPrefix(s, k, cmp);
      CountLeSortedTail(t, k, s[k], cmp);
      assert s == s[..k + 1] + s[k + 1..];
      assert t == t[..k] + t[k..];
      CountLeAppend(s[..k + 1], s[k + 1..], s[k], cmp);
      CountLeAppend(t[..k], t[k..], s[k], cmp);
      CountLePermutation(s, t, s[k], cmp);
    }
  }

  /**
   * Two permutations of one multiset, both sorted under a comparer,
   * compare equal position by position.
   */
  lemma SortedPermutationsAgree<T(!new)>(s: seq<T>, t: seq<T>, cmp: (T, T) -> int)
    requires IsComparer(cmp)
    requires multiset(s) == multiset(t)
    requires SortedRange(s, 0, |s|, cmp) && SortedRange(t, 0, |t|, cmp)
    ensures |s| == |t|
    ensures forall k :: 0 <= k < |s| ==> cmp(s[k], t[k]) == 0
  {
    assert |s| == |multiset(s)| == |t|;
    forall k | 0 <= k < |s| ensures cmp(s[k], t[k]) == 0 {
      SortedPermutationsAgreeAt(s, t, k, cmp);
      SortedPermutationsAgreeAt(t, s, k, cmp);
    }
  }

  /** A range of a sequence sorted on that range is a sorted sequence of its own. */
  lemma SortedRangeSlice<T>(s: seq<T>, lo: nat, hi: nat, cmp: (T, T) -> int)
    requires lo <= hi <= |s| && SortedRange(s, lo, hi, cmp)
    ensures SortedRange(s[lo..hi], 0, hi - lo, cmp)
  {
    var u := s[lo..hi];
    forall i, j | 0 <= i < j < hi - lo ensures cmp(u[i], u[j]) <= 0 {
      assert u[i] == s[lo + i] && u[j] == s[lo + j];
    }
  }

  /**
   * TestSortHelper: an array that is sorted on [index, index + length),
   * permuted only within that range and unchanged outside it -- which is
   * what any correct Array.Sort(a, index, length, comparer) leaves --
   * satisfies ArraysAreEqual against the SimpleSort oracle.
   */
  lemma SortAgreesWithSimpleSort<T(!new)>(original: seq<T>, sorted: seq<T>, control: seq<T>, index: nat, length: nat, cmp: (T, T) -> int)
    requires IsComparer(cmp)
    requires index + length <= |original| == |sorted| == |control|
    requires SortedRange(sorted, index, index + length, cmp) && SortedRange(control, index, index + length, cmp)
    requires multiset(sorted[index..index + length]) == multiset(original[index..index + length])
    requires multiset(control[index..index + length]) == multiset(original[index..index + length])
    requires sorted[..index] == original[..index] && sorted[index + length..] == original[index + length..]
    requires control[..index] == original[..index] && control[index + length..] == original[index + length..]
    ensures forall k :: 0 <= k < |sorted| ==> cmp(sorted[k], control[k]) == 0
  {
    var hi := index + length;
    var u, w := sorted[index..hi], control[index..hi];
    SortedRangeSlice(sorted, index, hi, cmp);
    SortedRangeSlice(control, index, hi, cmp);
    SortedPermutationsAgree(u, w, cmp);
    forall k | 0 <= k < |sorted| ensures cmp(sorted[k], control[k]) == 0 {
      if k < index {
        assert sorted[k] == sorted[..index][k];
        assert control[k] == control[..index][k];
      } else if k >= hi {
        assert sorted[k] == sorted[hi..][k - hi];
        assert control[k] == control[hi..][k - hi];
      } else {
        SliceAt(sorted, index, hi, k);
        SliceAt(control, index, hi, k);
      }
    }
  }

  /** Element k of a slice starting at lo is element lo + k of the sequence. */
  lemma SliceAt<T>(s: seq<T>, lo: nat, hi: nat, k: nat)
    requires lo <= k < hi <= |s|
    ensures s[lo..hi][k - lo] == s[k]
  {
  }
}
