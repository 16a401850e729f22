// Buffer.MemoryCopy over pinned int arrays (Buffer.MemoryCopy.cs). A
// pointer is an array's byte block plus a byte offset into it; an int
// element g of a block is the little-endian word at bytes [4g, 4g + 4).
module MemoryCopies {
  import opened Wrappers
  import opened Bytes
  import opened ArrayOps

  /**
   * Buffer.MemoryCopy(source, destination, destinationSizeInBytes,
   * sourceBytesToCopy): when the bytes to copy exceed the declared size of
   * the destination an ArgumentOutOfRangeException is raised and nothing is
   * written; otherwise the bytes are moved as if through a temporary
   * buffer, so overlapping source and destination are handled. The caller
   * vouches that the memory behind both pointers exists.
   */
  method MemoryCopy(src: array<byte>, srcOffset: nat, dst: array<byte>, dstOffset: nat, destinationSizeInBytes: nat, sourceBytesToCopy: nat)
    returns (r: Result<()>)
    requires srcOffset + sourceBytesToCopy <= src.Length
    requires sourceBytesToCopy <= destinationSizeInBytes ==> dstOffset + sourceBytesToCopy <= dst.Length
    modifies dst
    ensures r.Err? <==> sourceBytesToCopy > destinationSizeInBytes
    ensures r.Err? ==> r.error == ArgumentOutOfRange && dst[..] == old(dst[..])
    ensures r.Ok? ==> dst[..] == Spliced(old(dst[..]), dstOffset, old(src[srcOffset..srcOffset + sourceBytesToCopy]))
  {
    if sourceBytesToCopy > destinationSizeInBytes {
      return Err(ArgumentOutOfRange);
    }
    MoveRange(src, srcOffset, dst, dstOffset, sourceBytesToCopy);
    return Ok(());
  }

  /** Int element g of a byte block. */
  function IntAt(s: seq<byte>, g: nat): (v: nat)
    requires 4 * g + 4 <= |s|
    ensures v < Pow256(4)
  {
    FromLittleEndian(s[4 * g..4 * g + 4])
  }

  /** The 0, 1, 2, ... identity contents the tests fill their int arrays with. */
  function Identity(n: nat): (r: seq<nat>)
    ensures |r| == n && forall g :: 0 <= g < n ==> r[g] == g
  {
    seq(n, g => g)
  }

  lemma {:induction false} WordsAppend(values: seq<nat>, x: nat)
    requires forall k :: 0 <= k < |values| ==> values[k] < Pow256(4)
    requires x < Pow256(4)
    ensures Words(values + [x], 4) == Words(values, 4) + LittleEndian(x, 4)
  {
    if values == [] {
      assert [x][1..] == [];
    } else {
      assert (values + [x])[1..] == values[1..] + [x];
      WordsAppend(values[1..], x);
    }
  }

  /** `for (g = 0; g < n; g++) array[g] = g;` over a fresh int array of n elements. */
  method FillIdentity(n: nat) returns (block: array<byte>)
    requires n < Pow256(4)
    ensures fresh(block) && block.Length == 4 * n
    ensures forall g :: 0 <= g < n ==> IntAt(block[..], g) == g
  {
    block := new byte[4 * n](_ => 0);
    var g := 0;
    while g < n
      invariant 0 <= g <= n
      invariant block[..4 * g] == Words(Identity(g), 4)
    {
      var w := LittleEndian(g, 4);
      StoreInt(block, g, g);
      assert Words(Identity(g + 1), 4) == Words(Identity(g), 4) + w by {
        assert Identity(g + 1) == Identity(g) + [g];
        WordsAppend(Identity(g), g);
      }
      g := g + 1;
    }
    assert block[..] == block[..4 * n];
    IdentityInts(block[..], n);
  }

  /** `*(int*)(block + 4 * g) = value`: the four little-endian bytes of value at int g. */
  method StoreInt(block: array<byte>, g: nat, value: nat)
    requires 4 * g + 4 <= block.Length && value < Pow256(4)
    modifies block
    ensures block[..] == Spliced(old(block[..]), 4 * g, LittleEndian(value, 4))
    ensures block[..4 * g + 4] == old(block[..4 * g]) + LittleEndian(value, 4)
  {
    var w := LittleEndian(value, 4);
    block[4 * g], block[4 * g + 1], block[4 * g + 2], block[4 * g + 3] := w[0], w[1], w[2], w[3];
  }

  /** Every int of the identity layout holds its own index. */
  lemma IdentityInts(s: seq<byte>, n: nat)
    requires n < Pow256(4) && s == Words(Identity(n), 4)
    ensures forall g :: 0 <= g < n ==> IntAt(s, g) == g
  {
    forall g | 0 <= g < n ensures IntAt(s, g) == g {
      WordsAt(Identity(n), 4, g);
    }
  }

  /**
   * After a copy of 4 * m bytes from int e of a block into int f of
   * another, int f + j of the destination is int e + j of the source.
   */
  lemma CopiedIntAt(d: seq<byte>, f: nat, s: seq<byte>, e: nat, m: nat, j: nat)
    requires 4 * (e + m) <= |s| && 4 * (f + m) <= |d| && j < m
    ensures 4 * (f + j) + 4 <= |Spliced(d, 4 * f, s[4 * e..4 * (e + m)])|
    ensures IntAt(Spliced(d, 4 * f, s[4 * e..4 * (e + m)]), f + j) == IntAt(s, e + j)
  {
    var w := s[4 * e..4 * (e + m)];
    var t := Spliced(d, 4 * f, w);
    var a, b := t[4 * (f + j)..4 * (f + j) + 4], s[4 * (e + j)..4 * (e + j) + 4];
    forall i | 0 <= i < 4 ensures a[i] == b[i] {
      var k := 4 * (f + j) + i;
      assert a[i] == t[k] && 4 * f <= k < 4 * f + |w|;
      assert t[k] == w[k - 4 * f] == s[4 * e + (k - 4 * f)];
      assert 4 * e + (k - 4 * f) == 4 * (e + j) + i;
    }
    assert a == b;
  }

  /** Buffer.MemoryCopy.cs 10-29: 25000 ints into a 30000-int array. */
  method CopyToStart() returns (src: array<byte>, dst: array<byte>)
    ensures src.Length == 100000 && dst.Length == 120000
    ensures forall g :: 0 <= g < 25000 ==> IntAt(dst[..], g) == IntAt(src[..], g) == g
  {
    src := FillIdentity(25000);
    dst := new byte[120000](_ => 0);
    ghost var d0 := dst[..];
    var r := MemoryCopy(src, 0, dst, 0, 30000 * 4, 25000 * 4);
    forall g | 0 <= g < 25000 ensures IntAt(dst[..], g) == IntAt(src[..], g) {
      CopiedIntAt(d0, 0, src[..], 0, 25000, g);
    }
  }

  /** Buffer.MemoryCopy.cs 31-50: the same copy to destination int 5000. */
  method CopyToOffset() returns (src: array<byte>, dst: array<byte>)
    ensures src.Length == 100000 && dst.Length == 120000
    ensures forall g :: 0 <= g < 25000 ==> IntAt(dst[..], g + 5000) == IntAt(src[..], g) == g
  {
    src := FillIdentity(25000);
    dst := new byte[120000](_ => 0);
    ghost var d0 := dst[..];
    var r := MemoryCopy(src, 0, dst, 5000 * 4, 30000 * 4, 25000 * 4);
    forall g | 0 <= g < 25000 ensures IntAt(dst[..], g + 5000) == IntAt(src[..], g) {
      CopiedIntAt(d0, 5000, src[..], 0, 25000, g);
    }
  }

  /** Buffer.MemoryCopy.cs 52-71: 20000 ints from source int 5000 to destination int 6000. */
  method CopyBetweenOffsets() returns (src: array<byte>, dst: array<byte>)
    ensures src.Length == 100000 && dst.Length == 120000
    ensures forall g :: 5000 <= g < 25000 ==> IntAt(dst[..], g + 1000) == IntAt(src[..], g) == g
  {
    src := FillIdentity(25000);
    dst := new byte[120000](_ => 0);
    ghost var d0 := dst[..];
    var r := MemoryCopy(src, 5000 * 4, dst, 6000 * 4, 30000 * 4, 20000 * 4);
    forall g | 5000 <= g < 25000 ensures IntAt(dst[..], g + 1000) == IntAt(src[..], g) {
      CopiedIntAt(d0, 6000, src[..], 5000, 20000, g - 5000);
    }
  }

  /** Buffer.MemoryCopy.cs 73-111: within one 200-int array to int `shift`, copying `count` ints. */
  method CopyOverlapping(shift: nat, count: nat) returns (a: array<byte>)
    requires shift + count <= 200
    ensures a.Length == 800
    ensures forall g :: shift <= g < shift + count ==> IntAt(a[..], g) == g - shift
  {
    a := FillIdentity(200);
    ghost var a0 := a[..];
    var r := MemoryCopy(a, 0, a, 4 * shift, 4 * 200, 4 * count);
    ShiftedIdentity(a0, shift, count);
  }

  lemma ShiftedIdentity(a0: seq<byte>, shift: nat, count: nat)
    requires |a0| == 800 && shift + count <= 200
    requires forall g :: 0 <= g < 200 ==> IntAt(a0, g) == g
    ensures var t := Spliced(a0, 4 * shift, a0[0..4 * count]);
      forall g :: shift <= g < shift + count ==> IntAt(t, g) == g - shift
  {
    var t := Spliced(a0, 4 * shift, a0[0..4 * count]);
    forall g | shift <= g < shift + count ensures IntAt(t, g) == g - shift {
      CopiedIntAt(a0, shift, a0, 0, count, g - shift);
    }
  }

  /** The two overlap vectors: 100 ints moved up by 50, and 15 ints moved up by 5. */
  method OverlapExamples() returns (large: array<byte>, small: array<byte>)
    ensures large.Length == 800 && small.Length == 800
    ensures forall g :: 50 <= g < 150 ==> IntAt(large[..], g) == g - 50
    ensures forall g :: 5 <= g < 20 ==> IntAt(small[..], g) == g - 5
  {
    large := CopyOverlapping(50, 100);
    small := CopyOverlapping(5, 15);
  }

  /** Buffer.MemoryCopy.cs 113-138: 20000 ints into a 5000-int destination is refused. */
  method DestinationTooSmall() returns (r: Result<()>)
    ensures r == Err(ArgumentOutOfRange)
  {
    var src := FillIdentity(25000);
    var dst := new byte[20000](_ => 0);
    r := MemoryCopy(src, 0, dst, 0, 5000 * 4, 20000 * 4);
  }
}
