// Bytes and the little-endian layout of multi-byte integers, shared by the
// Buffer byte views, Buffer.MemoryCopy and Guid.ToByteArray.
module Bytes {

  newtype byte = x: int | 0 <= x < 0x100

  /** 256^n: the number of values an n-byte unsigned integer can take. */
  function Pow256(n: nat): (r: nat)
    ensures r >= 1
  {
    if n == 0 then 1 else 256 * Pow256(n - 1)
  }

  /** The `width` bytes of `v`, least significant first. */
  function LittleEndian(v: nat, width: nat): (r: seq<byte>)
    requires v < Pow256(width)
    ensures |r| == width
    ensures width > 0 ==> r[0] as int == v % 256
  {
    if width == 0 then [] else [(v % 256) as byte] + LittleEndian(v / 256, width - 1)
  }

  /** The unsigned integer whose bytes, least significant first, are `s`. */
  function FromLittleEndian(s: seq<byte>): (v: nat)
    ensures v < Pow256(|s|)
  {
    if s == [] then 0 else s[0] as nat + 256 * FromLittleEndian(s[1..])
  }

  lemma FromLittleEndian4(s: seq<byte>)
    requires |s| == 4
    ensures FromLittleEndian(s) == s[0] as int + 0x100 * s[1] as int + 0x1_0000 * s[2] as int + 0x100_0000 * s[3] as int
  {
    assert s[1..][1..] == s[2..] && s[2..][1..] == s[3..] && s[3..][1..] == [];
    assert FromLittleEndian(s[3..]) == s[3] as int;
    assert FromLittleEndian(s[2..]) == s[2] as int + 0x100 * s[3] as int;
  }

  lemma {:induction false} LittleEndianRoundTrip(v: nat, width: nat)
    requires v < Pow256(width)
    ensures FromLittleEndian(LittleEndian(v, width)) == v
  {
    if width > 0 {
      LittleEndianRoundTrip(v / 256, width - 1);
      assert LittleEndian(v, width)[1..] == LittleEndian(v / 256, width - 1);
    }
  }

  lemma {:induction false} FromLittleEndianRoundTrip(s: seq<byte>)
    ensures LittleEndian(FromLittleEndian(s), |s|) == s
  {
    if s != [] {
      FromLittleEndianRoundTrip(s[1..]);
      var v := FromLittleEndian(s);
      assert v % 256 == s[0] as int && v / 256 == FromLittleEndian(s[1..]);
    }
  }

  /** The value of the little-endian word of `width` bytes that starts at byte `k * width`. */
  function WordAt(s: seq<byte>, width: nat, k: nat): (v: nat)
    requires (k + 1) * width <= |s|
    ensures v < Pow256(width)
  {
    MulMonotone(k, width);
    FromLittleEndian(s[k * width..(k + 1) * width])
  }

  /** The words of `values`, each laid out little-endian in `width` bytes, one after another. */
  function Words(values: seq<nat>, width: nat): (r: seq<byte>)
    requires forall k :: 0 <= k < |values| ==> values[k] < Pow256(width)
    ensures |r| == |values| * width
  {
    if values == [] then [] else LittleEndian(values[0], width) + Words(values[1..], width)
  }

  lemma MulMonotone(k: nat, width: nat)
    ensures k * width <= (k + 1) * width
  {
  }

  /** Reading word k of the laid-out words gives back values[k]. */
  lemma {:induction false} WordsAt(values: seq<nat>, width: nat, k: nat)
    requires forall j :: 0 <= j < |values| ==> values[j] < Pow256(width)
    requires k < |values|
    ensures (k + 1) * width <= |Words(values, width)|
    ensures WordAt(Words(values, width), width, k) == values[k]
  {
    var w := Words(values, width);
    MulLeft(k + 1, |values|, width);
    if k == 0 {
      assert w[0..width] == LittleEndian(values[0], width);
      LittleEndianRoundTrip(values[0], width);
    } else {
      WordsAt(values[1..], width, k - 1);
      WordsTail(values, width, k);
    }
  }

  /** Word k of the layout is word k - 1 of the layout of the later values. */
  lemma WordsTail(values: seq<nat>, width: nat, k: nat)
    requires forall j :: 0 <= j < |values| ==> values[j] < Pow256(width)
    requires 0 < k < |values|
    ensures (k + 1) * width <= |Words(values, width)| && k * width <= |Words(values[1..], width)|
    ensures Words(values, width)[k * width..(k + 1) * width] == Words(values[1..], width)[(k - 1) * width..k * width]
  {
    var a := (k - 1) * width;
    assert 0 <= a && k * width == width + a && (k + 1) * width == width + a + width by {
      MulLeft(0, k - 1, width);
      MulSucc(k - 1, width);
      MulSucc(k, width);
    }
    assert a + width <= |Words(values[1..], width)| by {
      assert |values[1..]| == |values| - 1;
      MulLeft(k, |values| - 1, width);
    }
    WordsTailAt(values, width, a);
  }

  /** The bytes after the first word are the layout of the later values. */
  lemma WordsTailAt(values: seq<nat>, width: nat, a: nat)
    requires forall j :: 0 <= j < |values| ==> values[j] < Pow256(width)
    requires values != [] && a + width <= |Words(values[1..], width)|
    ensures width + a + width <= |Words(values, width)|
    ensures Words(values, width)[width + a..width + a + width] == Words(values[1..], width)[a..a + width]
  {
    SliceAfter(LittleEndian(values[0], width), Words(values[1..], width), a, a + width);
  }

  lemma SliceAfter(p: seq<byte>, r: seq<byte>, i: nat, j: nat)
    requires i <= j <= |r|
    ensures (p + r)[|p| + i..|p| + j] == r[i..j]
  {
  }

  lemma MulSucc(a: nat, width: nat)
    ensures (a + 1) * width == a * width + width
  {
  }

  lemma MulLeft(a: nat, b: nat, width: nat)
    requires a <= b
    ensures a * width <= b * width
  {
  }
}
