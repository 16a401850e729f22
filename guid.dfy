// System.Guid (Guid.cs): the 128-bit value as its four fields, the
// mixed-endian byte layout of ToByteArray, the five text forms N, D, B, P
// and X, parsing them back, and the order CompareTo defines.
module Guids {
  import opened Wrappers
  import opened Digits
  import opened Bytes
  import opened Integers

  /**
   * The fields of a Guid as bit patterns: a 32-bit field, two 16-bit
   * fields and eight trailing bytes. The runtime keeps the first three as
   * int and short; their unsigned patterns are kept here.
   */
  datatype Guid = Guid(a: nat, b: nat, c: nat, d: seq<byte>)

  predicate Valid(g: Guid) {
    g.a < 0x1_0000_0000 && g.b < 0x1_0000 && g.c < 0x1_0000 && |g.d| == 8
  }

  /** Guid.Empty: every bit zero. */
  const Empty: Guid := Guid(0, 0, 0, [0, 0, 0, 0, 0, 0, 0, 0])

  // ---- constructors and the byte layout ----

  /**
   * new Guid(int a, short b, short c, byte[] d): d must hold exactly eight
   * bytes, else ArgumentException; the signed fields keep their bit patterns.
   */
  function FromFields(a: int, b: int, c: int, d: seq<byte>): (r: Result<Guid>)
    requires IsInt32(a) && Int16.Contains(b) && Int16.Contains(c)
    ensures r.Ok? <==> |d| == 8
    ensures r.Err? ==> r.error == Argument
    ensures r.Ok? ==> Valid(r.value) && r.value.d == d
    ensures r.Ok? ==> Wrap(Int32, r.value.a) == a && Wrap(Int16, r.value.b) == b && Wrap(Int16, r.value.c) == c
  {
    WrapUnsigned(Int32, a);
    WrapUnsigned(Int16, b);
    WrapUnsigned(Int16, c);
    if |d| != 8 then Err(Argument)
    else Ok(Guid(Unsigned(Int32, a), Unsigned(Int16, b), Unsigned(Int16, c), d))
  }

  /** new Guid(int, short, short, byte, byte, byte, byte, byte, byte, byte, byte): the eight bytes given one by one. */
  function FromComponents(a: int, b: int, c: int, d0: byte, d1: byte, d2: byte, d3: byte,
                          d4: byte, d5: byte, d6: byte, d7: byte): (g: Guid)
    requires IsInt32(a) && Int16.Contains(b) && Int16.Contains(c)
    ensures Valid(g) && FromFields(a, b, c, [d0, d1, d2, d3, d4, d5, d6, d7]) == Ok(g)
  {
    FromFields(a, b, c, [d0, d1, d2, d3, d4, d5, d6, d7]).value
  }

  lemma Pow256Fields()
    ensures Pow256(2) == 0x1_0000 && Pow256(4) == 0x1_0000_0000
  {
    assert Pow256(2) == 0x1_0000;
    assert Pow256(4) == Pow256(2) * 0x1_0000;
  }

  /**
   * ToByteArray: the 32-bit field little-endian, then each 16-bit field
   * little-endian, then the eight trailing bytes in order.
   */
  function ToByteArray(g: Guid): (r: seq<byte>)
    requires Valid(g)
    ensures |r| == 16 && r[8..] == g.d
    ensures r[..4] == LittleEndian(g.a, 4) && r[4..6] == LittleEndian(g.b, 2) && r[6..8] == LittleEndian(g.c, 2)
  {
    Pow256Fields();
    LittleEndian(g.a, 4) + LittleEndian(g.b, 2) + LittleEndian(g.c, 2) + g.d
  }

  /** new Guid(byte[]): exactly sixteen bytes in the ToByteArray layout, else ArgumentException. */
  function FromBytes(bytes: seq<byte>): (r: Result<Guid>)
    ensures r.Ok? <==> |bytes| == 16
    ensures r.Err? ==> r.error == Argument
    ensures r.Ok? ==> Valid(r.value) && ToByteArray(r.value) == bytes
  {
    if |bytes| != 16 then Err(Argument)
    else
      Pow256Fields();
      var g := Guid(FromLittleEndian(bytes[..4]), FromLittleEndian(bytes[4..6]), FromLittleEndian(bytes[6..8]), bytes[8..]);
      FromLittleEndianRoundTrip(bytes[..4]);
      FromLittleEndianRoundTrip(bytes[4..6]);
      FromLittleEndianRoundTrip(bytes[6..8]);
      assert ToByteArray(g) == bytes[..4] + bytes[4..6] + bytes[6..8] + bytes[8..];
      assert bytes[..4] + bytes[4..6] + bytes[6..8] + bytes[8..] == bytes;
      Ok(g)
  }

  /** new Guid(g.ToByteArray()) equals g (Guid.cs 14-19). */
  lemma ByteArrayRoundTrip(g: Guid)
    requires Valid(g)
    ensures FromBytes(ToByteArray(g)) == Ok(g)
  {
    var bytes := ToByteArray(g);
    Pow256Fields();
    LittleEndianRoundTrip(g.a, 4);
    LittleEndianRoundTrip(g.b, 2);
    LittleEndianRoundTrip(g.c, 2);
  }

  // ---- the 32 hex digits ----

  lemma Pow16Fields()
    ensures Pow16(2) == 0x100 && Pow16(4) == 0x1_0000 && Pow16(8) == 0x1_0000_0000
  {
    assert Pow16(2) == 0x100;
    assert Pow16(4) == Pow16(2) * 0x100;
    assert Pow16(8) == Pow16(4) * 0x1_0000;
  }

  /** Two lower-case hex digits per byte, in order. */
  function ByteHex(d: seq<byte>): (s: string)
    ensures |s| == 2 * |d| && AllHexDigits(s)
  {
    Pow16Fields();
    if d == [] then [] else HexFixed(d[0] as nat, 2, false) + ByteHex(d[1..])
  }

  lemma {:induction false} ByteHexAppend(d: seq<byte>, e: seq<byte>)
    ensures ByteHex(d + e) == ByteHex(d) + ByteHex(e)
  {
    if d == [] {
      assert d + e == e;
    } else {
      assert (d + e)[1..] == d[1..] + e;
      ByteHexAppend(d[1..], e);
    }
  }

  /**
   * The 32 lower-case hex digits every text form writes: the 32-bit field,
   * the two 16-bit fields and the eight bytes, each most significant digit
   * first.
   */
  function Hex32(g: Guid): (n: string)
    requires Valid(g)
    ensures |n| == 32 && AllHexDigits(n)
  {
    Pow16Fields();
    HexFixed(g.a, 8, false) + (HexFixed(g.b, 4, false) + (HexFixed(g.c, 4, false) + ByteHex(g.d)))
  }

  /** The 128-bit unsigned number those digits write. */
  function Number(g: Guid): nat
    requires Valid(g)
  {
    HexDigitsValue(Hex32(g))
  }

  /** Bytes from pairs of hex digits. */
  function HexBytes(t: string): (d: seq<byte>)
    requires |t| % 2 == 0 && AllHexDigits(t)
    ensures |d| == |t| / 2
  {
    Pow16Fields();
    if t == [] then [] else [HexDigitsValue(t[..2]) as byte] + HexBytes(t[2..])
  }

  /** The fields that 32 hex digits, in either case, write. */
  function FromHex32(n: string): (g: Guid)
    requires |n| == 32 && AllHexDigits(n)
    ensures Valid(g)
  {
    Pow16Fields();
    Guid(HexDigitsValue(n[..8]), HexDigitsValue(n[8..12]), HexDigitsValue(n[12..16]), HexBytes(n[16..]))
  }

  lemma {:induction false} HexBytesRoundTrip(d: seq<byte>)
    ensures HexBytes(ByteHex(d)) == d
    decreases |d|
  {
    if d != [] {
      var t := ByteHex(d);
      Pow16Fields();
      assert t[..2] == HexFixed(d[0] as nat, 2, false) && t[2..] == ByteHex(d[1..]);
      HexFixedRoundTrip(d[0] as nat, 2, false);
      HexBytesRoundTrip(d[1..]);
    }
  }

  /** Reading the digits of a Guid gives the Guid back. */
  lemma Hex32RoundTrip(g: Guid)
    requires Valid(g)
    ensures FromHex32(Hex32(g)) == g
  {
    Pow16Fields();
    var n := Hex32(g);
    assert n[..8] == HexFixed(g.a, 8, false);
    assert n[8..12] == HexFixed(g.b, 4, false);
    assert n[12..16] == HexFixed(g.c, 4, false);
    assert n[16..] == ByteHex(g.d);
    HexFixedRoundTrip(g.a, 8, false);
    HexFixedRoundTrip(g.b, 4, false);
    HexFixedRoundTrip(g.c, 4, false);
    HexBytesRoundTrip(g.d);
  }

  /** Writing bytes read from hex digits keeps the digits' value, whatever their case. */
  lemma {:induction false} ByteHexValue(t: string)
    requires |t| % 2 == 0 && AllHexDigits(t)
    ensures HexDigitsValue(ByteHex(HexBytes(t))) == HexDigitsValue(t)
    decreases |t|
  {
    if t != [] {
      Pow16Fields();
      var d := HexBytes(t);
      var x := HexDigitsValue(t[..2]);
      assert d[0] as nat == x && d[1..] == HexBytes(t[2..]);
      HexFixedRoundTrip(x, 2, false);
      ByteHexValue(t[2..]);
      assert t == t[..2] + t[2..];
      HexDigitsValueAppend(t[..2], t[2..]);
      HexDigitsValueAppend(HexFixed(x, 2, false), ByteHex(d[1..]));
    }
  }

  /** Digit strings of equal value and length may replace each other at either end of a concatenation. */
  lemma SameValueAppend(x: string, y: string, x': string, y': string)
    requires AllHexDigits(x) && AllHexDigits(y) && AllHexDigits(x') && AllHexDigits(y')
    requires HexDigitsValue(x) == HexDigitsValue(x') && HexDigitsValue(y) == HexDigitsValue(y') && |y| == |y'|
    ensures AllHexDigits(x + y) && AllHexDigits(x' + y')
    ensures HexDigitsValue(x + y) == HexDigitsValue(x' + y')
  {
    HexDigitsValueAppend(x, y);
    HexDigitsValueAppend(x', y');
  }

  /** Rewriting a digit string at its own width keeps its value. */
  lemma FieldValue(x: string)
    requires AllHexDigits(x)
    ensures HexDigitsValue(HexFixed(HexDigitsValue(x), |x|, false)) == HexDigitsValue(x)
  {
    HexFixedRoundTrip(HexDigitsValue(x), |x|, false);
  }

  /** The Guid read from 32 hex digits has their value as its number. */
  lemma FromHex32Number(n: string)
    requires |n| == 32 && AllHexDigits(n)
    ensures Number(FromHex32(n)) == HexDigitsValue(n)
  {
    var g := FromHex32(n);
    var a, b, c, t := n[..8], n[8..12], n[12..16], n[16..];
    Hex32Pieces(n);
    ByteHexValue(t);
    NumberOfFields(g, a, b, c, t);
  }

  /** The four field runs of 32 hex digits, which put back together give the digits. */
  lemma Hex32Pieces(n: string)
    requires |n| == 32 && AllHexDigits(n)
    ensures AllHexDigits(n[..8]) && AllHexDigits(n[8..12]) && AllHexDigits(n[12..16]) && AllHexDigits(n[16..])
    ensures n == n[..8] + (n[8..12] + (n[12..16] + n[16..]))
  {
  }

  /** Any digit strings of the fields' widths and values write the Guid's number. */
  lemma NumberOfFields(g: Guid, a: string, b: string, c: string, t: string)
    requires Valid(g) && AllHexDigits(a) && AllHexDigits(b) && AllHexDigits(c) && AllHexDigits(t)
    requires |b| == 4 && |c| == 4 && |t| == 16
    requires HexDigitsValue(a) == g.a && HexDigitsValue(b) == g.b && HexDigitsValue(c) == g.c
    requires HexDigitsValue(t) == HexDigitsValue(ByteHex(g.d))
    ensures AllHexDigits(a + (b + (c + t))) && Number(g) == HexDigitsValue(a + (b + (c + t)))
  {
    Pow16Fields();
    HexFixedRoundTrip(g.a, 8, false);
    HexFixedRoundTrip(g.b, 4, false);
    HexFixedRoundTrip(g.c, 4, false);
    SameValueFields(a, b, c, t, HexFixed(g.a, 8, false), HexFixed(g.b, 4, false), HexFixed(g.c, 4, false), ByteHex(g.d));
  }

  lemma SameValueFields(a: string, b: string, c: string, t: string, a': string, b': string, c': string, t': string)
    requires AllHexDigits(a) && AllHexDigits(b) && AllHexDigits(c) && AllHexDigits(t)
    requires AllHexDigits(a') && AllHexDigits(b') && AllHexDigits(c') && AllHexDigits(t')
    requires HexDigitsValue(a) == HexDigitsValue(a') && HexDigitsValue(b) == HexDigitsValue(b')
    requires HexDigitsValue(c) == HexDigitsValue(c') && HexDigitsValue(t) == HexDigitsValue(t')
    requires |b| == |b'| && |c| == |c'| && |t| == |t'|
    ensures AllHexDigits(a + (b + (c + t))) && AllHexDigits(a' + (b' + (c' + t')))
    ensures HexDigitsValue(a + (b + (c + t))) == HexDigitsValue(a' + (b' + (c' + t')))
  {
    SameValueAppend(c, t, c', t');
    SameValueAppend(b, c + t, b', c' + t');
    SameValueAppend(a, b + (c + t), a', b' + (c' + t'));
  }

  // ---- the five text forms ----

  /**
   * The format specifiers: N (32 digits), D (hyphenated, RFC 4122's UUID
   * string form), B (D in braces), P (D in parentheses) and X (the fields
   * as hex literals in braces).
   */
  datatype Form = N | D | B | P | X

  function Width(f: Form): (w: nat)
    ensures w >= 32
  {
    match f
    case N => 32
    case D => 36
    case B | P => 38
    case X => 68
  }

  /** 8-4-4-4-12 digits with hyphens between the groups. */
  function Hyphenated(n: string): (s: string)
    requires |n| == 32
    ensures |s| == 36
  {
    n[..8] + "-" + n[8..12] + "-" + n[12..16] + "-" + n[16..20] + "-" + n[20..]
  }

  /** Byte digit pairs as "0x" literals separated by commas. */
  function ByteList(t: string): (s: string)
    requires |t| % 2 == 0 && |t| >= 2
    ensures |s| == 5 * (|t| / 2) - 1
    decreases |t|
  {
    if |t| == 2 then "0x" + t else "0x" + t[..2] + "," + ByteList(t[2..])
  }

  /** The X form: {0xaaaaaaaa,0xbbbb,0xcccc,{0xdd,...,0xdd}}. */
  function HexLiterals(n: string): (s: string)
    requires |n| == 32
    ensures |s| == 68
  {
    "{0x" + n[..8] + ",0x" + n[8..12] + ",0x" + n[12..16] + ",{" + ByteList(n[16..]) + "}}"
  }

  /** The text of form f around the 32 digits n. */
  function Layout(n: string, f: Form): (s: string)
    requires |n| == 32
    ensures |s| == Width(f)
  {
    match f
    case N => n
    case D => Hyphenated(n)
    case B => "{" + Hyphenated(n) + "}"
    case P => "(" + Hyphenated(n) + ")"
    case X => HexLiterals(n)
  }

  /** The digit pairs of a ByteList, in order. */
  function ByteListDigits(u: string): (t: string)
    requires |u| % 5 == 4
    ensures |t| == 2 * ((|u| + 1) / 5)
    decreases |u|
  {
    if |u| == 4 then u[2..4] else u[2..4] + ByteListDigits(u[5..])
  }

  /** The characters at the digit positions of form f. */
  function Extract(s: string, f: Form): (n: string)
    requires |s| == Width(f)
    ensures |n| == 32
  {
    match f
    case N => s
    case D => s[..8] + s[9..13] + s[14..18] + s[19..23] + s[24..]
    case B | P => Extract(s[1..37], D)
    case X => s[3..11] + s[14..18] + s[21..25] + ByteListDigits(s[27..66])
  }

  lemma {:induction false} ByteListRoundTrip(t: string)
    requires |t| % 2 == 0 && |t| >= 2
    ensures ByteListDigits(ByteList(t)) == t
    decreases |t|
  {
    var u := ByteList(t);
    if |t| == 2 {
      assert u[2..4] == t;
    } else {
      assert u[2..4] == t[..2] && u[5..] == ByteList(t[2..]);
      ByteListRoundTrip(t[2..]);
      assert t == t[..2] + t[2..];
    }
  }

  lemma HyphenatedDigits(n: string)
    requires |n| == 32
    ensures Extract(Hyphenated(n), D) == n
  {
    var s := Hyphenated(n);
    assert s[..8] == n[..8] && s[9..13] == n[8..12] && s[14..18] == n[12..16];
    assert s[19..23] == n[16..20] && s[24..] == n[20..];
    assert n == n[..8] + n[8..12] + n[12..16] + n[16..20] + n[20..];
  }

  lemma HexLiteralsDigits(n: string)
    requires |n| == 32
    ensures Extract(HexLiterals(n), X) == n
  {
    var s := HexLiterals(n);
    assert s[3..11] == n[..8] && s[14..18] == n[8..12] && s[21..25] == n[12..16];
    assert s[27..66] == ByteList(n[16..]);
    ByteListRoundTrip(n[16..]);
    assert n == n[..8] + n[8..12] + n[12..16] + n[16..];
  }

  /** Each form puts the digits where Extract reads them. */
  lemma ExtractLayout(n: string, f: Form)
    requires |n| == 32
    ensures Extract(Layout(n, f), f) == n
  {
    match f
    case N =>
    case D => HyphenatedDigits(n);
    case B =>
      assert Layout(n, f)[1..37] == Hyphenated(n);
      HyphenatedDigits(n);
    case P =>
      assert Layout(n, f)[1..37] == Hyphenated(n);
      HyphenatedDigits(n);
    case X => HexLiteralsDigits(n);
  }

  /** No text of a form has a digit string other than its own at the digit positions. */
  lemma ExtractLayouts(s: string, f: Form)
    ensures forall n :: |n| == 32 && Layout(n, f) == s ==> Extract(s, f) == n
  {
    forall n | |n| == 32 && Layout(n, f) == s
      ensures Extract(s, f) == n
    {
      ExtractLayout(n, f);
    }
  }

  // ---- formatting and parsing ----

  /** A format specifier: one of N, D, B, P, X in either case, else FormatException. */
  function FormOf(format: string): (r: Result<Form>)
    ensures r.Ok? <==> format in {"N", "n", "D", "d", "B", "b", "P", "p", "X", "x"}
    ensures r.Err? ==> r.error == Format
  {
    if |format| != 1 then Err(Format)
    else
      var c := format[0];
      assert format == [c];
      if c == 'N' || c == 'n' then Ok(N)
      else if c == 'D' || c == 'd' then Ok(D)
      else if c == 'B' || c == 'b' then Ok(B)
      else if c == 'P' || c == 'p' then Ok(P)
      else if c == 'X' || c == 'x' then Ok(X)
      else Err(Format)
  }

  /**
   * A text of form f: exactly the form's characters, with hex digits in
   * either case at the digit positions, read as the Guid they write;
   * anything else raises FormatException.
   */
  function ParseForm(s: string, f: Form): (r: Result<Guid>)
    ensures r.Ok? <==> exists n :: |n| == 32 && AllHexDigits(n) && Layout(n, f) == s
    ensures r.Err? ==> r.error == Format
    ensures forall n :: |n| == 32 && AllHexDigits(n) && Layout(n, f) == s ==> r == Ok(FromHex32(n))
  {
    ExtractLayouts(s, f);
    if |s| != Width(f) then Err(Format)
    else
      var n := Extract(s, f);
      if AllHexDigits(n) && Layout(n, f) == s then Ok(FromHex32(n)) else Err(Format)
  }

  /** Every form of a Guid's digits reads back as the Guid. */
  lemma FormRoundTrip(g: Guid, f: Form)
    requires Valid(g)
    ensures ParseForm(Layout(Hex32(g), f), f) == Ok(g)
  {
    Hex32RoundTrip(g);
  }

  /** ToString(format): "" is "D"; any other specifier but the five raises FormatException. */
  function ToString(g: Guid, format: string): (r: Result<string>)
    requires Valid(g)
    ensures r.Ok? <==> format == [] || FormOf(format).Ok?
    ensures r.Err? ==> r.error == Format
    ensures r.Ok? ==> r.value == Layout(Hex32(g), if format == [] then D else FormOf(format).value)
  {
    if format == [] then Ok(Layout(Hex32(g), D))
    else
      var f :- FormOf(format);
      Ok(Layout(Hex32(g), f))
  }

  /** ToString() is ToString("D") (Guid.cs 173-175). */
  lemma DefaultIsD(g: Guid)
    requires Valid(g)
    ensures ToString(g, []) == ToString(g, "D") == Ok(Hyphenated(Hex32(g)))
  {
  }

  // ---- white space around the text ----

  /** char.IsWhiteSpace: the Unicode space, line and paragraph separators, U+0009 to U+000D and U+0085. */
  predicate IsSpace(c: char) {
    || c == ' ' || '\t' <= c <= '\r' || c == '\U{0085}' || c == '\U{00A0}' || c == '\U{1680}'
    || '\U{2000}' <= c <= '\U{200A}' || c == '\U{2028}' || c == '\U{2029}' || c == '\U{202F}'
    || c == '\U{205F}' || c == '\U{3000}'
  }

  predicate AllSpace(s: string) { forall k :: 0 <= k < |s| ==> IsSpace(s[k]) }

  /** A text with no white space at either end. */
  predicate Unpadded(s: string) { s == [] || (!IsSpace(s[0]) && !IsSpace(s[|s| - 1])) }

  /** s with its leading white space dropped. */
  function TrimStart(s: string): (t: string)
    ensures |t| <= |s| && t == s[|s| - |t|..] && AllSpace(s[..|s| - |t|])
    ensures t == [] || !IsSpace(t[0])
    decreases |s|
  {
    if s != [] && IsSpace(s[0]) then TrimStart(s[1..]) else s
  }

  /** s with its trailing white space dropped. */
  function TrimEnd(s: string): (t: string)
    ensures |t| <= |s| && t == s[..|t|] && AllSpace(s[|t|..])
    ensures t == [] || !IsSpace(t[|t| - 1])
    decreases |s|
  {
    if s != [] && IsSpace(s[|s| - 1]) then TrimEnd(s[..|s| - 1]) else s
  }

  /**
   * string.Trim, which Parse and ParseExact apply first: the text between
   * the white space at the start and the white space at the end.
   */
  function Trim(s: string): (t: string)
    ensures Unpadded(t)
  {
    TrimEnd(TrimStart(s))
  }

  lemma {:induction false} TrimStartPadded(w: string, x: string)
    requires AllSpace(w) && (x == [] || !IsSpace(x[0]))
    ensures TrimStart(w + x) == x
    decreases |w|
  {
    if w != [] {
      assert (w + x)[1..] == w[1..] + x;
      TrimStartPadded(w[1..], x);
    } else {
      assert w + x == x;
    }
  }

  lemma {:induction false} TrimEndPadded(x: string, w: string)
    requires AllSpace(w) && (x == [] || !IsSpace(x[|x| - 1]))
    ensures TrimEnd(x + w) == x
    decreases |w|
  {
    if w != [] {
      assert (x + w)[..|x + w| - 1] == x + w[..|w| - 1];
      TrimEndPadded(x, w[..|w| - 1]);
    } else {
      assert x + w == x;
    }
  }

  /** Trim drops exactly the white space around an unpadded text. */
  lemma TrimPadded(w1: string, x: string, w2: string)
    requires AllSpace(w1) && AllSpace(w2) && Unpadded(x)
    ensures Trim(w1 + x + w2) == x
  {
    if x == [] {
      assert w1 + x + w2 == w1 + w2;
      TrimStartPadded(w1 + w2, []);
      assert w1 + w2 + [] == w1 + w2;
      TrimEndPadded([], []);
    } else {
      assert w1 + x + w2 == w1 + (x + w2);
      TrimStartPadded(w1, x + w2);
      TrimEndPadded(x, w2);
    }
  }

  /** Trim keeps a text with no white space at either end. */
  lemma TrimUnpadded(s: string)
    requires Unpadded(s)
    ensures Trim(s) == s
  {
    assert [] + s + [] == s;
    TrimPadded([], s, []);
  }

  /** Trimming twice is trimming once. */
  lemma TrimIdempotent(s: string)
    ensures Trim(Trim(s)) == Trim(s)
  {
    TrimUnpadded(Trim(s));
  }

  /** Every form begins and ends with a digit, a brace or a parenthesis. */
  lemma LayoutUnpadded(n: string, f: Form)
    requires |n| == 32 && AllHexDigits(n)
    ensures Unpadded(Layout(n, f)) && Trim(Layout(n, f)) == Layout(n, f)
  {
    var s := Layout(n, f);
    match f
    case N =>
    case D =>
      assert s[0] == n[0] && s[35] == n[31];
    case B =>
    case P =>
    case X =>
      assert s[0] == '{' && s[67] == '}';
    TrimUnpadded(s);
  }

  lemma LayoutsUnpadded()
    ensures forall n, f :: |n| == 32 && AllHexDigits(n) ==> Trim(Layout(n, f)) == Layout(n, f)
  {
    forall n, f | |n| == 32 && AllHexDigits(n)
      ensures Trim(Layout(n, f)) == Layout(n, f)
    {
      LayoutUnpadded(n, f);
    }
  }

  /** ParseExact(s, format): s, trimmed, must be a text of the one form the specifier names. */
  function ParseExact(s: string, format: string): (r: Result<Guid>)
    ensures FormOf(format).Err? ==> r == Err(Format)
    ensures FormOf(format).Ok? ==> r == ParseForm(Trim(s), FormOf(format).value)
  {
    var f :- FormOf(format);
    ParseForm(Trim(s), f)
  }

  predicate NoHyphen(s: string) {
    forall k :: 0 <= k < |s| ==> s[k] != '-'
  }

  lemma {:induction false} ByteListNoHyphen(t: string)
    requires |t| % 2 == 0 && |t| >= 2 && AllHexDigits(t)
    ensures NoHyphen(ByteList(t)) && '-' !in ByteList(t)
    decreases |t|
  {
    if |t| > 2 {
      ByteListNoHyphen(t[2..]);
    }
  }

  /** Which form Parse reads a text as: hyphens mean D, B or P by the opening character, else a brace means X, else N. */
  function FormFor(s: string): Form {
    if '-' in s then
      if |s| > 0 && s[0] == '{' then B else if |s| > 0 && s[0] == '(' then P else D
    else if '{' in s then X
    else N
  }

  /** The characters tell the five forms apart. */
  lemma FormForLayout(n: string, f: Form)
    requires |n| == 32 && AllHexDigits(n)
    ensures FormFor(Layout(n, f)) == f
  {
    var s := Layout(n, f);
    match f
    case N =>
      assert '-' !in s && '{' !in s;
    case D =>
      assert s[8] == '-' && s[0] == n[0];
    case B =>
      assert s[9] == '-';
    case P =>
      assert s[9] == '-';
    case X =>
      ByteListNoHyphen(n[16..]);
      assert s[0] == '{';
      assert '-' !in s;
  }

  lemma FormForLayouts(s: string)
    ensures forall n, f :: |n| == 32 && AllHexDigits(n) && Layout(n, f) == s ==> FormFor(s) == f
  {
    forall n, f | |n| == 32 && AllHexDigits(n) && Layout(n, f) == s
      ensures FormFor(s) == f
    {
      FormForLayout(n, f);
    }
  }

  /**
   * Parse and new Guid(string): any of the five forms, read as the Guid its
   * digits write; any other text raises FormatException.
   */
  function Parse(s: string): (r: Result<Guid>)
    ensures r.Ok? <==> exists n, f :: |n| == 32 && AllHexDigits(n) && Layout(n, f) == Trim(s)
    ensures r.Err? ==> r.error == Format
    ensures forall n, f :: |n| == 32 && AllHexDigits(n) && Layout(n, f) == Trim(s) ==> r == Ok(FromHex32(n))
  {
    var t := Trim(s);
    FormForLayouts(t);
    ParseForm(t, FormFor(t))
  }

  /** White space around a text does not change what Parse reads. */
  lemma ParseTrimmed(s: string)
    ensures Parse(Trim(s)) == Parse(s)
  {
    TrimIdempotent(s);
  }

  /** Any of the five forms, with white space around it, is read as the Guid its digits write. */
  lemma ParsePadded(w1: string, n: string, f: Form, w2: string)
    requires AllSpace(w1) && AllSpace(w2) && |n| == 32 && AllHexDigits(n)
    ensures Parse(w1 + Layout(n, f) + w2) == Ok(FromHex32(n))
  {
    LayoutUnpadded(n, f);
    TrimPadded(w1, Layout(n, f), w2);
  }

  function TryParse(s: string): (r: Option<Guid>)
    ensures r.Some? <==> Parse(s).Ok?
    ensures r.Some? ==> Parse(s) == Ok(r.value)
  {
    match Parse(s)
    case Ok(g) => Some(g)
    case Err(_) => None
  }

  function TryParseExact(s: string, format: string): (r: Option<Guid>)
    ensures r.Some? <==> ParseExact(s, format).Ok?
    ensures r.Some? ==> ParseExact(s, format) == Ok(r.value)
  {
    match ParseExact(s, format)
    case Ok(g) => Some(g)
    case Err(_) => None
  }

  /** new Guid(string): a null string raises ArgumentNullException (Guid.cs 42-46). */
  function New(s: Option<string>): (r: Result<Guid>)
    ensures s.None? ==> r == Err(ArgumentNull)
    ensures s.Some? ==> r == Parse(s.value)
  {
    match s
    case None => Err(ArgumentNull)
    case Some(t) => Parse(t)
  }

  /** Every text ToString writes reads back, with Parse and with ParseExact under its own specifier. */
  lemma TextRoundTrip(g: Guid, format: string)
    requires Valid(g) && ToString(g, format).Ok?
    ensures Parse(ToString(g, format).value) == Ok(g)
    ensures format != [] ==> ParseExact(ToString(g, format).value, format) == Ok(g)
  {
    var f := if format == [] then D else FormOf(format).value;
    Hex32RoundTrip(g);
    assert ToString(g, format).value == Layout(Hex32(g), f);
    LayoutUnpadded(Hex32(g), f);
  }

  /** A text whose length is not the form's own is refused, such as 31 digits as N or a hyphenated text as N. */
  lemma WrongLength(s: string, f: Form)
    requires |s| != Width(f)
    ensures ParseForm(s, f) == Err(Format)
  {
  }

  // ---- ordering, equality and hashing ----

  /** Two numbers of a place value p with remainders below p: the leading parts decide first. */
  lemma PlaceOrder(x: nat, y: nat, x': nat, y': nat, p: nat)
    requires y < p && y' < p
    ensures x * p + y < x' * p + y' <==> x < x' || (x == x' && y < y')
    ensures x * p + y == x' * p + y' <==> x == x' && y == y'
  {
    if x < x' {
      assert x * p + y < (x + 1) * p <= x' * p;
    } else if x' < x {
      assert x' * p + y' < (x' + 1) * p <= x * p;
    }
  }

  /** Digit strings of fixed widths compare as their leading part, then as the rest. */
  lemma HexConcatOrder(x: string, y: string, x': string, y': string)
    requires AllHexDigits(x) && AllHexDigits(y) && AllHexDigits(x') && AllHexDigits(y')
    requires |y| == |y'|
    ensures AllHexDigits(x + y) && AllHexDigits(x' + y')
    ensures HexDigitsValue(x + y) < HexDigitsValue(x' + y') <==> (HexDigitsValue(x) < HexDigitsValue(x')
      || (HexDigitsValue(x) == HexDigitsValue(x') && HexDigitsValue(y) < HexDigitsValue(y')))
    ensures HexDigitsValue(x + y) == HexDigitsValue(x' + y') <==> (HexDigitsValue(x) == HexDigitsValue(x')
      && HexDigitsValue(y) == HexDigitsValue(y'))
  {
    HexDigitsValueAppend(x, y);
    HexDigitsValueAppend(x', y');
    PlaceOrder(HexDigitsValue(x), HexDigitsValue(y), HexDigitsValue(x'), HexDigitsValue(y'), Pow16(|y|));
  }

  /** The sign of a comparison of two integers. */
  function Sign(x: int, y: int): (r: int)
    ensures -1 <= r <= 1 && (r < 0 <==> x < y) && (r == 0 <==> x == y) && (r > 0 <==> x > y)
  {
    if x < y then -1 else if x > y then 1 else 0
  }

  /** The trailing bytes, first unequal byte deciding. */
  function CompareBytes(x: seq<byte>, y: seq<byte>): (r: int)
    requires |x| == |y|
    ensures -1 <= r <= 1
    ensures r < 0 <==> HexDigitsValue(ByteHex(x)) < HexDigitsValue(ByteHex(y))
    ensures r == 0 <==> x == y
    ensures r > 0 <==> HexDigitsValue(ByteHex(x)) > HexDigitsValue(ByteHex(y))
  {
    if x == [] then 0
    else
      Pow16Fields();
      var hx, hy := HexFixed(x[0] as nat, 2, false), HexFixed(y[0] as nat, 2, false);
      HexFixedRoundTrip(x[0] as nat, 2, false);
      HexFixedRoundTrip(y[0] as nat, 2, false);
      HexConcatOrder(hx, ByteHex(x[1..]), hy, ByteHex(y[1..]));
      var rest := CompareBytes(x[1..], y[1..]);
      assert x == [x[0]] + x[1..] && y == [y[0]] + y[1..];
      if x[0] != y[0] then Sign(x[0] as int, y[0] as int) else rest
  }

  /**
   * CompareTo(Guid): the 32-bit field, the 16-bit fields and then the
   * trailing bytes decide in turn, each as an unsigned number; so Guids are
   * ordered as the 128-bit numbers their digits write, 98a1... < a8a1... < e8a1....
   */
  function Compare(g: Guid, h: Guid): (r: int)
    requires Valid(g) && Valid(h)
    ensures -1 <= r <= 1
    ensures r < 0 <==> Number(g) < Number(h)
    ensures r == 0 <==> g == h
    ensures r > 0 <==> Number(g) > Number(h)
  {
    Pow16Fields();
    CompareOrder(g, h);
    if g.a != h.a then Sign(g.a, h.a)
    else if g.b != h.b then Sign(g.b, h.b)
    else if g.c != h.c then Sign(g.c, h.c)
    else CompareBytes(g.d, h.d)
  }

  /** The number of a Guid is ordered by the fields in turn. */
  lemma CompareOrder(g: Guid, h: Guid)
    requires Valid(g) && Valid(h)
    ensures Number(g) < Number(h) <==> (g.a < h.a || (g.a == h.a && (g.b < h.b || (g.b == h.b
      && (g.c < h.c || (g.c == h.c && HexDigitsValue(ByteHex(g.d)) < HexDigitsValue(ByteHex(h.d))))))))
    ensures Number(g) == Number(h) <==> (g.a == h.a && g.b == h.b && g.c == h.c
      && HexDigitsValue(ByteHex(g.d)) == HexDigitsValue(ByteHex(h.d)))
  {
    Pow16Fields();
    var a, b, c, t := HexFixed(g.a, 8, false), HexFixed(g.b, 4, false), HexFixed(g.c, 4, false), ByteHex(g.d);
    var a', b', c', t' := HexFixed(h.a, 8, false), HexFixed(h.b, 4, false), HexFixed(h.c, 4, false), ByteHex(h.d);
    HexFixedRoundTrip(g.a, 8, false);
    HexFixedRoundTrip(g.b, 4, false);
    HexFixedRoundTrip(g.c, 4, false);
    HexFixedRoundTrip(h.a, 8, false);
    HexFixedRoundTrip(h.b, 4, false);
    HexFixedRoundTrip(h.c, 4, false);
    HexConcatOrder(c, t, c', t');
    HexConcatOrder(b, c + t, b', c' + t');
    HexConcatOrder(a, b + (c + t), a', b' + (c' + t'));
  }

  /** CompareTo is antisymmetric, and it is a total order because Number is. */
  lemma CompareAntisymmetric(g: Guid, h: Guid)
    requires Valid(g) && Valid(h)
    ensures Compare(g, h) == -Compare(h, g)
  {
  }

  /** The objects IComparable.CompareTo and Equals(object) may receive. */
  datatype Boxed = NullObject | BoxedGuid(guid: Guid) | BoxedText(text: string)

  /** IComparable.CompareTo(object): any Guid is above null, and a non-Guid raises ArgumentException. */
  function CompareTo(g: Guid, o: Boxed): (r: Result<int>)
    requires Valid(g) && (o.BoxedGuid? ==> Valid(o.guid))
    ensures o.NullObject? ==> r == Ok(1)
    ensures o.BoxedText? ==> r == Err(Argument)
    ensures o.BoxedGuid? ==> r.Ok? && (r.value < 0 <==> Number(g) < Number(o.guid)) && (r.value == 0 <==> g == o.guid)
  {
    match o
    case NullObject => Ok(1)
    case BoxedText(_) => Err(Argument)
    case BoxedGuid(h) => Ok(Compare(g, h))
  }

  /** Equals(object) and ==: a Guid with the same fields; null and strings are never equal. */
  function Equals(g: Guid, o: Boxed): (r: bool)
    requires Valid(g) && (o.BoxedGuid? ==> Valid(o.guid))
    ensures r <==> o == BoxedGuid(g)
    ensures r <==> CompareTo(g, o) == Ok(0)
  {
    o.BoxedGuid? && Compare(g, o.guid) == 0
  }

  /**
   * GetHashCode: the 32-bit field XOR the 16-bit fields side by side XOR
   * the third and the last trailing byte, read as an int.
   */
  function HashCode(g: Guid): (h: int)
    requires Valid(g)
    ensures IsInt32(h)
  {
    Pow2Word();
    Wrap(Int32, Xor(Xor(g.a, g.b * 0x1_0000 + g.c, 32), g.d[2] as nat * 0x100_0000 + g.d[7] as nat, 32))
  }

  /** Equal Guids hash alike. */
  lemma HashCodeEquals(g: Guid, o: Boxed)
    requires Valid(g) && (o.BoxedGuid? ==> Valid(o.guid)) && Equals(g, o)
    ensures HashCode(g) == HashCode(o.guid)
  {
  }
}
