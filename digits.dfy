// Decimal and hexadecimal digit strings, shared by the integer, Version,
// TimeSpan and Guid text forms and by composite formatting.
module Digits {

  predicate IsDigit(c: char) { '0' <= c <= '9' }

  predicate AllDigits(s: string) { forall k :: 0 <= k < |s| ==> IsDigit(s[k]) }

  function DigitValue(c: char): (d: nat)
    requires IsDigit(c)
    ensures d < 10
  {
    c as int - '0' as int
  }

  function DigitChar(d: nat): (c: char)
    requires d < 10
    ensures IsDigit(c) && DigitValue(c) == d
  {
    ('0' as int + d) as char
  }

  /** The value of a string of decimal digits, most significant first. */
  function DecimalValue(s: string): (v: nat)
    requires AllDigits(s)
    ensures v < Pow10(|s|)
  {
    LeadingValue(s, |s|)
  }

  /** The value of the first n digits of s, read left to right. */
  function LeadingValue(s: string, n: nat): (v: nat)
    requires n <= |s| && AllDigits(s)
    ensures v < Pow10(n)
  {
    if n == 0 then 0
    else
      var v := 10 * LeadingValue(s, n - 1) + DigitValue(s[n - 1]);
      assert 10 * LeadingValue(s, n - 1) <= 10 * (Pow10(n - 1) - 1);
      v
  }

  /** The first n digits are all LeadingValue reads. */
  lemma {:induction false} LeadingValuePrefix(s: string, t: string, n: nat)
    requires n <= |s| && n <= |t| && AllDigits(s) && AllDigits(t)
    requires forall k :: 0 <= k < n ==> s[k] == t[k]
    ensures LeadingValue(s, n) == LeadingValue(t, n)
  {
    if n > 0 {
      LeadingValuePrefix(s, t, n - 1);
    }
  }

  /** The last digit is the units digit. */
  lemma DecimalValueLast(s: string)
    requires AllDigits(s) && s != []
    ensures AllDigits(s[..|s| - 1])
    ensures DecimalValue(s) == 10 * DecimalValue(s[..|s| - 1]) + DigitValue(s[|s| - 1])
  {
    LeadingValuePrefix(s, s[..|s| - 1], |s| - 1);
  }

  function Pow10(n: nat): (r: nat)
    ensures r >= 1
  {
    if n == 0 then 1 else 10 * Pow10(n - 1)
  }

  /** The shortest decimal digits of n: "0" for zero, no leading zeros otherwise. */
  function DecimalText(n: nat): (s: string)
    ensures |s| >= 1 && AllDigits(s)
    ensures (s[0] == '0') == (n == 0)
  {
    if n < 10 then [DigitChar(n)] else DecimalText(n / 10) + [DigitChar(n % 10)]
  }

  lemma {:induction false} DecimalTextRoundTrip(n: nat)
    ensures DecimalValue(DecimalText(n)) == n
  {
    if n >= 10 {
      var s := DecimalText(n);
      assert s[..|s| - 1] == DecimalText(n / 10);
      DecimalValueLast(s);
      DecimalTextRoundTrip(n / 10);
    }
  }

  /** A digit string with no redundant leading zero. */
  predicate Canonical(s: string) {
    |s| >= 1 && AllDigits(s) && (s[0] == '0' ==> |s| == 1)
  }

  lemma {:induction false} DecimalValueRoundTrip(s: string)
    requires Canonical(s)
    ensures DecimalText(DecimalValue(s)) == s
  {
    if |s| > 1 {
      var p := s[..|s| - 1];
      assert Canonical(p);
      DecimalValueRoundTrip(p);
      DecimalValuePositive(p);
      DecimalValueLast(s);
      assert DecimalValue(s) / 10 == DecimalValue(p);
      assert DecimalValue(s) % 10 == DigitValue(s[|s| - 1]);
    }
  }

  lemma DecimalValuePositive(s: string)
    requires Canonical(s) && s[0] != '0'
    ensures DecimalValue(s) > 0
  {
    if |s| > 1 {
      var p := s[..|s| - 1];
      assert p[0] == s[0];
      DecimalValuePositive(p);
      DecimalValueLast(s);
    } else {
      DecimalValueLast(s);
    }
  }

  /** One or two digits, read directly. */
  lemma ShortDecimalValue(s: string)
    requires AllDigits(s) && 1 <= |s| <= 2
    ensures DecimalValue(s) == if |s| == 1 then DigitValue(s[0]) else 10 * DigitValue(s[0]) + DigitValue(s[1])
  {
    assert LeadingValue(s, 1) == DigitValue(s[0]);
  }

  /** A digit string is at least its first digit times its place value. */
  lemma LeadingDigitBound(s: string)
    requires AllDigits(s) && s != []
    ensures DecimalValue(s) >= DigitValue(s[0]) * Pow10(|s| - 1)
  {
    var a, b := s[..1], s[1..];
    assert a + b == s;
    DecimalValueAppend(a, b);
    assert DecimalValue(a) == DigitValue(s[0]) by {
      DecimalValueLast(a);
      assert a[..0] == [];
    }
  }

  /** Positional notation: the digits of `a` count Pow10(|b|) times the digits of `b` that follow them. */
  lemma {:induction false} DecimalValueAppend(a: string, b: string)
    requires AllDigits(a) && AllDigits(b)
    ensures AllDigits(a + b) && DecimalValue(a + b) == DecimalValue(a) * Pow10(|b|) + DecimalValue(b)
    decreases |b|
  {
    if b == [] {
      assert a + b == a;
    } else {
      var c := a + b;
      var b' := b[..|b| - 1];
      assert c[..|c| - 1] == a + b' && c[|c| - 1] == b[|b| - 1];
      DecimalValueAppend(a, b');
      DecimalValueLast(c);
      DecimalValueLast(b);
      ShiftDigit(DecimalValue(a), Pow10(|b'|), DecimalValue(b'), DigitValue(b[|b| - 1]));
    }
  }

  lemma ShiftDigit(x: nat, p: nat, y: nat, d: nat)
    ensures 10 * (x * p + y) + d == x * (10 * p) + (10 * y + d)
  {
  }

  /** Leading zeros do not change the value. */
  lemma {:induction false} LeadingZero(s: string)
    requires AllDigits(s)
    ensures DecimalValue("0" + s) == DecimalValue(s)
    decreases |s|
  {
    if s != [] {
      var t := "0" + s;
      assert t[..|t| - 1] == "0" + s[..|s| - 1];
      LeadingZero(s[..|s| - 1]);
      DecimalValueLast(t);
      DecimalValueLast(s);
    } else {
      DecimalValueLast("0" + s);
    }
  }

  /** n zero digits. */
  function Zeros(n: nat): (s: string)
    ensures |s| == n && AllDigits(s) && AllHexDigits(s)
    ensures forall k :: 0 <= k < n ==> s[k] == '0'
  {
    seq(n, _ => '0')
  }

  /** `s` padded on the left with zeros to at least `width` characters. */
  function ZeroPadded(s: string, width: nat): (r: string)
    ensures |r| == if |s| < width then width else |s|
  {
    if |s| < width then Zeros(width - |s|) + s else s
  }

  /** Any number of leading zeros leaves the value unchanged. */
  lemma {:induction false} LeadingZeros(n: nat, s: string)
    requires AllDigits(s)
    ensures AllDigits(Zeros(n) + s) && DecimalValue(Zeros(n) + s) == DecimalValue(s)
    decreases n
  {
    if n > 0 {
      assert Zeros(n) + s == "0" + (Zeros(n - 1) + s);
      LeadingZeros(n - 1, s);
      LeadingZero(Zeros(n - 1) + s);
    } else {
      assert Zeros(n) + s == s;
    }
  }

  /** Padding a digit string with zeros keeps its value. */
  lemma ZeroPaddedValue(s: string, width: nat)
    requires AllDigits(s)
    ensures AllDigits(ZeroPadded(s, width)) && DecimalValue(ZeroPadded(s, width)) == DecimalValue(s)
  {
    if |s| < width {
      LeadingZeros(width - |s|, s);
    }
  }

  /** Trailing zeros multiply the value by a power of ten. */
  lemma {:induction false} TrailingZeros(s: string, n: nat)
    requires AllDigits(s)
    ensures AllDigits(s + Zeros(n)) && DecimalValue(s + Zeros(n)) == DecimalValue(s) * Pow10(n)
    decreases n
  {
    if n > 0 {
      var t := s + Zeros(n);
      assert t[..|t| - 1] == s + Zeros(n - 1) && t[|t| - 1] == '0';
      TrailingZeros(s, n - 1);
      DecimalValueLast(t);
      var x, p := DecimalValue(s), Pow10(n - 1);
      assert DecimalValue(t) == 10 * (x * p);
      MulCommutes(x, p);
    } else {
      assert s + Zeros(n) == s;
    }
  }

  /** The number of decimal digits `s` starts with. */
  function DigitPrefix(s: string): (n: nat)
    ensures n <= |s| && AllDigits(s[..n])
    ensures n < |s| ==> !IsDigit(s[n])
  {
    if s == [] || !IsDigit(s[0]) then 0
    else
      var k := DigitPrefix(s[1..]);
      assert s[..1 + k] == [s[0]] + s[1..][..k];
      1 + k
  }

  predicate IsHexDigit(c: char) { IsDigit(c) || 'a' <= c <= 'f' || 'A' <= c <= 'F' }

  predicate AllHexDigits(s: string) { forall k :: 0 <= k < |s| ==> IsHexDigit(s[k]) }

  function HexValue(c: char): (d: nat)
    requires IsHexDigit(c)
    ensures d < 16
  {
    if IsDigit(c) then DigitValue(c)
    else if 'a' <= c <= 'f' then c as int - 'a' as int + 10
    else c as int - 'A' as int + 10
  }

  /** Hex digit d, lower case ('a'..'f') or upper case ('A'..'F'). */
  function HexChar(d: nat, upper: bool): (c: char)
    requires d < 16
    ensures IsHexDigit(c) && HexValue(c) == d
  {
    if d < 10 then DigitChar(d)
    else if upper then ('A' as int + d - 10) as char
    else ('a' as int + d - 10) as char
  }

  function Pow16(n: nat): (r: nat)
    ensures r >= 1
  {
    if n == 0 then 1 else 16 * Pow16(n - 1)
  }

  /** The value of a string of hex digits, most significant first. */
  function HexDigitsValue(s: string): (v: nat)
    requires AllHexDigits(s)
    ensures v < Pow16(|s|)
  {
    LeadingHexValue(s, |s|)
  }

  /** The value of the first n hex digits of s, read left to right. */
  function LeadingHexValue(s: string, n: nat): (v: nat)
    requires n <= |s| && AllHexDigits(s)
    ensures v < Pow16(n)
  {
    if n == 0 then 0
    else
      var v := 16 * LeadingHexValue(s, n - 1) + HexValue(s[n - 1]);
      assert 16 * LeadingHexValue(s, n - 1) <= 16 * (Pow16(n - 1) - 1);
      v
  }

  lemma {:induction false} LeadingHexValuePrefix(s: string, t: string, n: nat)
    requires n <= |s| && n <= |t| && AllHexDigits(s) && AllHexDigits(t)
    requires forall k :: 0 <= k < n ==> s[k] == t[k]
    ensures LeadingHexValue(s, n) == LeadingHexValue(t, n)
  {
    if n > 0 {
      LeadingHexValuePrefix(s, t, n - 1);
    }
  }

  /** The last hex digit is the units digit. */
  lemma HexDigitsValueLast(s: string)
    requires AllHexDigits(s) && s != []
    ensures AllHexDigits(s[..|s| - 1])
    ensures HexDigitsValue(s) == 16 * HexDigitsValue(s[..|s| - 1]) + HexValue(s[|s| - 1])
  {
    LeadingHexValuePrefix(s, s[..|s| - 1], |s| - 1);
  }

  lemma MulCommutes(x: nat, p: nat)
    ensures 10 * (x * p) == x * (10 * p)
  {
  }

  /** Positional notation in base 16. */
  lemma {:induction false} HexDigitsValueAppend(a: string, b: string)
    requires AllHexDigits(a) && AllHexDigits(b)
    ensures AllHexDigits(a + b) && HexDigitsValue(a + b) == HexDigitsValue(a) * Pow16(|b|) + HexDigitsValue(b)
    decreases |b|
  {
    if b == [] {
      assert a + b == a;
    } else {
      var c := a + b;
      var b' := b[..|b| - 1];
      assert c[..|c| - 1] == a + b' && c[|c| - 1] == b[|b| - 1];
      HexDigitsValueAppend(a, b');
      HexDigitsValueLast(c);
      HexDigitsValueLast(b);
      ShiftHexDigit(HexDigitsValue(a), Pow16(|b'|), HexDigitsValue(b'), HexValue(b[|b| - 1]));
    }
  }

  lemma ShiftHexDigit(x: nat, p: nat, y: nat, d: nat)
    ensures 16 * (x * p + y) + d == x * (16 * p) + (16 * y + d)
  {
  }

  /** A leading zero does not change a hex value. */
  lemma {:induction false} HexLeadingZero(s: string)
    requires AllHexDigits(s)
    ensures AllHexDigits("0" + s) && HexDigitsValue("0" + s) == HexDigitsValue(s)
    decreases |s|
  {
    var t := "0" + s;
    if s != [] {
      assert t[..|t| - 1] == "0" + s[..|s| - 1];
      HexLeadingZero(s[..|s| - 1]);
      HexDigitsValueLast(t);
      HexDigitsValueLast(s);
    } else {
      assert t == "0";
      assert t[..0] == [];
      HexDigitsValueLast(t);
    }
  }

  lemma {:induction false} HexLeadingZeros(n: nat, s: string)
    requires AllHexDigits(s)
    ensures AllHexDigits(Zeros(n) + s) && HexDigitsValue(Zeros(n) + s) == HexDigitsValue(s)
    decreases n
  {
    if n > 0 {
      assert Zeros(n) + s == "0" + (Zeros(n - 1) + s);
      HexLeadingZeros(n - 1, s);
      HexLeadingZero(Zeros(n - 1) + s);
    } else {
      assert Zeros(n) + s == s;
    }
  }

  /** Padding a hex digit string with zeros keeps its value. */
  lemma HexZeroPaddedValue(s: string, width: nat)
    requires AllHexDigits(s)
    ensures AllHexDigits(ZeroPadded(s, width)) && HexDigitsValue(ZeroPadded(s, width)) == HexDigitsValue(s)
  {
    if |s| < width {
      HexLeadingZeros(width - |s|, s);
    }
  }

  /** Exactly `width` hex digits of n, zero-padded on the left. */
  function HexFixed(n: nat, width: nat, upper: bool): (s: string)
    requires n < Pow16(width)
    ensures |s| == width && AllHexDigits(s)
  {
    if width == 0 then [] else HexFixed(n / 16, width - 1, upper) + [HexChar(n % 16, upper)]
  }

  lemma {:induction false} HexFixedRoundTrip(n: nat, width: nat, upper: bool)
    requires n < Pow16(width)
    ensures HexDigitsValue(HexFixed(n, width, upper)) == n
  {
    if width > 0 {
      var s := HexFixed(n, width, upper);
      assert s[..|s| - 1] == HexFixed(n / 16, width - 1, upper);
      HexFixedRoundTrip(n / 16, width - 1, upper);
      HexDigitsValueLast(s);
    }
  }

  lemma {:induction false} Pow16Add(m: nat, n: nat)
    ensures Pow16(m + n) == Pow16(m) * Pow16(n)
    decreases n
  {
    if n > 0 {
      Pow16Add(m, n - 1);
    }
  }

  lemma SpareFactor(k: nat, p: nat)
    requires k >= 1
    ensures k * p >= p
  {
  }

  /** A number of w1 digits followed by one of w2 digits fits in w1 + w2 digits. */
  lemma PlaceBound(x: nat, w1: nat, y: nat, w2: nat)
    requires x < Pow16(w1) && y < Pow16(w2)
    ensures x * Pow16(w2) + y < Pow16(w1 + w2)
  {
    Pow16Add(w1, w2);
    var p, q := Pow16(w2), Pow16(w1);
    SpareFactor(q - x, p);
    assert (q - x) * p == q * p - x * p;
  }

  lemma ShiftOutHexDigit(x: nat, p: nat, y: nat)
    ensures (x * (16 * p) + y) / 16 == x * p + y / 16 && (x * (16 * p) + y) % 16 == y % 16
  {
    assert x * (16 * p) + y == 16 * (x * p + y / 16) + y % 16;
  }

  /** The fixed-width digits of x * 16^w2 + y are those of x followed by those of y. */
  lemma {:induction false} HexFixedSplit(x: nat, w1: nat, y: nat, w2: nat, upper: bool)
    requires x < Pow16(w1) && y < Pow16(w2)
    ensures x * Pow16(w2) + y < Pow16(w1 + w2)
    ensures HexFixed(x * Pow16(w2) + y, w1 + w2, upper) == HexFixed(x, w1, upper) + HexFixed(y, w2, upper)
    decreases w2
  {
    PlaceBound(x, w1, y, w2);
    if w2 > 0 {
      ShiftOutHexDigit(x, Pow16(w2 - 1), y);
      HexFixedSplit(x, w1, y / 16, w2 - 1, upper);
    }
  }

  /** The number of hex digits "X" formatting uses: at least one, no leading zeros. */
  function HexWidth(n: nat): (w: nat)
    ensures w >= 1 && n < Pow16(w)
    ensures w > 1 ==> n >= Pow16(w - 1)
  {
    if n < 16 then 1 else 1 + HexWidth(n / 16)
  }

  /** The shortest hex digits of n, as the "X" and "x" format specifiers write them. */
  function HexText(n: nat, upper: bool): (s: string)
    ensures AllHexDigits(s) && |s| >= 1 && HexDigitsValue(s) == n
  {
    HexFixedRoundTrip(n, HexWidth(n), upper);
    HexFixed(n, HexWidth(n), upper)
  }
}
