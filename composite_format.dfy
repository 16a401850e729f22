// Composite formatting as StringBuilder.AppendFormat uses it: literal text
// with holes `{index[,width][:format]}` naming an argument by position, and
// `{{` / `}}` standing for a literal brace. The arguments are strings, so a
// hole's format part is read past and has no effect; its width pads the
// argument with spaces, on the left, or on the right for a negative width.
module CompositeFormat {
  import opened Wrappers
  import opened Digits

  function Prefixed(p: string, r: Result<string>): Result<string> {
    if r.Ok? then Ok(p + r.value) else r
  }

  /** What a hole asks for, and how many characters after its `{` it spans, `}` included. */
  datatype Hole = Hole(index: nat, width: nat, left: bool, length: nat)

  /** Where the run of digits that starts at position i of s ends. */
  function DigitsEnd(s: string, i: nat): (j: nat)
    requires i <= |s|
    ensures i <= j <= |s| && forall k :: i <= k < j ==> IsDigit(s[k])
    ensures j < |s| ==> !IsDigit(s[j])
    decreases |s| - i
  {
    if i < |s| && IsDigit(s[i]) then DigitsEnd(s, i + 1) else i
  }

  /** Where the run of spaces that starts at position i of s ends. */
  function SpacesEnd(s: string, i: nat): (j: nat)
    requires i <= |s|
    ensures i <= j <= |s| && forall k :: i <= k < j ==> s[k] == ' '
    ensures j < |s| ==> s[j] != ' '
    decreases |s| - i
  {
    if i < |s| && s[i] == ' ' then SpacesEnd(s, i + 1) else i
  }

  /** n spaces. */
  function Blanks(n: nat): (r: string)
    ensures |r| == n && forall k :: 0 <= k < n ==> r[k] == ' '
  {
    seq(n, _ => ' ')
  }

  /**
   * An argument in a field of the given width: unchanged when it is at
   * least that long, otherwise padded with spaces in front, or behind when
   * left-justified.
   */
  function Padded(x: string, width: nat, left: bool): (r: string)
    ensures |r| == if width > |x| then width else |x|
    ensures left ==> r[..|x|] == x && forall k :: |x| <= k < |r| ==> r[k] == ' '
    ensures !left ==> r[|r| - |x|..] == x && forall k :: 0 <= k < |r| - |x| ==> r[k] == ' '
  {
    var pad := Blanks(if width > |x| then width - |x| else 0);
    if left then x + pad else pad + x
  }

  /**
   * The format part of a hole, from position i (just after its `:`): the
   * position of the `}` that closes the hole. `{{` and `}}` inside stand
   * for braces; a lone `{`, or no closing `}`, is malformed.
   */
  function FormatEnd(s: string, i: nat): (r: Option<nat>)
    requires i <= |s|
    ensures r.Some? ==> i <= r.value < |s| && s[r.value] == '}'
    decreases |s| - i
  {
    if i == |s| then None
    else if (s[i] == '{' || s[i] == '}') && i + 1 < |s| && s[i + 1] == s[i] then FormatEnd(s, i + 2)
    else if s[i] == '{' then None
    else if s[i] == '}' then Some(i)
    else FormatEnd(s, i + 1)
  }

  /**
   * The hole whose text follows a `{`: index digits, spaces, an optional
   * alignment, an optional `:format`, then `}`; None when malformed.
   */
  function ParseHole(s: string): (r: Option<Hole>)
    ensures r.Some? ==> 0 < r.value.length <= |s| && s[r.value.length - 1] == '}'
    ensures r.Some? ==> IsDigit(s[0])
  {
    var d := DigitsEnd(s, 0);
    if d == 0 then None
    else
      assert AllDigits(s[..d]) by {
        forall k | 0 <= k < d ensures IsDigit(s[..d][k]) { assert s[..d][k] == s[k]; }
      }
      var i := SpacesEnd(s, d);
      if i < |s| && s[i] == ',' then Aligned(s, DecimalValue(s[..d]), SpacesEnd(s, i + 1))
      else HoleEnd(s, DecimalValue(s[..d]), 0, false, i)
  }

  /**
   * The width of a hole, from position j (after its `,` and the spaces
   * after that): a `-` for left justification, digits and trailing spaces.
   */
  function Aligned(s: string, index: nat, j: nat): (r: Option<Hole>)
    requires j <= |s|
    ensures r.Some? ==> j < r.value.length <= |s| && s[r.value.length - 1] == '}'
  {
    var left := j < |s| && s[j] == '-';
    var k := if left then j + 1 else j;
    var e := DigitsEnd(s, k);
    if e == k then None
    else
      assert AllDigits(s[k..e]) by {
        forall m | 0 <= m < e - k ensures IsDigit(s[k..e][m]) { assert s[k..e][m] == s[k + m]; }
      }
      HoleEnd(s, index, DecimalValue(s[k..e]), left, SpacesEnd(s, e))
  }

  /** The end of a hole from position j, once its index and width are read: `}`, or `:format}`. */
  function HoleEnd(s: string, index: nat, width: nat, left: bool, j: nat): (r: Option<Hole>)
    requires j <= |s|
    ensures r.Some? ==> j < r.value.length <= |s| && s[r.value.length - 1] == '}'
  {
    if j < |s| && s[j] == ':' then
      match FormatEnd(s, j + 1)
      case None => None
      case Some(e) => Some(Hole(index, width, left, e + 1))
    else if j < |s| && s[j] == '}' then Some(Hole(index, width, left, j + 1))
    else None
  }

  /**
   * The formatted text: each hole becomes its argument, padded to the
   * hole's width; a hole that is malformed or names an argument beyond the
   * last raises FormatException, as does a lone `}`.
   */
  function Formatted(fmt: string, args: seq<string>): (r: Result<string>)
    ensures r.Err? ==> r.error == Format
    decreases |fmt|, 2
  {
    if fmt == [] then Ok("")
    else if fmt[0] == '{' then BraceFormatted(fmt, args)
    else if fmt[0] == '}' && |fmt| > 1 && fmt[1] == '}' then Prefixed("}", Formatted(fmt[2..], args))
    else if fmt[0] == '}' then Err(Format)
    else Prefixed([fmt[0]], Formatted(fmt[1..], args))
  }

  /** A format that opens with `{`: an escaped brace, or a hole. */
  function BraceFormatted(fmt: string, args: seq<string>): (r: Result<string>)
    requires fmt != []
    ensures r.Err? ==> r.error == Format
    decreases |fmt|, 1
  {
    if |fmt| > 1 && fmt[1] == '{' then Prefixed("{", Formatted(fmt[2..], args))
    else HoleFormatted(fmt, args)
  }

  /** A format that opens with a hole: its argument, padded, then the rest of the format. */
  function HoleFormatted(fmt: string, args: seq<string>): (r: Result<string>)
    requires fmt != []
    ensures r.Err? ==> r.error == Format
    decreases |fmt|, 0
  {
    match ParseHole(fmt[1..])
    case None => Err(Format)
    case Some(h) =>
      if h.index >= |args| then Err(Format)
      else Prefixed(Padded(args[h.index], h.width, h.left), Formatted(fmt[1 + h.length..], args))
  }

  /**
   * The text a builder has received when formatting stops: the whole
   * formatted text, or, at a malformed hole, a hole naming an argument
   * beyond the last, or a lone `}`, everything expanded in front of it.
   */
  function Expansion(fmt: string, args: seq<string>): (r: string)
    ensures Formatted(fmt, args).Ok? ==> r == Formatted(fmt, args).value
    decreases |fmt|, 2
  {
    if fmt == [] then ""
    else if fmt[0] == '{' then BraceExpansion(fmt, args)
    else if fmt[0] == '}' && |fmt| > 1 && fmt[1] == '}' then "}" + Expansion(fmt[2..], args)
    else if fmt[0] == '}' then ""
    else [fmt[0]] + Expansion(fmt[1..], args)
  }

  /** The expansion of a format that opens with `{`. */
  function BraceExpansion(fmt: string, args: seq<string>): (r: string)
    requires fmt != []
    ensures BraceFormatted(fmt, args).Ok? ==> r == BraceFormatted(fmt, args).value
    decreases |fmt|, 1
  {
    if |fmt| > 1 && fmt[1] == '{' then "{" + Expansion(fmt[2..], args)
    else HoleExpansion(fmt, args)
  }

  /** The expansion of a format that opens with a hole: nothing when the hole fails. */
  function HoleExpansion(fmt: string, args: seq<string>): (r: string)
    requires fmt != []
    ensures HoleFormatted(fmt, args).Ok? ==> r == HoleFormatted(fmt, args).value
    decreases |fmt|, 0
  {
    match ParseHole(fmt[1..])
    case None => ""
    case Some(h) =>
      if h.index >= |args| then ""
      else Padded(args[h.index], h.width, h.left) + Expansion(fmt[1 + h.length..], args)
  }

  predicate NoBraces(s: string) { forall k :: 0 <= k < |s| ==> s[k] != '{' && s[k] != '}' }

  /** A character that is not a brace is copied unchanged. */
  lemma FormattedChar(c: char, rest: string, args: seq<string>)
    requires c != '{' && c != '}'
    ensures Formatted([c] + rest, args) == Prefixed([c], Formatted(rest, args))
  {
    assert ([c] + rest)[1..] == rest;
  }

  /** Literal text in front of the rest of a format is copied unchanged. */
  lemma {:induction false} FormattedLiteral(lit: string, rest: string, args: seq<string>)
    requires NoBraces(lit)
    ensures Formatted(lit + rest, args) == Prefixed(lit, Formatted(rest, args))
  {
    if lit != [] {
      assert lit + rest == [lit[0]] + (lit[1..] + rest);
      FormattedChar(lit[0], lit[1..] + rest, args);
      FormattedLiteral(lit[1..], rest, args);
      var f := Formatted(rest, args);
      if f.Ok? {
        assert [lit[0]] + (lit[1..] + f.value) == lit + f.value;
      }
    } else {
      assert lit + rest == rest;
      var f := Formatted(rest, args);
      if f.Ok? {
        assert lit + f.value == f.value;
      }
    }
  }

  /** A hole at the front of a format becomes its argument, padded, or FormatException past the last one. */
  lemma FormattedParsed(fmt: string, args: seq<string>)
    requires fmt != [] && fmt[0] == '{' && ParseHole(fmt[1..]).Some?
    ensures var h := ParseHole(fmt[1..]).value;
      Formatted(fmt, args) == if h.index < |args| then
        Prefixed(Padded(args[h.index], h.width, h.left), Formatted(fmt[1 + h.length..], args))
      else Err(Format)
  {
    assert IsDigit(fmt[1..][0]);
    assert Formatted(fmt, args) == BraceFormatted(fmt, args) == HoleFormatted(fmt, args);
  }

  /** Width 0 leaves every argument as it is. */
  lemma UnpaddedArgument(args: seq<string>)
    ensures forall x :: Padded(x, 0, false) == x
  {
    forall x ensures Padded(x, 0, false) == x {
      assert Blanks(0) + x == x;
    }
  }

  /** A run of digits from i that stops at j is the one DigitsEnd finds. */
  lemma DigitsEndAt(s: string, i: nat, j: nat)
    requires i <= j <= |s| && (forall k :: i <= k < j ==> IsDigit(s[k])) && (j < |s| ==> !IsDigit(s[j]))
    ensures DigitsEnd(s, i) == j
  {
  }

  /** A run of spaces from i that stops at j is the one SpacesEnd finds. */
  lemma SpacesEndAt(s: string, i: nat, j: nat)
    requires i <= j <= |s| && (forall k :: i <= k < j ==> s[k] == ' ') && (j < |s| ==> s[j] != ' ')
    ensures SpacesEnd(s, i) == j
  {
  }

  /** A format part without braces from i runs to the `}` at j, when no `}` follows it. */
  lemma {:induction false} FormatEndPlain(s: string, i: nat, j: nat)
    requires i <= j < |s| && s[j] == '}' && (j + 1 == |s| || s[j + 1] != '}')
    requires forall k :: i <= k < j ==> s[k] != '{' && s[k] != '}'
    ensures FormatEnd(s, i) == Some(j)
    decreases j - i
  {
    if i < j {
      FormatEndPlain(s, i + 1, j);
    }
  }

  /** Index digits up to d, spaces up to j, then `}`: no width, no format. */
  lemma HoleOfIndexAt(s: string, d: nat, j: nat)
    requires 0 < d <= j < |s| && s[j] == '}'
    requires forall k :: 0 <= k < d ==> IsDigit(s[k])
    requires forall k :: d <= k < j ==> s[k] == ' '
    ensures AllDigits(s[..d])
    ensures ParseHole(s) == Some(Hole(DecimalValue(s[..d]), 0, false, j + 1))
  {
    DigitsEndAt(s, 0, d);
    SpacesEndAt(s, d, j);
    assert AllDigits(s[..d]) by {
      forall k | 0 <= k < d ensures IsDigit(s[..d][k]) { assert s[..d][k] == s[k]; }
    }
  }

  /** A hole of index digits t in front of the rest of a format. */
  lemma FormattedDigitsHole(t: string, rest: string, args: seq<string>)
    requires AllDigits(t) && t != []
    ensures var f := Formatted("{" + t + "}" + rest, args);
      if DecimalValue(t) < |args| then f == Prefixed(args[DecimalValue(t)], Formatted(rest, args)) else f == Err(Format)
  {
    var fmt := "{" + t + "}" + rest;
    var s := fmt[1..];
    assert s == t + "}" + rest;
    assert forall k :: 0 <= k < |t| ==> s[k] == t[k];
    assert s[|t|] == '}';
    HoleOfIndexAt(s, |t|, |t|);
    assert s[..|t|] == t;
    FormattedParsed(fmt, args);
    assert fmt[1 + (|t| + 1)..] == rest;
    UnpaddedArgument(args);
  }

  /** A hole `{k}` in front of the rest of a format becomes args[k]. */
  lemma FormattedHole(k: nat, rest: string, args: seq<string>)
    ensures var f := Formatted("{" + DecimalText(k) + "}" + rest, args);
      if k < |args| then f == Prefixed(args[k], Formatted(rest, args)) else f == Err(Format)
  {
    DecimalTextRoundTrip(k);
    FormattedDigitsHole(DecimalText(k), rest, args);
  }

  predicate AllBlank(s: string) { forall k :: 0 <= k < |s| ==> s[k] == ' ' }

  /** Index digits t, spaces sp, then `}`. */
  lemma HoleOfSpacedIndex(t: string, sp: string, rest: string)
    requires AllDigits(t) && t != [] && AllBlank(sp)
    ensures ParseHole(t + sp + "}" + rest) == Some(Hole(DecimalValue(t), 0, false, |t| + |sp| + 1))
  {
    var s := t + sp + "}" + rest;
    assert forall k :: 0 <= k < |t| ==> s[k] == t[k];
    assert forall k :: |t| <= k < |t| + |sp| ==> s[k] == sp[k - |t|];
    assert s[|t| + |sp|] == '}';
    HoleOfIndexAt(s, |t|, |t| + |sp|);
    assert s[..|t|] == t;
  }

  /** Index digits t, then `:spec}` with a format part that has no braces. */
  lemma HoleOfFormatPart(t: string, spec: string, rest: string)
    requires AllDigits(t) && t != [] && NoBraces(spec) && (rest == [] || rest[0] != '}')
    ensures ParseHole(t + ":" + spec + "}" + rest) == Some(Hole(DecimalValue(t), 0, false, |t| + 1 + |spec| + 1))
  {
    var s := t + ":" + spec + "}" + rest;
    var d := |t|;
    var e := d + 1 + |spec|;
    assert forall k :: 0 <= k < d ==> s[k] == t[k];
    assert s[d] == ':';
    assert forall k :: d + 1 <= k < e ==> s[k] == spec[k - d - 1];
    assert s[e] == '}';
    assert e + 1 < |s| ==> s[e + 1] == rest[0];
    DigitsEndAt(s, 0, d);
    SpacesEndAt(s, d, d);
    FormatEndPlain(s, d + 1, e);
    assert s[..d] == t;
  }

  /** Index digits up to d, then `,` at d: the hole goes on with its width from d + 1. */
  lemma HoleOfCommaAt(s: string, d: nat)
    requires 0 < d && d + 1 < |s| && s[d] == ',' && s[d + 1] != ' '
    requires forall k :: 0 <= k < d ==> IsDigit(s[k])
    ensures AllDigits(s[..d])
    ensures ParseHole(s) == Aligned(s, DecimalValue(s[..d]), d + 1)
  {
    DigitsEndAt(s, 0, d);
    SpacesEndAt(s, d, d);
    SpacesEndAt(s, d + 1, d + 1);
    assert AllDigits(s[..d]) by {
      forall k | 0 <= k < d ensures IsDigit(s[..d][k]) { assert s[..d][k] == s[k]; }
    }
  }

  /** A width from j: `-` when left, digits from k up to e, then `}`. */
  lemma AlignedAt(s: string, index: nat, j: nat, left: bool, k: nat, e: nat)
    requires j < |s| && (s[j] == '-') == left && k == (if left then j + 1 else j)
    requires k < e < |s| && s[e] == '}' && forall m :: k <= m < e ==> IsDigit(s[m])
    ensures AllDigits(s[k..e])
    ensures Aligned(s, index, j) == Some(Hole(index, DecimalValue(s[k..e]), left, e + 1))
  {
    DigitsEndAt(s, k, e);
    SpacesEndAt(s, e, e);
    assert AllDigits(s[k..e]) by {
      forall m | 0 <= m < e - k ensures IsDigit(s[k..e][m]) { assert s[k..e][m] == s[k + m]; }
    }
  }

  /** Index digits up to d, `,`, `-` when left, width digits from k up to e, then `}`. */
  predicate WidthLayout(s: string, d: nat, left: bool, k: nat, e: nat) {
    0 < d && d + 1 < |s| && s[d] == ',' && (s[d + 1] == '-') == left &&
    k == (if left then d + 2 else d + 1) && k < e < |s| && s[e] == '}' &&
    (forall m :: 0 <= m < d ==> IsDigit(s[m])) &&
    (forall m :: k <= m < e ==> IsDigit(s[m]))
  }

  /** A hole laid out as WidthLayout says: its index, then its width and side. */
  lemma HoleOfWidthAt(s: string, d: nat, left: bool, k: nat, e: nat)
    requires WidthLayout(s, d, left, k, e)
    ensures AllDigits(s[..d]) && AllDigits(s[k..e])
    ensures ParseHole(s) == Some(Hole(DecimalValue(s[..d]), DecimalValue(s[k..e]), left, e + 1))
  {
    HoleOfCommaAt(s, d);
    AlignedAt(s, DecimalValue(s[..d]), d + 1, left, k, e);
  }

  /** The piece b of a + b + c + d. */
  lemma Middle(a: string, b: string, c: string, d: string)
    ensures (a + b + c + d)[|a|..|a| + |b|] == b
  {
    var s := a + b + c + d;
    forall m | 0 <= m < |b| ensures s[|a|..|a| + |b|][m] == b[m] {
      assert s[|a| + m] == (a + b)[|a| + m];
    }
  }

  /** The sign of a width: `-` for a left-justified field. */
  function Sign(left: bool): string { if left then "-" else "" }

  /** Index digits t, then `,` and width digits u, negative when left, then `}`. */
  lemma HoleOfWidth(t: string, left: bool, u: string, rest: string)
    requires AllDigits(t) && t != [] && AllDigits(u) && u != []
    ensures ParseHole(t + "," + Sign(left) + u + "}" + rest) == Some(Hole(DecimalValue(t), DecimalValue(u), left, |t| + 1 + |Sign(left)| + |u| + 1))
  {
    var k := |t| + 1 + |Sign(left)|;
    WidthText(t, left, u, rest);
    HoleOfWidthAt(t + "," + Sign(left) + u + "}" + rest, |t|, left, k, k + |u|);
  }

  /** Where the pieces of `t,[-]u}` + rest sit. */
  lemma WidthText(t: string, left: bool, u: string, rest: string)
    requires AllDigits(t) && t != [] && AllDigits(u) && u != []
    ensures var s := t + "," + Sign(left) + u + "}" + rest; var k := |t| + 1 + |Sign(left)|;
      WidthLayout(s, |t|, left, k, k + |u|) && s[..|t|] == t && s[k..k + |u|] == u
  {
    var sign := Sign(left);
    var s := t + "," + sign + u + "}" + rest;
    var k := |t| + 1 + |sign|;
    assert forall m :: 0 <= m < |t| ==> s[m] == t[m];
    assert forall m :: k <= m < k + |u| ==> s[m] == u[m - k];
    assert s[|t| + 1] == if left then '-' else u[0];
    assert s[..|t|] == t;
    Middle(t + "," + sign, u, "}", rest);
  }

  /**
   * A hole `{t:spec}` reads as `{t}`: a format part does not change a
   * string argument. (A `}` right after the hole would pair with its own
   * `}` as an escaped brace inside the format part.)
   */
  lemma FormatPartIgnored(t: string, spec: string, rest: string, args: seq<string>)
    requires AllDigits(t) && t != [] && NoBraces(spec) && (rest == [] || rest[0] != '}')
    ensures Formatted("{" + t + ":" + spec + "}" + rest, args) == Formatted("{" + t + "}" + rest, args)
  {
    var fmt := "{" + t + ":" + spec + "}" + rest;
    assert fmt[1..] == t + ":" + spec + "}" + rest;
    HoleOfFormatPart(t, spec, rest);
    FormattedParsed(fmt, args);
    assert fmt[1 + (|t| + 1 + |spec| + 1)..] == rest;
    UnpaddedArgument(args);
    FormattedDigitsHole(t, rest, args);
  }

  /** Spaces before a hole's `}` are read past. */
  lemma SpacedHole(t: string, sp: string, rest: string, args: seq<string>)
    requires AllDigits(t) && t != [] && AllBlank(sp)
    ensures Formatted("{" + t + sp + "}" + rest, args) == Formatted("{" + t + "}" + rest, args)
  {
    var fmt := "{" + t + sp + "}" + rest;
    assert fmt[1..] == t + sp + "}" + rest;
    HoleOfSpacedIndex(t, sp, rest);
    FormattedParsed(fmt, args);
    assert fmt[1 + (|t| + |sp| + 1)..] == rest;
    UnpaddedArgument(args);
    FormattedDigitsHole(t, rest, args);
  }

  /**
   * A hole `{t,u}` (or `{t,-u}` when left) becomes argument t padded with
   * spaces to width u, in front (or behind).
   */
  lemma AlignedHole(t: string, left: bool, u: string, rest: string, args: seq<string>)
    requires AllDigits(t) && t != [] && AllDigits(u) && u != []
    ensures var f := Formatted("{" + t + "," + Sign(left) + u + "}" + rest, args);
      var k := DecimalValue(t);
      if k < |args| then f == Prefixed(Padded(args[k], DecimalValue(u), left), Formatted(rest, args)) else f == Err(Format)
  {
    var sign := Sign(left);
    var fmt := "{" + t + "," + sign + u + "}" + rest;
    assert fmt[1..] == t + "," + sign + u + "}" + rest;
    HoleOfWidth(t, left, u, rest);
    FormattedParsed(fmt, args);
    assert fmt[1 + (|t| + 1 + |sign| + |u| + 1)..] == rest;
  }

  /** FormattedLiteral, for a format already known to be lit + rest. */
  lemma FormattedLiteralAt(fmt: string, lit: string, rest: string, args: seq<string>)
    requires NoBraces(lit) && fmt == lit + rest
    ensures Formatted(fmt, args) == Prefixed(lit, Formatted(rest, args))
  {
    FormattedLiteral(lit, rest, args);
  }

  /** FormattedDigitsHole, for a format already known to be `{t}` + rest. */
  lemma FormattedDigitsHoleAt(fmt: string, t: string, rest: string, args: seq<string>)
    requires AllDigits(t) && t != [] && DecimalValue(t) < |args|
    requires fmt == "{" + t + "}" + rest
    ensures Formatted(fmt, args) == Prefixed(args[DecimalValue(t)], Formatted(rest, args))
  {
    FormattedDigitsHole(t, rest, args);
  }

  /** Two holes, each after a run of literal text. */
  lemma FormattedTwoHoles(fmt: string, a: string, t1: string, b: string, t2: string, args: seq<string>)
    requires NoBraces(a) && NoBraces(b)
    requires AllDigits(t1) && t1 != [] && DecimalValue(t1) < |args|
    requires AllDigits(t2) && t2 != [] && DecimalValue(t2) < |args|
    requires fmt == a + "{" + t1 + "}" + b + "{" + t2 + "}"
    ensures Formatted(fmt, args) == Ok(a + args[DecimalValue(t1)] + b + args[DecimalValue(t2)])
  {
    var x1, x2 := args[DecimalValue(t1)], args[DecimalValue(t2)];
    var f2 := b + "{" + t2 + "}";
    assert Formatted([], args) == Ok([]);
    assert f2 + [] == f2;
    FormattedSegment(b, t2, [], args, []);
    assert fmt == a + "{" + t1 + "}" + f2;
    FormattedSegment(a, t1, f2, args, b + x2 + []);
    assert a + x1 + (b + x2 + []) == a + x1 + b + x2;
  }

  /** Literal text, one hole, then a rest that formats to `tail`. */
  lemma FormattedSegment(lit: string, t: string, rest: string, args: seq<string>, tail: string)
    requires NoBraces(lit) && AllDigits(t) && t != [] && DecimalValue(t) < |args|
    requires Formatted(rest, args) == Ok(tail)
    ensures Formatted(lit + "{" + t + "}" + rest, args) == Ok(lit + args[DecimalValue(t)] + tail)
  {
    var f1 := "{" + t + "}" + rest;
    assert lit + "{" + t + "}" + rest == lit + f1;
    FormattedDigitsHoleAt(f1, t, rest, args);
    FormattedLiteralAt(lit + f1, lit, f1, args);
    assert lit + (args[DecimalValue(t)] + tail) == lit + args[DecimalValue(t)] + tail;
  }

  /** StringBuilder.cs 244-249: "Foo {0} Bar {1}" with "Red" and "Green". */
  lemma FormatExample(fmt: string, args: seq<string>)
    requires fmt == "Foo {0} Bar {1}" && args == ["Red", "Green"]
    ensures Formatted(fmt, args) == Ok("Foo Red Bar Green")
  {
    FormatExamplePieces();
    FormattedTwoHoles(fmt, "Foo ", "0", " Bar ", "1", args);
  }

  /** The example format and its expansion, cut at the holes. */
  lemma FormatExamplePieces()
    ensures NoBraces("Foo ") && NoBraces(" Bar ")
    ensures AllDigits("0") && DecimalValue("0") == 0 && AllDigits("1") && DecimalValue("1") == 1
    ensures "Foo " + "{" + "0" + "}" + " Bar " + "{" + "1" + "}" == "Foo {0} Bar {1}"
    ensures "Foo " + "Red" + " Bar " + "Green" == "Foo Red Bar Green"
  {
  }

  /**
   * "ab{5}" with one argument: the hole names an argument beyond the last,
   * so formatting fails, after "ab" has been expanded.
   */
  lemma ExpansionBeforeBadHole(fmt: string, args: seq<string>)
    requires fmt == "ab{5}" && args == ["x"]
    ensures Formatted(fmt, args) == Err(Format)
    ensures Expansion(fmt, args) == "ab"
  {
    var hole := fmt[2..];
    assert fmt[1..] == "b" + hole && hole[1..] == "5}";
    HoleOfIndexAt("5}", 1, 1);
    assert "5}"[..1] == "5";
    assert DecimalValue("5") == 5;
    assert HoleFormatted(hole, args) == Err(Format);
    assert HoleExpansion(hole, args) == "";
    assert Formatted(hole, args) == Err(Format) && Expansion(hole, args) == "";
    var tail := fmt[1..];
    assert tail[1..] == hole;
    assert Formatted(tail, args) == Err(Format) && Expansion(tail, args) == "b";
  }
}
