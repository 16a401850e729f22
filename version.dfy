// System.Version (Version.cs): two to four non-negative int components,
// Major.Minor[.Build[.Revision]], where an omitted Build or Revision reads
// back as -1. Versions order component by component, print their defined
// components joined by '.', and parse that text back.
module Versions {
  import opened Wrappers
  import opened Digits
  import opened Integers
  import NumberParsing

  datatype Version = Version(major: int, minor: int, build: int, revision: int)

  /** Major and Minor are defined; Build and Revision are -1 when omitted, and Revision only exists with Build. */
  predicate Valid(v: Version) {
    0 <= v.major <= Int32Max && 0 <= v.minor <= Int32Max
    && -1 <= v.build <= Int32Max && -1 <= v.revision <= Int32Max
    && (v.build == -1 ==> v.revision == -1)
  }

  predicate AllComponents(c: seq<int>) {
    forall k :: 0 <= k < |c| ==> 0 <= c[k] <= Int32Max
  }

  /** The defined components, in order. */
  function Components(v: Version): (c: seq<int>)
    requires Valid(v)
    ensures 2 <= |c| <= 4 && AllComponents(c)
    ensures c[0] == v.major && c[1] == v.minor
    ensures |c| >= 3 <==> v.build >= 0
    ensures |c| >= 3 ==> c[2] == v.build
    ensures |c| == 4 <==> v.revision >= 0
    ensures |c| == 4 ==> c[3] == v.revision
  {
    [v.major, v.minor] + (if v.build >= 0 then [v.build] else []) + (if v.revision >= 0 then [v.revision] else [])
  }

  /** A version is determined by its defined components. */
  lemma ComponentsInjective(v: Version, w: Version)
    requires Valid(v) && Valid(w) && Components(v) == Components(w)
    ensures v == w
  {
    var c := Components(v);
    assert c[0] == w.major && c[1] == w.minor;
  }

  /**
   * new Version(major, minor), (major, minor, build) and (major, minor,
   * build, revision): any negative argument raises
   * ArgumentOutOfRangeException; otherwise the arguments are the defined
   * components and the omitted ones are -1.
   */
  function New(parts: seq<int>): (r: Result<Version>)
    requires 2 <= |parts| <= 4 && forall k :: 0 <= k < |parts| ==> Int32Min <= parts[k] <= Int32Max
    ensures r.Ok? <==> forall k :: 0 <= k < |parts| ==> parts[k] >= 0
    ensures r.Err? ==> r.error == ArgumentOutOfRange
    ensures r.Ok? ==> Valid(r.value) && Components(r.value) == parts
    ensures r.Ok? ==> r.value.build == (if |parts| >= 3 then parts[2] else -1)
    ensures r.Ok? ==> r.value.revision == (if |parts| == 4 then parts[3] else -1)
  {
    if !AllComponents(parts) then
      assert exists k :: 0 <= k < |parts| && parts[k] < 0;
      Err(ArgumentOutOfRange)
    else
      assert 0 <= parts[0] && 0 <= parts[1];
      var v := Version(parts[0], parts[1], if |parts| >= 3 then parts[2] else -1, if |parts| == 4 then parts[3] else -1);
      assert Components(v) == parts;
      Ok(v)
  }

  /** MajorRevision: `(short)(Revision >> 16)`, the high 16 bits of Revision. */
  function MajorRevision(v: Version): (r: int)
    requires Valid(v)
    ensures Int16.Contains(r)
  {
    Wrap(Int16, v.revision / 0x1_0000)
  }

  /** MinorRevision: `(short)(Revision & 0xFFFF)`, the low 16 bits of Revision read as a short. */
  function MinorRevision(v: Version): (r: int)
    requires Valid(v)
    ensures Int16.Contains(r)
  {
    Wrap(Int16, v.revision % 0x1_0000)
  }

  /** The two halves put back together give Revision, whether it is defined or -1. */
  lemma RevisionHalves(v: Version)
    requires Valid(v)
    ensures v.revision == MajorRevision(v) * 0x1_0000 + Unsigned(Int16, MinorRevision(v))
  {
    var hi, lo := v.revision / 0x1_0000, v.revision % 0x1_0000;
    assert -1 <= hi <= 0x7FFF;
    WrapUnsigned(Int16, MinorRevision(v));
    assert Wrap(Int16, lo) % Int16.Modulus() == lo;
  }

  // ---- ordering and equality ----

  /** All four fields, an omitted one as -1. */
  function Key(v: Version): seq<int> {
    [v.major, v.minor, v.build, v.revision]
  }

  /** Lexicographic order on sequences of one length. */
  predicate Less(a: seq<int>, b: seq<int>)
    requires |a| == |b|
  {
    |a| > 0 && (a[0] < b[0] || (a[0] == b[0] && Less(a[1..], b[1..])))
  }

  /**
   * CompareTo(Version) and IComparable.CompareTo(object): any version is
   * above null; otherwise Major, Minor, Build and Revision decide in turn,
   * an omitted component (-1) below every defined one.
   */
  function CompareTo(v: Version, o: Option<Version>): (r: int)
    ensures -1 <= r <= 1
    ensures o.None? ==> r == 1
    ensures o.Some? ==> (r < 0 <==> Less(Key(v), Key(o.value)))
    ensures o.Some? ==> (r == 0 <==> v == o.value)
    ensures o.Some? ==> (r > 0 <==> Less(Key(o.value), Key(v)))
  {
    match o
    case None => 1
    case Some(w) =>
      KeyOrder(v, w);
      KeyOrder(w, v);
      if v.major != w.major then (if v.major > w.major then 1 else -1)
      else if v.minor != w.minor then (if v.minor > w.minor then 1 else -1)
      else if v.build != w.build then (if v.build > w.build then 1 else -1)
      else if v.revision != w.revision then (if v.revision > w.revision then 1 else -1)
      else 0
  }

  /** On keys, Less is Major, then Minor, then Build, then Revision. */
  lemma KeyOrder(v: Version, w: Version)
    ensures Less(Key(v), Key(w)) <==> (v.major < w.major || (v.major == w.major && (v.minor < w.minor
      || (v.minor == w.minor && (v.build < w.build || (v.build == w.build && v.revision < w.revision))))))
  {
    var a, b := Key(v), Key(w);
    var a1, b1 := [v.minor, v.build, v.revision], [w.minor, w.build, w.revision];
    var a2, b2 := [v.build, v.revision], [w.build, w.revision];
    var a3, b3 := [v.revision], [w.revision];
    assert a[1..] == a1 && b[1..] == b1 && a1[1..] == a2 && b1[1..] == b2 && a2[1..] == a3 && b2[1..] == b3;
    assert Less(a3, b3) <==> v.revision < w.revision by {
      assert a3[1..] == [] && b3[1..] == [];
    }
    assert Less(a2, b2) <==> (v.build < w.build || (v.build == w.build && Less(a3, b3)));
    assert Less(a1, b1) <==> (v.minor < w.minor || (v.minor == w.minor && Less(a2, b2)));
  }

  /** The order is a strict total order: irreflexive and trichotomous. */
  lemma {:induction false} LessTotal(a: seq<int>, b: seq<int>)
    requires |a| == |b|
    ensures !Less(a, a)
    ensures a == b || Less(a, b) || Less(b, a)
    ensures !(Less(a, b) && Less(b, a))
  {
    if |a| > 0 {
      LessTotal(a[1..], b[1..]);
      if a[0] == b[0] && a[1..] == b[1..] {
        assert a == [a[0]] + a[1..] && b == [b[0]] + b[1..];
      }
    }
  }

  /** The order is transitive. */
  lemma {:induction false} LessTransitive(a: seq<int>, b: seq<int>, c: seq<int>)
    requires |a| == |b| == |c| && Less(a, b) && Less(b, c)
    ensures Less(a, c)
  {
    if a[0] == b[0] == c[0] {
      LessTransitive(a[1..], b[1..], c[1..]);
    }
  }

  /** CompareTo is antisymmetric: swapping the operands negates the result. */
  lemma CompareToAntisymmetric(v: Version, w: Version)
    ensures CompareTo(v, Some(w)) == -CompareTo(w, Some(v))
  {
    LessTotal(Key(v), Key(w));
  }

  /** Equals(Version) and Equals(object): the same four fields, so 10.10.10.10 is not 10.10. */
  function Equals(v: Version, o: Option<Version>): (r: bool)
    ensures r <==> o == Some(v)
    ensures r <==> o.Some? && CompareTo(v, o) == 0
  {
    o.Some? && v.major == o.value.major && v.minor == o.value.minor
    && v.build == o.value.build && v.revision == o.value.revision
  }

  /**
   * GetHashCode: the low 4 bits of Major, 8 of Minor, 8 of Build and 12 of
   * Revision packed into one int, so equal versions hash alike.
   */
  function HashCode(v: Version): (h: int)
    ensures IsInt32(h)
  {
    var packed := (v.major % 0x10) * 0x1000_0000 + (v.minor % 0x100) * 0x10_0000 + (v.build % 0x100) * 0x1000 + v.revision % 0x1000;
    if packed >= 0x8000_0000 then packed - 0x1_0000_0000 else packed
  }

  /** Equal versions hash alike. */
  lemma HashCodeEquals(v: Version, o: Option<Version>)
    requires Equals(v, o)
    ensures HashCode(v) == HashCode(o.value)
  {
  }

  /** Each unequal pair of the tests hashes apart (Version.cs 121-124, 150-155). */
  lemma HashCodeApart()
    ensures HashCode(Version(5, 5, -1, -1)) != HashCode(Version(5, 4, -1, -1))
    ensures HashCode(Version(10, 10, 10, -1)) != HashCode(Version(10, 10, 2, -1))
    ensures HashCode(Version(10, 10, 10, 10)) != HashCode(Version(10, 10, 10, 3))
    ensures HashCode(Version(10, 10, 10, 10)) != HashCode(Version(10, 10, -1, -1))
  {
    assert HashCode(Version(5, 5, -1, -1)) == 0x505F_FFFF;
    assert HashCode(Version(5, 4, -1, -1)) == 0x504F_FFFF;
    assert HashCode(Version(10, 10, 10, -1)) == 0xA0A0_AFFF - 0x1_0000_0000;
    assert HashCode(Version(10, 10, 2, -1)) == 0xA0A0_2FFF - 0x1_0000_0000;
    assert HashCode(Version(10, 10, 10, 10)) == 0xA0A0_A00A - 0x1_0000_0000;
    assert HashCode(Version(10, 10, 10, 3)) == 0xA0A0_A003 - 0x1_0000_0000;
    assert HashCode(Version(10, 10, -1, -1)) == 0xA0AF_FFFF - 0x1_0000_0000;
  }

  // ---- text ----

  /** The decimal text of each component. */
  function Texts(c: seq<int>): (t: seq<string>)
    requires AllComponents(c)
    ensures |t| == |c|
    ensures forall k :: 0 <= k < |t| ==> Canonical(t[k]) && DecimalValue(t[k]) == c[k]
    ensures forall k :: 0 <= k < |t| ==> t[k] == DecimalText(c[k])
  {
    if c == [] then []
    else
      DecimalTextRoundTrip(c[0]);
      IsCanonical(c[0]);
      [DecimalText(c[0])] + Texts(c[1..])
  }

  lemma IsCanonical(n: nat)
    ensures Canonical(DecimalText(n))
  {
  }

  predicate NoDot(s: string) {
    forall k :: 0 <= k < |s| ==> s[k] != '.'
  }

  /** Texts joined with '.' between them; no texts make the empty string. */
  function Join(parts: seq<string>): (s: string)
    decreases |parts|
  {
    if parts == [] then []
    else if |parts| == 1 then parts[0]
    else parts[0] + "." + Join(parts[1..])
  }

  /** Two to four pieces joined. */
  lemma JoinDisplay(parts: seq<string>)
    requires 2 <= |parts| <= 4
    ensures Join(parts) == parts[0] + "." + parts[1] + (if |parts| >= 3 then "." + parts[2] else [])
      + (if |parts| == 4 then "." + parts[3] else [])
  {
    var r := parts[1..];
    if |parts| >= 3 {
      var r2 := r[1..];
      if |parts| == 4 {
        assert Join(r2) == r2[0] + "." + Join(r2[1..]);
      }
    }
  }

  /** String.Split('.'): the pieces between the dots, at least one. */
  function Split(s: string): (parts: seq<string>)
    ensures |parts| >= 1
    ensures forall k :: 0 <= k < |parts| ==> NoDot(parts[k])
    ensures Join(parts) == s
  {
    if s == [] then [[]]
    else
      var rest := Split(s[1..]);
      if s[0] == '.' then
        assert s == [] + "." + Join(rest);
        [[]] + rest
      else
        var parts := [[s[0]] + rest[0]] + rest[1..];
        assert parts[1..] == rest[1..];
        parts
  }

  /** Text without a dot splits into itself. */
  lemma {:induction false} SplitNoDot(s: string)
    requires NoDot(s)
    ensures Split(s) == [s]
    decreases |s|
  {
    if s != [] {
      SplitNoDot(s[1..]);
      assert s == [s[0]] + s[1..];
    }
  }

  /** A dot-free piece in front of a dot splits off as the first piece. */
  lemma {:induction false} SplitFront(a: string, rest: string)
    requires NoDot(a)
    ensures Split(a + "." + rest) == [a] + Split(rest)
    decreases |a|
  {
    var s := a + "." + rest;
    if a == [] {
      assert s[0] == '.' && s[1..] == rest;
    } else {
      assert s[0] == a[0] && s[1..] == a[1..] + "." + rest;
      SplitFront(a[1..], rest);
      assert [a[0]] + a[1..] == a;
    }
  }

  /** Splitting text joined from dot-free pieces gives the pieces back. */
  lemma {:induction false} SplitJoin(parts: seq<string>)
    requires |parts| >= 1 && forall k :: 0 <= k < |parts| ==> NoDot(parts[k])
    ensures Split(Join(parts)) == parts
    decreases |parts|
  {
    if |parts| == 1 {
      SplitNoDot(parts[0]);
    } else {
      SplitJoin(parts[1..]);
      SplitFront(parts[0], Join(parts[1..]));
      assert [parts[0]] + parts[1..] == parts;
    }
  }

  /** ToString(): the defined components joined with '.'. */
  function Text(v: Version): (s: string)
    requires Valid(v)
    ensures Split(s) == Texts(Components(v))
  {
    TextsNoDot(Components(v));
    SplitJoin(Texts(Components(v)));
    Join(Texts(Components(v)))
  }

  /** ToString() is Major.Minor, then .Build and .Revision where they are defined. */
  lemma TextShape(v: Version)
    requires Valid(v)
    ensures Text(v) == DecimalText(v.major) + "." + DecimalText(v.minor)
      + (if v.build >= 0 then "." + DecimalText(v.build) else [])
      + (if v.revision >= 0 then "." + DecimalText(v.revision) else [])
  {
    JoinDisplay(Texts(Components(v)));
  }

  /** ToString(1), ToString(2) and ToString(3): the first one, two or three components. */
  lemma TextOfShape(v: Version)
    requires Valid(v)
    ensures TextOf(v, 1) == Ok(DecimalText(v.major))
    ensures TextOf(v, 2) == Ok(DecimalText(v.major) + "." + DecimalText(v.minor))
    ensures v.build >= 0 ==> TextOf(v, 3) == Ok(DecimalText(v.major) + "." + DecimalText(v.minor) + "." + DecimalText(v.build))
  {
    var t := Texts(Components(v));
    assert t[..1] == [t[0]];
    JoinDisplay(t[..2]);
    if v.build >= 0 {
      var t3 := t[..3];
      JoinDisplay(t3);
      assert t3[0] == DecimalText(v.major) && t3[1] == DecimalText(v.minor) && t3[2] == DecimalText(v.build);
      var a, b, c := DecimalText(v.major), DecimalText(v.minor), DecimalText(v.build);
      assert Join(t3) == a + "." + b + ("." + c) + [];
      assert a + "." + b + ("." + c) + [] == a + "." + b + "." + c;
      assert TextOf(v, 3) == Ok(Join(t3));
    }
  }

  lemma TextsNoDot(c: seq<int>)
    requires AllComponents(c)
    ensures forall k :: 0 <= k < |Texts(c)| ==> NoDot(Texts(c)[k])
  {
    forall k | 0 <= k < |Texts(c)| ensures NoDot(Texts(c)[k]) {
      assert AllDigits(Texts(c)[k]);
    }
  }

  /**
   * ToString(fieldCount): the first fieldCount components joined with '.',
   * "" for zero; a count below zero or above the number of defined
   * components raises ArgumentException.
   */
  function TextOf(v: Version, fieldCount: int): (r: Result<string>)
    requires Valid(v)
    ensures r.Ok? <==> 0 <= fieldCount <= |Components(v)|
    ensures r.Err? ==> r.error == Argument
    ensures r.Ok? && fieldCount == 0 ==> r.value == []
    ensures r.Ok? && fieldCount > 0 ==> Split(r.value) == Texts(Components(v))[..fieldCount]
    ensures fieldCount == |Components(v)| ==> r == Ok(Text(v))
  {
    if fieldCount < 0 || fieldCount > |Components(v)| then Err(Argument)
    else
      var t := Texts(Components(v));
      SplitTextsPrefix(Components(v), fieldCount);
      assert fieldCount == |t| ==> t[..fieldCount] == t;
      Ok(Join(t[..fieldCount]))
  }

  lemma SplitTextsPrefix(c: seq<int>, n: nat)
    requires AllComponents(c) && n <= |c|
    ensures n > 0 ==> Split(Join(Texts(c)[..n])) == Texts(c)[..n]
  {
    TextsNoDot(c);
    if n > 0 {
      SplitJoin(Texts(c)[..n]);
    }
  }

  // ---- parsing ----

  /**
   * One component: Int32.Parse under NumberStyles.Integer with invariant
   * culture data (white space around it is allowed), whose FormatException
   * or OverflowException is raised as is; a negative value raises
   * ArgumentOutOfRangeException.
   */
  function ParseComponent(p: string): (r: Result<int>)
    ensures r.Ok? ==> 0 <= r.value <= Int32Max
    ensures r.Err? ==> r.error in {Format, Overflow, ArgumentOutOfRange}
    ensures r.Ok? <==> (NumberParsing.Parse(p, NumberParsing.Integer, NumberParsing.Invariant, Int32).Ok?
      && NumberParsing.Parse(p, NumberParsing.Integer, NumberParsing.Invariant, Int32).value >= 0)
    ensures r.Ok? ==> NumberParsing.Parse(p, NumberParsing.Integer, NumberParsing.Invariant, Int32) == Ok(r.value)
  {
    IntegerStyleIsValid();
    match NumberParsing.Parse(p, NumberParsing.Integer, NumberParsing.Invariant, Int32)
    case Err(e) => Err(e)
    case Ok(x) => if x < 0 then Err(ArgumentOutOfRange) else Ok(x)
  }

  lemma IntegerStyleIsValid()
    ensures NumberParsing.ValidIntegerStyle(NumberParsing.Integer)
  {
  }

  /** The components in order. */
  function ParseComponents(parts: seq<string>): (r: Result<seq<int>>)
    ensures r.Ok? ==> |r.value| == |parts| && AllComponents(r.value)
    ensures r.Ok? <==> forall k :: 0 <= k < |parts| ==> ParseComponent(parts[k]).Ok?
    ensures r.Ok? ==> forall k :: 0 <= k < |parts| ==> ParseComponent(parts[k]) == Ok(r.value[k])
    ensures r.Err? ==> r.error in {Format, Overflow, ArgumentOutOfRange}
    decreases |parts|
  {
    if parts == [] then Ok([])
    else
      var x :- ParseComponent(parts[0]);
      assert forall k :: 0 < k < |parts| ==> parts[k] == parts[1..][k - 1];
      var rest :- ParseComponents(parts[1..]);
      assert forall k :: 0 < k < |parts| ==> ([x] + rest)[k] == rest[k - 1];
      Ok([x] + rest)
  }

  /** The first component that fails decides the exception. */
  lemma {:induction false} FirstFailureDecides(parts: seq<string>, k: nat)
    requires k < |parts| && ParseComponent(parts[k]).Err?
    requires forall j :: 0 <= j < k ==> ParseComponent(parts[j]).Ok?
    ensures ParseComponents(parts) == Err(ParseComponent(parts[k]).error)
    decreases k
  {
    if k > 0 {
      FirstFailureDecides(parts[1..], k - 1);
    }
  }

  /**
   * A component made of decimal digits, optionally after the invariant
   * negative sign, with white space around it: its value when that is in
   * 0..int.MaxValue, OverflowException beyond Int32, and
   * ArgumentOutOfRangeException for a negative value.
   */
  lemma ParseComponentDigits(p: string, w1: string, negative: bool, d: string, w2: string)
    requires p == w1 + (if negative then "-" else []) + d + w2
    requires NumberParsing.AllWhite(w1) && NumberParsing.AllWhite(w2) && AllDigits(d) && d != []
    ensures var v := if negative then -(DecimalValue(d) as int) else DecimalValue(d);
      ParseComponent(p) == if !Int32.Contains(v) then Err(Overflow) else if v < 0 then Err(ArgumentOutOfRange) else Ok(v)
  {
    NumberParsing.InvariantIsSane();
    NumberParsing.ParseDigits(p, w1, negative, d, w2, NumberParsing.Integer, NumberParsing.Invariant, Int32);
  }

  /** Pieces without dots, joined, parse to the version whose components they read as. */
  lemma ParseJoinedOk(parts: seq<string>, v: Version)
    requires Valid(v) && |parts| == |Components(v)|
    requires forall k :: 0 <= k < |parts| ==> NoDot(parts[k])
    requires forall k :: 0 <= k < |parts| ==> ParseComponent(parts[k]) == Ok(Components(v)[k])
    ensures Parse(Join(parts)) == Ok(v)
  {
    SplitJoin(parts);
    var r := Parse(Join(parts));
    assert r.Ok? by {
      assert ParseComponents(parts).Ok?;
    }
    assert Components(r.value) == Components(v);
    ComponentsInjective(r.value, v);
  }

  /** Two to four pieces without dots, joined: the first piece that fails decides the exception. */
  lemma ParseJoinedErr(parts: seq<string>, k: nat)
    requires 2 <= |parts| <= 4 && forall j :: 0 <= j < |parts| ==> NoDot(parts[j])
    requires k < |parts| && ParseComponent(parts[k]).Err?
    requires forall j :: 0 <= j < k ==> ParseComponent(parts[j]).Ok?
    ensures Parse(Join(parts)) == Err(ParseComponent(parts[k]).error)
  {
    SplitJoin(parts);
    FirstFailureDecides(parts, k);
  }

  /**
   * Version.Parse: the text split at '.'; fewer than two or more than four
   * pieces raise ArgumentException (so "1" and "1,2,3,4" do), and each
   * piece then parses as a component.
   */
  function Parse(s: string): (r: Result<Version>)
    ensures r.Err? ==> r.error in {Argument, Format, Overflow, ArgumentOutOfRange}
    ensures r == Err(Argument) <==> !(2 <= |Split(s)| <= 4)
    ensures r.Ok? ==> Valid(r.value) && |Components(r.value)| == |Split(s)|
    ensures r.Ok? ==> forall k :: 0 <= k < |Split(s)| ==> ParseComponent(Split(s)[k]) == Ok(Components(r.value)[k])
  {
    var parts := Split(s);
    if |parts| < 2 || |parts| > 4 then Err(Argument)
    else
      match ParseComponents(parts)
      case Err(e) => Err(e)
      case Ok(c) => Ok(New(c).value)
  }

  /** TryParse: the parsed version where Parse succeeds, and none where it raises. */
  function TryParse(s: string): (r: Option<Version>)
    ensures r.Some? <==> Parse(s).Ok?
    ensures r.Some? ==> Parse(s) == Ok(r.value)
  {
    match Parse(s)
    case Ok(v) => Some(v)
    case Err(_) => None
  }

  /** Parse of a string reference: a null one raises ArgumentNullException. */
  function ParseNullable(s: Option<string>): (r: Result<Version>)
    ensures s.None? ==> r == Err(ArgumentNull)
    ensures s.Some? ==> r == Parse(s.value)
    ensures r.Ok? ==> Valid(r.value)
  {
    match s
    case None => Err(ArgumentNull)
    case Some(t) => Parse(t)
  }

  /** TryParse of a string reference: none for null, as for every text Parse refuses. */
  function TryParseNullable(s: Option<string>): (r: Option<Version>)
    ensures r.Some? <==> ParseNullable(s).Ok?
    ensures r.Some? ==> ParseNullable(s) == Ok(r.value)
  {
    match s
    case None => None
    case Some(t) => TryParse(t)
  }

  /** The canonical text of a non-negative int reads back as it in Integer style. */
  lemma ParseDecimalText(x: int)
    requires 0 <= x <= Int32Max
    ensures NumberParsing.Parse(DecimalText(x), NumberParsing.Integer, NumberParsing.Invariant, Int32) == Ok(x)
  {
    DecimalTextRoundTrip(x);
    NumberParsing.InvariantIsSane();
    NumberParsing.ParseBareDigits(DecimalText(x), NumberParsing.Integer, NumberParsing.Invariant, Int32);
  }

  /** The canonical text of a component reads back as it. */
  lemma ParseComponentText(x: int)
    requires 0 <= x <= Int32Max
    ensures ParseComponent(DecimalText(x)) == Ok(x)
  {
    ParseDecimalText(x);
  }

  lemma {:induction false} ParseComponentsTexts(c: seq<int>)
    requires AllComponents(c)
    ensures ParseComponents(Texts(c)) == Ok(c)
    decreases |c|
  {
    if c != [] {
      ParseComponentText(c[0]);
      ParseComponentsTexts(c[1..]);
      assert Texts(c)[1..] == Texts(c[1..]);
      assert [c[0]] + c[1..] == c;
    }
  }

  /** ToString() reads back as the same version. */
  lemma ParseText(v: Version)
    requires Valid(v)
    ensures Parse(Text(v)) == Ok(v)
  {
    var c := Components(v);
    ParseComponentsTexts(c);
    ComponentsInjective(New(c).value, v);
  }
}
