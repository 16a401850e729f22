// System.Text.StringBuilder (Text/StringBuilder.cs): a mutable character
// buffer. The builder is a class whose `content` its methods edit in
// place; each edit is specified by a function on strings, and the
// properties the tests rely on are lemmas about those functions.
module StringBuilders {
  import opened Wrappers
  import opened ArrayOps
  import opened CompositeFormat

  /** The capacity a builder gets when none, or zero, is asked for. */
  const DefaultCapacity: nat := 16

  /** Capacity after the content grows to n characters: enough to hold it, never less than before. */
  function Grown(capacity: nat, n: nat): (c: nat)
    ensures c >= capacity && c >= n
    ensures n <= capacity ==> c == capacity
  {
    if n <= capacity then capacity else n
  }

  /** `s` without the `len` characters starting at `start`. */
  function Removed(s: string, start: nat, len: nat): (r: string)
    requires start + len <= |s|
    ensures |r| == |s| - len
    ensures r[..start] == s[..start] && r[start..] == s[start + len..]
  {
    s[..start] + s[start + len..]
  }

  /** `s` with `t` placed before position `index`. */
  function Inserted(s: string, index: nat, t: string): (r: string)
    requires index <= |s|
    ensures |r| == |s| + |t|
    ensures r[..index] == s[..index] && r[index..index + |t|] == t && r[index + |t|..] == s[index..]
  {
    s[..index] + t + s[index..]
  }

  /** Removing what was just inserted gives back the original text. */
  lemma InsertThenRemove(s: string, index: nat, t: string)
    requires index <= |s|
    ensures Removed(Inserted(s, index, t), index, |t|) == s
  {
    var u := Inserted(s, index, t);
    assert u[index + |t|..] == s[index..];
    assert s == s[..index] + s[index..];
  }

  /** Inserting what was just removed gives back the original text. */
  lemma RemoveThenInsert(s: string, start: nat, len: nat)
    requires start + len <= |s|
    ensures Inserted(Removed(s, start, len), start, s[start..start + len]) == s
  {
    var u := Removed(s, start, len);
    assert u[..start] == s[..start] && u[start..] == s[start + len..];
    assert s == s[..start] + s[start..start + len] + s[start + len..];
  }

  /** Every occurrence of character `a` replaced by `b`. */
  function ReplacedChars(w: string, a: char, b: char): (r: string)
    ensures |r| == |w|
    ensures forall k :: 0 <= k < |w| ==> r[k] == (if w[k] == a then b else w[k])
  {
    seq(|w|, k requires 0 <= k < |w| => if w[k] == a then b else w[k])
  }

  /** Whether `o` occurs in `w` starting at position k. */
  predicate OccursAt(w: string, o: string, k: nat) {
    k + |o| <= |w| && w[k..k + |o|] == o
  }

  /**
   * Replace(oldValue, newValue) over one window: scanning left to right,
   * each occurrence of `o` lying wholly inside the window is replaced by
   * `n`, and the scan resumes after it.
   */
  function ReplacedText(w: string, o: string, n: string): string
    requires |o| > 0
    decreases |w|
  {
    if |w| < |o| then w
    else if w[..|o|] == o then n + ReplacedText(w[|o|..], o, n)
    else [w[0]] + ReplacedText(w[1..], o, n)
  }

  /** A window with no occurrence of `o` is left as it is. */
  lemma {:induction false} ReplacedTextAbsent(w: string, o: string, n: string)
    requires |o| > 0
    requires forall k :: 0 <= k <= |w| ==> !OccursAt(w, o, k)
    ensures ReplacedText(w, o, n) == w
    decreases |w|
  {
    if |w| >= |o| {
      assert !OccursAt(w, o, 0);
      forall k | 0 <= k <= |w[1..]| ensures !OccursAt(w[1..], o, k) {
        assert !OccursAt(w, o, k + 1);
        if k + |o| <= |w| - 1 {
          assert w[1..][k..k + |o|] == w[k + 1..k + 1 + |o|];
        }
      }
      ReplacedTextAbsent(w[1..], o, n);
      assert [w[0]] + w[1..] == w;
    }
  }

  /** Replacing a text by itself changes nothing. */
  lemma {:induction false} ReplacedTextSelf(w: string, o: string)
    requires |o| > 0
    ensures ReplacedText(w, o, o) == w
    decreases |w|
  {
    if |w| >= |o| {
      if w[..|o|] == o {
        ReplacedTextSelf(w[|o|..], o);
        assert w[..|o|] + w[|o|..] == w;
      } else {
        ReplacedTextSelf(w[1..], o);
        assert [w[0]] + w[1..] == w;
      }
    }
  }

  /** Replace(string, string) with one-character strings agrees with Replace(char, char). */
  lemma {:induction false} ReplacedTextOneChar(w: string, a: char, b: char)
    ensures ReplacedText(w, [a], [b]) == ReplacedChars(w, a, b)
    decreases |w|
  {
    if |w| >= 1 {
      ReplacedTextOneChar(w[1..], a, b);
      assert ReplacedChars(w, a, b) == [if w[0] == a then b else w[0]] + ReplacedChars(w[1..], a, b);
      if w[..1] == [a] {
        assert w[1..] == w[|[a]|..];
      }
    }
  }

  /** `s` with `f` applied to its window [start, start + count). */
  function InWindow(s: string, start: nat, count: nat, w: string): (r: string)
    requires start + count <= |s|
    ensures |r| == |s| - count + |w|
    ensures r[..start] == s[..start]
    ensures r[start..start + |w|] == w && r[start + |w|..] == s[start + count..]
  {
    s[..start] + w + s[start + count..]
  }

  /**
   * The content of a StringBuilder, with its capacity and maximum
   * capacity. Capacity is at least the length, and never above the
   * maximum capacity.
   */
  class StringBuilder {
    var content: string
    var capacity: nat
    const maxCapacity: nat

    ghost predicate Valid()
      reads this
    {
      |content| <= capacity <= maxCapacity
    }

    constructor Init(content: string, capacity: nat, maxCapacity: nat)
      requires |content| <= capacity <= maxCapacity
      ensures Valid()
      ensures this.content == content && this.capacity == capacity && this.maxCapacity == maxCapacity
    {
      this.content := content;
      this.capacity := capacity;
      this.maxCapacity := maxCapacity;
    }

    /**
     * ToString(start, len): the `len` characters from `start`; a negative
     * argument or a range past the end raises ArgumentOutOfRangeException.
     */
    function Substring(start: int, len: int): (r: Result<string>)
      reads this
      ensures r.Ok? <==> 0 <= start && 0 <= len && start + len <= |content|
      ensures r.Err? ==> r.error == ArgumentOutOfRange
      ensures r.Ok? ==> |r.value| == len && forall k :: 0 <= k < len ==> r.value[k] == content[start + k]
    {
      if start < 0 || len < 0 || start > |content| - len then Err(ArgumentOutOfRange)
      else Ok(content[start..start + len])
    }

    /**
     * The indexer getter: character `index`; an index outside [0, Length)
     * raises IndexOutOfRangeException.
     */
    function CharAt(index: int): (r: Result<char>)
      reads this
      ensures r.Ok? <==> 0 <= index < |content|
      ensures r.Err? ==> r.error == IndexOutOfRange
      ensures r.Ok? ==> r.value == content[index]
    {
      if 0 <= index < |content| then Ok(content[index]) else Err(IndexOutOfRange)
    }

    /**
     * Equals(sb): the same characters, the same capacity and the same
     * maximum capacity; a null builder is never equal.
     */
    function Equals(other: StringBuilder?): (r: bool)
      reads this, other
      ensures r ==> other != null && content == other.content && capacity == other.capacity
                    && maxCapacity == other.maxCapacity
      ensures (other != null && content == other.content && capacity == other.capacity
               && maxCapacity == other.maxCapacity) ==> r
      ensures other == this ==> r
    {
      other != null && capacity == other.capacity && maxCapacity == other.maxCapacity && content == other.content
    }

    /**
     * The shared growth step of every Append overload: appends `t`, unless
     * the new length would pass MaxCapacity, which raises
     * ArgumentOutOfRangeException and changes nothing.
     */
    method Append(t: string) returns (r: Result<()>)
      requires Valid()
      modifies this
      ensures Valid()
      ensures r.Ok? <==> |old(content)| + |t| <= maxCapacity
      ensures r.Err? ==> r.error == ArgumentOutOfRange && content == old(content) && capacity == old(capacity)
      ensures r.Ok? ==> content == old(content) + t && capacity == Grown(old(capacity), |content|)
    {
      if |content| + |t| > maxCapacity {
        return Err(ArgumentOutOfRange);
      }
      content := content + t;
      capacity := Grown(capacity, |content|);
      return Ok(());
    }

    /** Append(char). */
    method AppendChar(c: char) returns (r: Result<()>)
      requires Valid()
      modifies this
      ensures Valid()
      ensures r.Ok? <==> |old(content)| + 1 <= maxCapacity
      ensures r.Err? ==> r.error == ArgumentOutOfRange && content == old(content) && capacity == old(capacity)
      ensures r.Ok? ==> content == old(content) + [c] && capacity == Grown(old(capacity), |content|)
    {
      r := Append([c]);
    }

    /** Append(char, repeatCount): a negative count raises ArgumentOutOfRangeException. */
    method AppendRepeat(c: char, repeatCount: int) returns (r: Result<()>)
      requires Valid()
      modifies this
      ensures Valid()
      ensures r.Ok? <==> 0 <= repeatCount && |old(content)| + repeatCount <= maxCapacity
      ensures r.Err? ==> r.error == ArgumentOutOfRange && content == old(content) && capacity == old(capacity)
      ensures r.Ok? ==> content == old(content) + seq(repeatCount, _ => c) && capacity == Grown(old(capacity), |content|)
    {
      if repeatCount < 0 {
        return Err(ArgumentOutOfRange);
      }
      r := Append(seq(repeatCount, _ => c));
    }

    /** Append(char[]): the characters of the array, in order. */
    method AppendChars(value: array<char>) returns (r: Result<()>)
      requires Valid()
      modifies this
      ensures Valid()
      ensures r.Ok? <==> |old(content)| + value.Length <= maxCapacity
      ensures r.Err? ==> r.error == ArgumentOutOfRange && content == old(content) && capacity == old(capacity)
      ensures r.Ok? ==> content == old(content) + value[..] && capacity == Grown(old(capacity), |content|)
    {
      r := Append(value[..]);
    }

    /**
     * Append(string, startIndex, count): the substring. A negative argument
     * raises ArgumentOutOfRangeException; then a zero count appends nothing,
     * wherever startIndex points; otherwise a range past the end of `value`
     * raises ArgumentOutOfRangeException.
     */
    method AppendSubstring(value: string, startIndex: int, count: int) returns (r: Result<()>)
      requires Valid()
      modifies this
      ensures Valid()
      ensures r.Ok? <==> 0 <= startIndex && 0 <= count && (count == 0 || startIndex + count <= |value|)
                         && |old(content)| + count <= maxCapacity
      ensures r.Err? ==> r.error == ArgumentOutOfRange && content == old(content) && capacity == old(capacity)
      ensures r.Ok? && count == 0 ==> content == old(content) && capacity == old(capacity)
      ensures r.Ok? && count > 0 ==>
        content == old(content) + value[startIndex..startIndex + count] && capacity == Grown(old(capacity), |content|)
    {
      if startIndex < 0 || count < 0 {
        return Err(ArgumentOutOfRange);
      }
      if count == 0 {
        return Ok(());
      }
      if startIndex > |value| - count {
        return Err(ArgumentOutOfRange);
      }
      r := Append(value[startIndex..startIndex + count]);
    }

    /**
     * AppendFormat(format, args): appends the formatted text. The text is
     * appended as it is expanded, so a bad format raises FormatException
     * after the text in front of the failing hole has been appended.
     */
    method AppendFormat(format: string, args: seq<string>) returns (r: Result<()>)
      requires Valid()
      modifies this
      ensures Valid()
      ensures r.Ok? <==> Formatted(format, args).Ok? && |old(content)| + |Expansion(format, args)| <= maxCapacity
      ensures r.Err? ==> r.error == if |old(content)| + |Expansion(format, args)| > maxCapacity then ArgumentOutOfRange else Format
      ensures |old(content)| + |Expansion(format, args)| > maxCapacity ==> content == old(content) && capacity == old(capacity)
      ensures |old(content)| + |Expansion(format, args)| <= maxCapacity ==>
        content == old(content) + Expansion(format, args) && capacity == Grown(old(capacity), |content|)
      ensures r.Ok? ==> content == old(content) + Formatted(format, args).value
    {
      var done := Append(Expansion(format, args));
      if done.Err? {
        return done;
      }
      if Formatted(format, args).Err? {
        return Err(Format);
      }
      r := Ok(());
    }

    /**
     * Insert(index, value): `value` placed before position `index`; an
     * index outside [0, Length] raises ArgumentOutOfRangeException.
     */
    method Insert(index: int, value: string) returns (r: Result<()>)
      requires Valid()
      modifies this
      ensures Valid()
      ensures r.Ok? <==> 0 <= index <= |old(content)| && |old(content)| + |value| <= maxCapacity
      ensures r.Err? ==> r.error == ArgumentOutOfRange && content == old(content) && capacity == old(capacity)
      ensures r.Ok? ==> content == Inserted(old(content), index, value) && capacity == Grown(old(capacity), |content|)
    {
      if index < 0 || index > |content| || |content| + |value| > maxCapacity {
        return Err(ArgumentOutOfRange);
      }
      content := Inserted(content, index, value);
      capacity := Grown(capacity, |content|);
      return Ok(());
    }

    /**
     * Remove(startIndex, length): deletes exactly that range; a negative
     * argument or a range past the end raises ArgumentOutOfRangeException.
     */
    method Remove(startIndex: int, length: int) returns (r: Result<()>)
      requires Valid()
      modifies this
      ensures Valid()
      ensures r.Ok? <==> 0 <= startIndex && 0 <= length && startIndex + length <= |old(content)|
      ensures r.Err? ==> r.error == ArgumentOutOfRange && content == old(content)
      ensures r.Ok? ==> content == Removed(old(content), startIndex, length)
      ensures capacity == old(capacity)
    {
      if startIndex < 0 || length < 0 || startIndex > |content| - length {
        return Err(ArgumentOutOfRange);
      }
      content := Removed(content, startIndex, length);
      return Ok(());
    }

    /**
     * Replace(oldChar, newChar, startIndex, count): replaces the character
     * inside the window only; a window outside the content raises
     * ArgumentOutOfRangeException.
     */
    method ReplaceChar(oldChar: char, newChar: char, startIndex: int, count: int) returns (r: Result<()>)
      requires Valid()
      modifies this
      ensures Valid()
      ensures r.Ok? <==> 0 <= startIndex && 0 <= count && startIndex + count <= |old(content)|
      ensures r.Err? ==> r.error == ArgumentOutOfRange && content == old(content)
      ensures r.Ok? ==> content == InWindow(old(content), startIndex, count,
                                            ReplacedChars(old(content)[startIndex..startIndex + count], oldChar, newChar))
      ensures capacity == old(capacity)
    {
      if startIndex < 0 || startIndex > |content| || count < 0 || startIndex > |content| - count {
        return Err(ArgumentOutOfRange);
      }
      content := InWindow(content, startIndex, count, ReplacedChars(content[startIndex..startIndex + count], oldChar, newChar));
      return Ok(());
    }

    /**
     * Replace(oldValue, newValue, startIndex, count): replaces the
     * occurrences lying wholly inside the window. A window outside the
     * content raises ArgumentOutOfRangeException, an empty oldValue
     * ArgumentException, and a result longer than MaxCapacity
     * ArgumentOutOfRangeException.
     */
    method ReplaceText(oldValue: string, newValue: string, startIndex: int, count: int) returns (r: Result<()>)
      requires Valid()
      modifies this
      ensures Valid()
      ensures !(0 <= startIndex && 0 <= count && startIndex + count <= |old(content)|) ==> r == Err(ArgumentOutOfRange)
      ensures 0 <= startIndex && 0 <= count && startIndex + count <= |old(content)| && |oldValue| == 0 ==> r == Err(Argument)
      ensures r.Err? ==> content == old(content) && capacity == old(capacity)
      ensures r.Ok? ==> 0 <= startIndex && 0 <= count && startIndex + count <= |old(content)| && |oldValue| > 0
      ensures 0 <= startIndex && 0 <= count && startIndex + count <= |old(content)| && |oldValue| > 0 ==>
                (r.Ok? <==> |InWindow(old(content), startIndex, count,
                                      ReplacedText(old(content)[startIndex..startIndex + count], oldValue, newValue))| <= maxCapacity)
      ensures r.Ok? ==> content == InWindow(old(content), startIndex, count,
                                            ReplacedText(old(content)[startIndex..startIndex + count], oldValue, newValue))
      ensures r.Ok? ==> capacity == Grown(old(capacity), |content|)
    {
      if startIndex < 0 || startIndex > |content| || count < 0 || startIndex > |content| - count {
        return Err(ArgumentOutOfRange);
      }
      if |oldValue| == 0 {
        return Err(Argument);
      }
      var replaced := InWindow(content, startIndex, count, ReplacedText(content[startIndex..startIndex + count], oldValue, newValue));
      if |replaced| > maxCapacity {
        return Err(ArgumentOutOfRange);
      }
      content := replaced;
      capacity := Grown(capacity, |content|);
      return Ok(());
    }

    /**
     * The Length setter: a shorter length truncates, a longer one pads with
     * '\0'; a negative length or one above MaxCapacity raises
     * ArgumentOutOfRangeException.
     */
    method SetLength(value: int) returns (r: Result<()>)
      requires Valid()
      modifies this
      ensures Valid()
      ensures r.Ok? <==> 0 <= value <= maxCapacity
      ensures r.Err? ==> r.error == ArgumentOutOfRange && content == old(content) && capacity == old(capacity)
      ensures r.Ok? ==> content == Resized(old(content), value, '\0') && capacity == Grown(old(capacity), value)
    {
      if value < 0 || value > maxCapacity {
        return Err(ArgumentOutOfRange);
      }
      content := Resized(content, value, '\0');
      capacity := Grown(capacity, value);
      return Ok(());
    }

    /** Clear(): the content becomes empty. */
    method Clear()
      requires Valid()
      modifies this
      ensures Valid()
      ensures content == [] && capacity == old(capacity)
    {
      content := [];
    }

    /**
     * The indexer setter: replaces character `index`; an index outside
     * [0, Length) raises ArgumentOutOfRangeException.
     */
    method SetCharAt(index: int, c: char) returns (r: Result<()>)
      requires Valid()
      modifies this
      ensures Valid()
      ensures r.Ok? <==> 0 <= index < |old(content)|
      ensures r.Err? ==> r.error == ArgumentOutOfRange && content == old(content)
      ensures r.Ok? ==> content == old(content)[index := c]
      ensures capacity == old(capacity)
    {
      if index < 0 || index >= |content| {
        return Err(ArgumentOutOfRange);
      }
      content := content[index := c];
      return Ok(());
    }

    /**
     * CopyTo(sourceIndex, destination, destinationIndex, count): writes
     * exactly destination[destinationIndex..destinationIndex + count). A
     * null destination raises ArgumentNullException, a negative count or
     * destination index ArgumentOutOfRangeException, a window past the end
     * of the destination ArgumentException, a source index outside
     * [0, Length] ArgumentOutOfRangeException, and a source range past the
     * end ArgumentException.
     */
    method CopyTo(sourceIndex: int, destination: array?<char>, destinationIndex: int, count: int) returns (r: Result<()>)
      requires Valid()
      modifies destination
      ensures r == CopyToArgs(|content|, sourceIndex, destination, destinationIndex, count)
      ensures r.Ok? ==> destination[..] == Spliced(old(destination[..]), destinationIndex, content[sourceIndex..sourceIndex + count])
      ensures r.Err? && destination != null ==> destination[..] == old(destination[..])
    {
      r := CopyToArgs(|content|, sourceIndex, destination, destinationIndex, count);
      if r.Err? {
        return;
      }
      var k := 0;
      while k < count
        invariant 0 <= k <= count
        invariant destination[..] == Spliced(old(destination[..]), destinationIndex, content[sourceIndex..sourceIndex + k])
      {
        destination[destinationIndex + k] := content[sourceIndex + k];
        assert content[sourceIndex..sourceIndex + k + 1] == content[sourceIndex..sourceIndex + k] + [content[sourceIndex + k]];
        k := k + 1;
      }
    }
  }

  /** The argument checks of StringBuilder.CopyTo, in the order they are made. */
  function CopyToArgs(length: nat, sourceIndex: int, destination: array?<char>, destinationIndex: int, count: int): (r: Result<()>)
    ensures r.Ok? <==> destination != null && 0 <= count && 0 <= destinationIndex && destinationIndex + count <= destination.Length
                       && 0 <= sourceIndex && sourceIndex + count <= length
    ensures r == Err(ArgumentNull) <==> destination == null
  {
    if destination == null then Err(ArgumentNull)
    else if count < 0 || destinationIndex < 0 then Err(ArgumentOutOfRange)
    else if destinationIndex > destination.Length - count then Err(Argument)
    else if sourceIndex < 0 || sourceIndex > length then Err(ArgumentOutOfRange)
    else if sourceIndex > length - count then Err(Argument)
    else Ok(())
  }

  /**
   * The argument checks of StringBuilder(value, startIndex, length,
   * capacity): a negative capacity, length or start index, or a range past
   * the end of `value`, raises ArgumentOutOfRangeException.
   */
  function SubstringCtorArgs(value: string, startIndex: int, length: int, capacity: int): (r: Result<()>)
    ensures r.Ok? <==> 0 <= capacity && 0 <= length && 0 <= startIndex && startIndex + length <= |value|
    ensures r.Err? ==> r.error == ArgumentOutOfRange
  {
    if capacity < 0 || length < 0 || startIndex < 0 || startIndex > |value| - length then Err(ArgumentOutOfRange)
    else Ok(())
  }

  /** The capacity a builder starts with: the one asked for (16 for zero), at least the initial length. */
  function InitialCapacity(capacity: nat, length: nat): (c: nat)
    ensures c >= length && c >= capacity
    ensures capacity > 0 && length <= capacity ==> c == capacity
  {
    Grown(if capacity == 0 then DefaultCapacity else capacity, length)
  }

  /**
   * new StringBuilder(value, startIndex, length, capacity), which the other
   * string constructors call: holds value[startIndex..startIndex + length].
   */
  method NewSubstring(value: string, startIndex: int, length: int, capacity: int) returns (r: Result<StringBuilder>)
    requires IsInt32(capacity) && |value| <= Int32Max
    ensures r.Err? <==> SubstringCtorArgs(value, startIndex, length, capacity).Err?
    ensures r.Err? ==> r.error == ArgumentOutOfRange
    ensures r.Ok? ==> fresh(r.value) && r.value.Valid()
    ensures r.Ok? ==> r.value.content == value[startIndex..startIndex + length]
    ensures r.Ok? ==> r.value.capacity == InitialCapacity(capacity, length) && r.value.maxCapacity == Int32Max
  {
    var checked := SubstringCtorArgs(value, startIndex, length, capacity);
    if checked.Err? {
      return Err(checked.error);
    }
    var sb := new StringBuilder.Init(value[startIndex..startIndex + length], InitialCapacity(capacity, length), Int32Max);
    return Ok(sb);
  }

  /** new StringBuilder(value): the whole string, default capacity. */
  method NewString(value: string) returns (sb: StringBuilder)
    requires |value| <= Int32Max
    ensures fresh(sb) && sb.Valid()
    ensures sb.content == value && sb.capacity == InitialCapacity(DefaultCapacity, |value|) && sb.maxCapacity == Int32Max
  {
    var r := NewSubstring(value, 0, |value|, DefaultCapacity);
    assert value[0..|value|] == value;
    sb := r.value;
  }

  /** new StringBuilder(value, capacity): the whole string, starting with at least the asked capacity. */
  method NewStringCapacity(value: string, capacity: int) returns (r: Result<StringBuilder>)
    requires IsInt32(capacity) && |value| <= Int32Max
    ensures r.Ok? <==> 0 <= capacity
    ensures r.Err? ==> r.error == ArgumentOutOfRange
    ensures r.Ok? ==> fresh(r.value) && r.value.Valid()
    ensures r.Ok? ==> r.value.content == value && r.value.capacity >= capacity && r.value.maxCapacity == Int32Max
  {
    r := NewSubstring(value, 0, |value|, capacity);
    assert value[0..|value|] == value;
  }

  /** new StringBuilder(capacity, maxCapacity): empty, with a capacity no larger than the maximum. */
  method NewCapacity(capacity: int, maxCapacity: int) returns (r: Result<StringBuilder>)
    requires IsInt32(maxCapacity)
    ensures r.Ok? <==> 0 <= capacity <= maxCapacity && 1 <= maxCapacity
    ensures r.Err? ==> r.error == ArgumentOutOfRange
    ensures r.Ok? ==> fresh(r.value) && r.value.Valid() && r.value.content == []
    ensures r.Ok? ==> r.value.maxCapacity == maxCapacity
    ensures r.Ok? ==> r.value.capacity == if capacity == 0 then Min(DefaultCapacity, maxCapacity) else capacity
  {
    if capacity > maxCapacity || maxCapacity < 1 || capacity < 0 {
      return Err(ArgumentOutOfRange);
    }
    var sb := new StringBuilder.Init([], if capacity == 0 then Min(DefaultCapacity, maxCapacity) else capacity, maxCapacity);
    return Ok(sb);
  }

  function Min(a: nat, b: nat): nat { if a <= b then a else b }

  /** StringBuilder.cs 12-69: the constructors. */
  method ConstructorExamples()
    returns (empty: StringBuilder, sized: StringBuilder, bounded: StringBuilder, hello: StringBuilder,
             helloSized: StringBuilder, tail: StringBuilder)
    ensures empty.content == "" && sized.content == "" && sized.capacity >= 42
    ensures bounded.content == "" && 42 <= bounded.capacity < bounded.maxCapacity && bounded.maxCapacity == 50
    ensures hello.content == "Hello" && |hello.content| == 5
    ensures helloSized.content == "Hello" && |helloSized.content| == 5 && helloSized.capacity >= 42
    ensures tail.content == "llo" && tail.capacity >= 42
  {
    empty := NewString("");
    var r := NewCapacity(42, Int32Max);
    sized := r.value;
    r := NewCapacity(42, 50);
    bounded := r.value;
    hello := NewString("Hello");
    var h := NewStringCapacity("Hello", 42);
    helloSized := h.value;
    var s := NewSubstring("Hello", 2, 3, 42);
    tail := s.value;
  }

  /** StringBuilder.cs 71-77: ToString() and ToString(2, 3) of "Finally". */
  method SubstringExample() returns (whole: string, part: Result<string>)
    ensures whole == "Finally" && part == Ok("nal")
  {
    var sb := NewString("Finally");
    whole := sb.content;
    part := sb.Substring(2, 3);
    assert sb.content[2..5] == "nal";
  }

  /** StringBuilder.cs 79-84: Replace('a', '!', 2, 3) touches the window [2, 5) only. */
  method ReplaceCharExample() returns (chars: string)
    ensures chars == "aa!!bbbbccccdddd"
  {
    var sb := NewString("aaaabbbbccccdddd");
    ReplaceCharWindow(sb.content);
    var r := sb.ReplaceChar('a', '!', 2, 3);
    chars := sb.content;
  }

  lemma ReplaceCharWindow(s: string)
    requires s == "aaaabbbbccccdddd"
    ensures InWindow(s, 2, 3, ReplacedChars(s[2..5], 'a', '!')) == "aa!!bbbbccccdddd"
  {
    var w := ReplacedChars(s[2..5], 'a', '!');
    assert s[2..5] == "aab";
    assert w == "!!b";
    assert s[..2] == "aa" && s[5..] == "bbbccccdddd";
  }

  /** StringBuilder.cs 86-88: Replace("a", "$!", 2, 3) touches the window [2, 5) only. */
  method ReplaceTextExample() returns (text: string)
    ensures text == "aa$!$!bbbbccccdddd"
  {
    var sb := NewString("aaaabbbbccccdddd");
    ghost var before := sb.content;
    assert before[2..5] == "aab";
    ReplaceWindowExample("aab", "a", "$!");
    var r := sb.ReplaceText("a", "$!", 2, 3);
    text := sb.content;
    assert text == before[..2] + "$!$!b" + before[5..];
  }

  lemma ReplaceWindowExample(w: string, o: string, n: string)
    requires w == "aab" && o == "a" && n == "$!"
    ensures ReplacedText(w, o, n) == "$!$!b"
  {
    assert w[..1] == o && w[1..][..1] == o && w[2..][..1] == "b";
    assert w[1..][1..] == w[2..] && w[2..][1..] == [];
    assert ReplacedText(w[2..], o, n) == "b";
  }

  /** StringBuilder.cs 91-106: Remove(1, 3) of "Almost" and Insert(2, "!!") into "Hello". */
  method RemoveInsertExamples() returns (removed: string, inserted: string)
    ensures removed == "Ast" && inserted == "He!!llo"
  {
    var sb := NewString("Almost");
    var r := sb.Remove(1, 3);
    removed := sb.content;
    sb := NewString("Hello");
    r := sb.Insert(2, "!!");
    inserted := sb.content;
  }

  /** StringBuilder.cs 108-118: builders with equal state are equal; different text is not. */
  method EqualsExample() returns (self: bool, twin: bool, other: bool)
    ensures self && twin && !other
  {
    var sb1 := NewString("Hello");
    var sb2 := NewString("Hello");
    var sb3 := NewString("HelloX");
    self := sb1.Equals(sb1);
    twin := sb1.Equals(sb2);
    other := sb1.Equals(sb3);
  }

  /** StringBuilder.cs 120-137: CopyTo(1, ca, 5, 4) of "Hello" into ten '\0's. */
  method CopyToExample() returns (ca: array<char>)
    ensures ca[..] == ['\0', '\0', '\0', '\0', '\0', 'e', 'l', 'l', 'o', '\0']
  {
    var sb := NewString("Hello");
    ca := new char[10](_ => '\0');
    var r := sb.CopyTo(1, ca, 5, 4);
  }

  /** StringBuilder.cs 139-160: Clear, and the Length setter truncating then padding. */
  method ClearLengthExamples() returns (cleared: string, short: string, long: string)
    ensures cleared == ""
    ensures short == "He"
    ensures long == "He" + seq(8, _ => '\0') && |long| == 10
  {
    var sb := NewString("Hello");
    sb.Clear();
    cleared := sb.content;
    sb := NewString("Hello");
    var r := sb.SetLength(2);
    short := sb.content;
    r := sb.SetLength(10);
    long := sb.content;
  }

  /** StringBuilder.cs 251-260: reading and writing one character. */
  method CharsExample() returns (before: Result<char>, after: Result<char>, text: string)
    ensures before == Ok('e') && after == Ok('X') && text == "HXllo"
  {
    var sb := NewString("Hello");
    before := sb.CharAt(1);
    var r := sb.SetCharAt(1, 'X');
    after := sb.CharAt(1);
    text := sb.content;
  }

  /** The letter the append tests use at step i: 'A' + i % 10. */
  function Letter(i: nat): char {
    (0x41 + i % 10) as char
  }

  /** StringBuilder.cs 166-174: 500 single-character appends track string concatenation. */
  method AppendCharLoop() returns (text: string)
    ensures |text| == 500 && forall k :: 0 <= k < 500 ==> text[k] == Letter(k)
  {
    var sb := NewString("");
    var s := "";
    var i := 0;
    while i < 500
      invariant 0 <= i <= 500
      invariant sb.Valid() && sb.maxCapacity == Int32Max
      invariant sb.content == s && |s| == i
      invariant forall k :: 0 <= k < i ==> s[k] == Letter(k)
    {
      var c := Letter(i);
      var r := sb.AppendChar(c);
      s := s + [c];
      i := i + 1;
    }
    text := sb.content;
  }

  /** The text `s += new string(c, i % 8)` builds in the first n steps. */
  function Repeated(n: nat): (s: string)
    ensures |s| <= 7 * n
  {
    if n == 0 then "" else Repeated(n - 1) + seq((n - 1) % 8, _ => Letter(n - 1))
  }

  /** StringBuilder.cs 176-185: 500 appends of a repeated character. */
  method AppendRepeatLoop() returns (text: string)
    ensures text == Repeated(500)
  {
    var sb := NewString("");
    var i := 0;
    while i < 500
      invariant 0 <= i <= 500
      invariant sb.Valid() && sb.maxCapacity == Int32Max
      invariant sb.content == Repeated(i)
    {
      var r := sb.AppendRepeat(Letter(i), i % 8);
      i := i + 1;
    }
    text := sb.content;
  }

  /** StringBuilder.cs 187-199: 500 appends of a freshly filled char array. */
  method AppendCharsLoop() returns (text: string)
    ensures text == Repeated(500)
  {
    var sb := NewString("");
    var i := 0;
    while i < 500
      invariant 0 <= i <= 500
      invariant sb.Valid() && sb.maxCapacity == Int32Max
      invariant sb.content == Repeated(i)
    {
      var ca := Filled(i % 8, Letter(i));
      var r := sb.AppendChars(ca);
      i := i + 1;
    }
    text := sb.content;
  }

  /** `new char[n]` filled by `for (j = 0; j < n; j++) ca[j] = c;`. */
  method Filled(n: nat, c: char) returns (ca: array<char>)
    ensures fresh(ca) && ca[..] == seq(n, _ => c)
  {
    ca := new char[n];
    var j := 0;
    while j < n
      invariant 0 <= j <= n
      invariant forall k :: 0 <= k < j ==> ca[k] == c
    {
      ca[j] := c;
      j := j + 1;
    }
  }

  /** StringBuilder.cs 201-214: 500 appends of "ab", then Append("Hello", 2, 3). */
  method AppendStringLoop() returns (text: string, tail: string)
    ensures |text| == 1000 && forall k :: 0 <= k < 1000 ==> text[k] == (if k % 2 == 0 then 'a' else 'b')
    ensures tail == "llo"
  {
    var sb := NewString("");
    var i := 0;
    while i < 500
      invariant 0 <= i <= 500
      invariant sb.Valid() && sb.maxCapacity == Int32Max
      invariant |sb.content| == 2 * i
      invariant forall k :: 0 <= k < 2 * i ==> sb.content[k] == (if k % 2 == 0 then 'a' else 'b')
    {
      var r := sb.Append("ab");
      i := i + 1;
    }
    text := sb.content;
    sb := NewString("");
    var r := sb.AppendSubstring("Hello", 2, 3);
    tail := sb.content;
  }

  /** StringBuilder.cs 243-249: AppendFormat("Foo {0} Bar {1}", "Red", "Green"). */
  method AppendFormatExample(format: string, args: seq<string>) returns (text: string)
    requires format == "Foo {0} Bar {1}" && args == ["Red", "Green"]
    ensures text == "Foo Red Bar Green"
  {
    var sb := NewString("");
    FormatExample(format, args);
    var r := sb.AppendFormat(format, args);
    assert Expansion(format, args) == "Foo Red Bar Green";
    text := sb.content;
    assert text == "" + "Foo Red Bar Green";
  }

  /** AppendFormat("ab{5}", "x"): FormatException, with "ab" already appended. */
  method AppendFormatFailureExample(format: string, args: seq<string>) returns (r: Result<()>, text: string)
    requires format == "ab{5}" && args == ["x"]
    ensures r == Err(Format) && text == "ab"
  {
    var sb := NewString("");
    ExpansionBeforeBadHole(format, args);
    r := sb.AppendFormat(format, args);
    text := sb.content;
    assert text == "" + "ab";
  }
}
