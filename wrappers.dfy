// Shared result types: every exception the tested members can raise becomes
// an error value, so that each operation is total and its error paths are
// part of its contract.
module Wrappers {

  /** The exception kinds the conformance tests expect. */
  datatype Exception =
    | ArgumentNull
    | ArgumentOutOfRange
    | Argument
    | Overflow
    | DivideByZero
    | Format
    | IndexOutOfRange
    | NotSupported
    | InvalidOperation

  datatype Result<T> = Ok(value: T) | Err(error: Exception)
  {
    predicate IsFailure() {
      Err?
    }

    function PropagateFailure<U>(): Result<U>
      requires Err?
    {
      Err(error)
    }

    function Extract(): T
      requires Ok?
    {
      value
    }
  }

  datatype Option<T> = None | Some(value: T)

  /** C#'s `int` range. */
  const Int32Min: int := -0x8000_0000
  const Int32Max: int := 0x7FFF_FFFF
  const Int64Min: int := -0x8000_0000_0000_0000
  const Int64Max: int := 0x7FFF_FFFF_FFFF_FFFF

  predicate IsInt32(x: int) { Int32Min <= x <= Int32Max }
  predicate IsInt64(x: int) { Int64Min <= x <= Int64Max }

  /** Division truncating toward zero, as C#'s `/` on integers. */
  function TruncDiv(a: int, b: int): (q: int)
    requires b != 0
    ensures q == 0 || (q > 0) == ((a > 0) == (b > 0))
  {
    var q := Abs(a) / Abs(b);
    DivSign(Abs(a), Abs(b));
    if (a >= 0) == (b > 0) then q else -q
  }

  /** Remainder with the dividend's sign, as C#'s `%` on integers. */
  function TruncRem(a: int, b: int): (r: int)
    requires b != 0
    ensures r == 0 || (r > 0) == (a > 0)
  {
    var r := Abs(a) % Abs(b);
    DivSign(Abs(a), Abs(b));
    if a >= 0 then r else -r
  }

  /** The truncated quotient's magnitude is the largest that fits in the dividend's. */
  lemma TruncDivBounds(a: int, b: int)
    requires b != 0
    ensures Abs(TruncDiv(a, b)) * Abs(b) <= Abs(a) < (Abs(TruncDiv(a, b)) + 1) * Abs(b)
  {
    DivBounds(Abs(a), Abs(b));
    assert Abs(-(Abs(a) / Abs(b))) == Abs(a) / Abs(b);
  }

  /** C#'s division identity: quotient times divisor plus remainder gives the dividend back. */
  lemma TruncRemIdentity(a: int, b: int)
    requires b != 0
    ensures a == TruncDiv(a, b) * b + TruncRem(a, b)
    ensures Abs(TruncRem(a, b)) < Abs(b)
  {
    DivBounds(Abs(a), Abs(b));
  }

  lemma DivBounds(n: nat, d: nat)
    requires d > 0
    ensures (n / d) * d <= n < (n / d + 1) * d
    ensures n == (n / d) * d + n % d
    ensures 0 <= n / d && (n == 0 ==> n / d == 0)
  {
    var q, r := n / d, n % d;
    assert n == d * q + r && 0 <= r < d;
    assert q * d == d * q && (q + 1) * d == d * q + d;
  }

  lemma DivSign(n: nat, d: nat)
    requires d > 0
    ensures n / d >= 0 && (n == 0 ==> n / d == 0) && n % d >= 0
  {
    if n == 0 {
      DivModUnique(n, d, 0, 0);
    }
  }

  /** n == q * d + r with 0 <= r < d pins down n / d and n % d. */
  lemma DivModUnique(n: int, d: int, q: int, r: int)
    requires d > 0 && 0 <= r < d && n == q * d + r
    ensures n / d == q && n % d == r
  {
    var q', r' := n / d, n % d;
    assert n == q' * d + r';
    if q < q' {
      MulAtLeast(q' - q, d);
    } else if q' < q {
      MulAtLeast(q - q', d);
    }
  }

  lemma MulAtLeast(a: int, d: int)
    requires a >= 1 && d > 0
    ensures a * d >= d
  {
  }

  /** On a non-negative dividend and a positive divisor, C#'s `/` and `%` are Dafny's. */
  lemma TruncOfNatural(a: int, b: int)
    requires a >= 0 && b > 0
    ensures TruncDiv(a, b) == a / b && TruncRem(a, b) == a % b
  {
  }

  /** C#'s `/` and `%` commute with negating the dividend. */
  lemma TruncOfNegated(a: int, b: int)
    requires b > 0
    ensures TruncDiv(-a, b) == -TruncDiv(a, b) && TruncRem(-a, b) == -TruncRem(a, b)
  {
    assert Abs(-a) == Abs(a);
    DivSign(Abs(a), b);
  }

  function Abs(x: int): nat { if x < 0 then -x else x }
}
