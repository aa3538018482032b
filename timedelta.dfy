/**
 The part of Python's `datetime` arithmetic that the time-to-merge report relies
 on. Timestamps and durations are whole numbers of microseconds, the resolution
 of Python's `datetime` and `timedelta`, so subtracting two timestamps is exact
 and may be negative.
 */
module Timedelta {

  /** A point in time, in microseconds from an arbitrary fixed epoch. */
  type Timestamp = int

  /** A signed elapsed time in microseconds (a Python `timedelta`). */
  type Duration = int

  /** The conventional Some/None datatype, standing for Python's `Optional`. */
  datatype Option<+T> = None | Some(value: T)

  /**
   Python's truth test `if d:` on an optional `timedelta`: `None` is falsy and
   a `timedelta` is falsy exactly when it is zero. Negative durations are truthy.
   */
  predicate IsTruthy(d: Option<Duration>)
    ensures d.None? ==> !IsTruthy(d)
    ensures d == Some(0) ==> !IsTruthy(d)
    ensures d.Some? && d.value < 0 ==> IsTruthy(d)
    ensures d.Some? && d.value > 0 ==> IsTruthy(d)
  {
    match d
    case None => false
    case Some(v) => v != 0
  }

  /**
   `timedelta / n` for a positive int `n`: the microsecond count divided by `n`
   and rounded to the nearest integer, ties going to the even neighbour. The
   steps follow the floor `divmod` used by Python's own rounding helper; Dafny's
   `/` and `%` agree with Python's floor division when the divisor is positive.
   The contract is the definition of round-half-to-even, with no reference to
   the steps.
   */
  function DivideAndRound(a: int, b: int): (r: int)
    requires b > 0
    ensures -b <= 2 * (a - r * b) <= b
    ensures 2 * (a - r * b) == b || 2 * (a - r * b) == -b ==> r % 2 == 0
  {
    var q := a / b;
    var rem := a % b;
    assert a == q * b + rem;
    assert (q + 1) * b == q * b + b;
    if 2 * rem > b || (2 * rem == b && q % 2 == 1) then q + 1 else q
  }

  /**
   The two clauses of DivideAndRound's contract leave no choice: any integer
   meeting them is the one DivideAndRound returns.
   */
  lemma RoundingIsUnique(a: int, b: int, r: int)
    requires b > 0
    requires -b <= 2 * (a - r * b) <= b
    requires 2 * (a - r * b) == b || 2 * (a - r * b) == -b ==> r % 2 == 0
    ensures r == DivideAndRound(a, b)
  {
    RoundedNeighbours(a, b, r, DivideAndRound(a, b));
  }

  /** Two integers that both round a / b half to even are equal. */
  lemma RoundedNeighbours(a: int, b: int, r: int, s: int)
    requires b > 0
    requires -b <= 2 * (a - r * b) <= b
    requires 2 * (a - r * b) == b || 2 * (a - r * b) == -b ==> r % 2 == 0
    requires -b <= 2 * (a - s * b) <= b
    requires 2 * (a - s * b) == b || 2 * (a - s * b) == -b ==> s % 2 == 0
    ensures r == s
  {
    var d := s - r;
    // Both are within half of b of a, so they are at most one apart ...
    assert d * b == s * b - r * b;
    AtMostOneApart(d, b);
    // ... and neighbours would both sit exactly half way, so both be even.
    assert d == 1 ==> d * b == b;
    assert d == -1 ==> d * b == -b;
  }

  /** A multiple of a positive `b` that is at most `b` in size is at most one `b`. */
  lemma AtMostOneApart(k: int, b: int)
    requires b > 0
    requires -b <= k * b <= b
    ensures -1 <= k <= 1
  {
  }

  /** A multiple of a positive `b` that is at most half of `b` is not positive. */
  lemma HalfBelow(k: int, b: int)
    requires b > 0
    requires 2 * (k * b) <= b
    ensures k <= 0
  {
  }

  /** When `b` divides `a` nothing is rounded: the quotient is exact. */
  lemma ExactQuotient(a: int, b: int, q: int)
    requires b > 0
    requires a == q * b
    ensures DivideAndRound(a, b) == q
  {
    RoundingIsUnique(a, b, q);
  }

  /**
   Rounding to the nearest integer cannot leave the integer range the exact
   quotient lies in.
   */
  lemma RoundedWithin(a: int, b: int, lo: int, hi: int)
    requires b > 0
    requires lo * b <= a <= hi * b
    ensures lo <= DivideAndRound(a, b) <= hi
  {
    var r := DivideAndRound(a, b);
    // a - r * b is at most half of b, and it is at least (lo - r) * b.
    assert (lo - r) * b == lo * b - r * b;
    HalfBelow(lo - r, b);
    assert (r - hi) * b == r * b - hi * b;
    HalfBelow(r - hi, b);
  }
}
