/** The integer helpers of common/maths.hpp. */
module Maths {

  function Min(a: int, b: int): int {
    if a <= b then a else b
  }

  function Max(a: int, b: int): int {
    if a >= b then a else b
  }

  function Clamp(x: int, lo: int, hi: int): int {
    Min(Max(x, lo), hi)
  }

  /** r is the whole part of the square root of x. */
  predicate IsRoot(r: nat, x: nat) {
    r * r <= x < (r + 1) * (r + 1)
  }

  /** The next value of Newton's method. */
  function Halfway(r: nat, x: nat): nat
    requires r > 0
  {
    (r + x / r) / 2
  }

  /** Newton's method never goes below the root. */
  lemma HalfwayStaysAbove(r: nat, x: nat)
    requires r > 0
    ensures x < (Halfway(r, x) + 1) * (Halfway(r, x) + 1)
  {
    var q, y := x / r, Halfway(r, x);
    var a, b := r, q + 1;
    assert x < a * b by {
      assert x == r * q + x % r;
    }
    assert (a - b) * (a - b) >= 0;
    assert 4 * (a * b) <= (a + b) * (a + b);
    assert a + b <= 2 * (y + 1);
    assert (a + b) * (a + b) <= (2 * (y + 1)) * (2 * (y + 1)) by {
      SquaresGrow(a + b, 2 * (y + 1));
    }
  }

  lemma SquaresGrow(a: nat, b: nat)
    requires a <= b
    ensures a * a <= b * b
  {
  }

  lemma HalfwayInRange(r: nat, x: nat)
    requires 0 < r <= x
    ensures 1 <= Halfway(r, x) && r + x / r <= x + 1
  {
    var q := x / r;
    assert x == r * q + x % r;
    AtLeastSum(r, q);
  }

  lemma {:induction false} AtLeastSum(r: nat, q: nat)
    requires r > 0 && q > 0
    ensures r + q <= r * q + 1
  {
    if r > 1 {
      AtLeastSum(r - 1, q);
      assert r * q == (r - 1) * q + q;
    }
  }

  /** A sum in an unsigned type with the given maximum. */
  function Wrapped(sum: nat, maximum: nat): nat
    requires sum <= 2 * maximum + 1
  {
    if sum <= maximum then sum else sum - maximum - 1
  }

  /** sqrt on an unsigned type at least as wide as int, with the given maximum; narrower ones are
      promoted and never wrap. Only for the maximum itself does result + 1 wrap to zero, and then
      the loop divides by zero. */
  method Sqrt(x: nat, maximum: nat) returns (result: nat, divided: bool)
    requires 0 < maximum && x <= maximum
    ensures divided <==> x == maximum
    ensures x < maximum ==> IsRoot(result, x)
  {
    result, divided := x, false;
    var y: nat := Wrapped(result + 1, maximum) / 2;
    SqrtBegins(x, maximum);
    while y < result
      invariant SqrtLoop(x, maximum, result, y)
      decreases result
    {
      ghost var was := result;
      result := y;
      if result == 0 {
        SqrtDivides(x, maximum, was);
        return result, true;
      }
      SqrtNext(x, maximum, was, result);
      y := Wrapped(result + x / result, maximum) / 2;
    }
    SqrtEnds(x, maximum, result, y);
  }

  /** At the loop test: the value is not below the root, and y is the next one. */
  ghost predicate SqrtLoop(x: nat, maximum: nat, result: nat, y: nat) {
    if x == maximum then result == x && y == 0
    else if x == 0 then result == 0 && y == 0
    else 0 < result <= x && x < (result + 1) * (result + 1) && y == Halfway(result, x)
  }

  lemma SqrtBegins(x: nat, maximum: nat)
    requires 0 < maximum && x <= maximum
    ensures SqrtLoop(x, maximum, x, Wrapped(x + 1, maximum) / 2)
  {
  }

  lemma SqrtDivides(x: nat, maximum: nat, result: nat)
    requires 0 < maximum && x <= maximum && SqrtLoop(x, maximum, result, 0) && 0 < result
    ensures x == maximum
  {
  }

  lemma SqrtNext(x: nat, maximum: nat, was: nat, result: nat)
    requires 0 < maximum && x <= maximum && SqrtLoop(x, maximum, was, result) && 0 < result < was
    ensures result + x / result <= maximum
    ensures SqrtLoop(x, maximum, result, Wrapped(result + x / result, maximum) / 2)
  {
    HalfwayStaysAbove(was, x);
    HalfwayInRange(result, x);
  }

  lemma SqrtEnds(x: nat, maximum: nat, result: nat, y: nat)
    requires 0 < maximum && x <= maximum && SqrtLoop(x, maximum, result, y) && y >= result
    ensures x < maximum && IsRoot(result, x)
  {
  }
}
