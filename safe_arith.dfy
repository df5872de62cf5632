/**
 * Checked arithmetic on off_t, the signed file-offset type of cchunks.c,
 * here fixed at 64 bits: add_safe and mult_safe decide whether a sum or a product is
 * representable before it is used, so an offset never wraps around.
 */
module SafeArith {
  import opened Options

  /** OFF_T_MIN: the sign bit alone, -(2^63). */
  const OFF_T_MIN: int := -0x8000_0000_0000_0000
  /** OFF_T_MAX: every bit except the sign bit, 2^63 - 1. */
  const OFF_T_MAX: int := 0x7FFF_FFFF_FFFF_FFFF

  predicate InRange(x: int) {
    OFF_T_MIN <= x <= OFF_T_MAX
  }

  /** A value of off_t. */
  type Off = x: int | OFF_T_MIN <= x <= OFF_T_MAX

  /** The mathematical value `x` when off_t can hold it, and None otherwise. */
  function Checked(x: int): (r: Option<Off>)
    ensures r.Some? <==> InRange(x)
    ensures r.Some? ==> r.value == x
  {
    if InRange(x) then Some(x) else None
  }

  function Abs(x: int): nat {
    if x < 0 then -x else x
  }

  /**
   * Integer division as C does it: the quotient is truncated toward zero,
   * so the remainder `a - q * b` is smaller than `b` in magnitude and has
   * the sign of `a`. (Dafny's own `/` is Euclidean.)
   */
  function CDiv(a: int, b: int): (q: int)
    requires b != 0
    ensures Abs(a - q * b) < Abs(b)
    ensures a >= 0 ==> a - q * b >= 0
    ensures a <= 0 ==> a - q * b <= 0
  {
    var q, r := a / b, a % b;
    assert a == q * b + r && 0 <= r < Abs(b);
    if a >= 0 || r == 0 then
      assert a - q * b == r;
      q
    else if b > 0 then
      assert a - (q + 1) * b == r - b;
      q + 1
    else
      assert a - (q - 1) * b == r + b;
      q - 1
  }

  lemma MulMonotone(x: int, y: int, d: int)
    requires x <= y && d >= 0
    ensures x * d <= y * d
  {
    assert y * d - x * d == (y - x) * d;
  }

  /** When `q` is the quotient of `n` by `d > 0` rounded down, `x` exceeds `q` exactly when `x * d` exceeds `n`. */
  lemma FloorBound(x: int, q: int, n: int, d: int)
    requires d > 0 && q * d <= n < q * d + d
    ensures x > q <==> x * d > n
  {
    if x > q {
      MulMonotone(q + 1, x, d);
      assert (q + 1) * d == q * d + d;
    } else {
      MulMonotone(x, q, d);
    }
  }

  /** When `q` is the quotient of `n` by `d > 0` rounded up, `x` is below `q` exactly when `x * d` is below `n`. */
  lemma CeilBound(x: int, q: int, n: int, d: int)
    requires d > 0 && q * d - d < n <= q * d
    ensures x < q <==> x * d < n
  {
    if x < q {
      MulMonotone(x, q - 1, d);
      assert (q - 1) * d == q * d - d;
    } else {
      MulMonotone(q, x, d);
    }
  }

  /**
   * add_safe: the check compares `a` with OFF_T_MAX - b or OFF_T_MIN - b,
   * which cannot overflow, and reports failure exactly when the
   * mathematical sum is not an off_t. On failure the C code still stores
   * a sum that C's signed-overflow rules leave undefined (in practice the
   * wrapped value); callers never use it, so the model returns None.
   */
  function AddSafe(a: Off, b: Off): (r: Option<Off>)
    ensures r == Checked(a + b)
  {
    if (b > 0 && a > OFF_T_MAX - b) || (b < 0 && a < OFF_T_MIN - b) then None
    else Some(a + b)
  }

  /** a > 0, b > 0: the source tests a > OFF_T_MAX / b. */
  lemma PositivePositive(a: int, b: int)
    requires a > 0 && b > 0
    ensures a > CDiv(OFF_T_MAX, b) <==> !InRange(a * b)
  {
    FloorBound(a, CDiv(OFF_T_MAX, b), OFF_T_MAX, b);
    MulMonotone(1, a, b);
  }

  /** a > 0, b <= 0: the source tests b < OFF_T_MIN / a. */
  lemma PositiveNonPositive(a: int, b: int)
    requires a > 0 && b <= 0
    ensures b < CDiv(OFF_T_MIN, a) <==> !InRange(a * b)
  {
    CeilBound(b, CDiv(OFF_T_MIN, a), OFF_T_MIN, a);
    assert b * a == a * b;
    MulMonotone(b, 0, a);
  }

  /** a <= 0, b > 0: the source tests a < OFF_T_MIN / b. */
  lemma NonPositivePositive(a: int, b: int)
    requires a <= 0 && b > 0
    ensures a < CDiv(OFF_T_MIN, b) <==> !InRange(a * b)
  {
    CeilBound(a, CDiv(OFF_T_MIN, b), OFF_T_MIN, b);
    MulMonotone(a, 0, b);
  }

  /** a < 0, b <= 0: the source tests b < OFF_T_MAX / a. */
  lemma NegativeNonPositive(a: int, b: int)
    requires a < 0 && b <= 0
    ensures b < CDiv(OFF_T_MAX, a) <==> !InRange(a * b)
  {
    var q := CDiv(OFF_T_MAX, a);
    assert q * a == (-q) * (-a);
    FloorBound(-b, -q, OFF_T_MAX, -a);
    assert (-b) * (-a) == a * b;
    MulMonotone(0, -b, -a);
  }

  /**
   * mult_safe: four sign cases, each comparing one factor with a C quotient
   * of OFF_T_MIN or OFF_T_MAX by the other. Together they report failure
   * exactly when the mathematical product is not an off_t. As with add_safe,
   * the value stored on failure is not modelled.
   */
  function MultSafe(a: Off, b: Off): (r: Option<Off>)
    ensures r == Checked(a * b)
  {
    if a > 0 then
      if b > 0 then
        PositivePositive(a, b);
        if a > CDiv(OFF_T_MAX, b) then None else Some(a * b)
      else
        PositiveNonPositive(a, b);
        if b < CDiv(OFF_T_MIN, a) then None else Some(a * b)
    else
      if b > 0 then
        NonPositivePositive(a, b);
        if a < CDiv(OFF_T_MIN, b) then None else Some(a * b)
      else if a != 0 then
        NegativeNonPositive(a, b);
        if b < CDiv(OFF_T_MAX, a) then None else Some(a * b)
      else
        // a == 0: the product is 0, and C's && skips the division
        Some(a * b)
  }
}
