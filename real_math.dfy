/**
 * Real-number helpers shared by the whole model.
 *
 * The game works on `f64`; the model works on `real`. Square roots are not
 * definable in Dafny's real arithmetic, so the platform's `sqrt` is carried as
 * a function-valued parameter that every caller must show to be a square
 * root: `IsSqrt(sqrt)`. Its laws (monotonicity, uniqueness) are proved here.
 */
module RealMath {

  /** `sqrt` agrees with the mathematical square root on non-negative inputs. */
  ghost predicate IsSqrt(sqrt: real -> real) {
    forall x {:trigger sqrt(x)} :: 0.0 <= x ==> 0.0 <= sqrt(x) && sqrt(x) * sqrt(x) == x
  }

  function Abs(x: real): real {
    if x < 0.0 then -x else x
  }

  /** `f64::max` on numbers (NaN is not modelled). */
  function Max(a: real, b: real): (r: real)
    ensures r >= a && r >= b && (r == a || r == b)
  {
    if a >= b then a else b
  }

  /** `f64::min` on numbers (NaN is not modelled). */
  function Min(a: real, b: real): (r: real)
    ensures r <= a && r <= b && (r == a || r == b)
  {
    if a <= b then a else b
  }

  const U64_MAX: nat := 18446744073709551615

  /**
   * Rust's `m as u64` for a real `m`: rounds toward zero and saturates at both
   * ends of the `u64` range.
   */
  function U64(m: real): (r: nat)
    ensures r <= U64_MAX
    ensures 0.0 <= m && m < U64_MAX as real ==> r == m.Floor
    ensures m < 1.0 ==> r == 0
  {
    if m <= 0.0 then 0 else if m.Floor > U64_MAX then U64_MAX else m.Floor
  }

  lemma {:induction false} NonNegMul(x: real, y: real)
    requires 0.0 <= x && 0.0 <= y
    ensures 0.0 <= x * y
  {
  }

  lemma {:induction false} PosMul(x: real, y: real)
    requires 0.0 < x && 0.0 < y
    ensures 0.0 < x * y
  {
  }

  lemma {:induction false} SquareNonNeg(x: real)
    ensures 0.0 <= x * x
  {
    if x < 0.0 { NonNegMul(-x, -x); } else { NonNegMul(x, x); }
  }

  /** Squaring is strictly increasing on the non-negative reals. */
  lemma {:induction false} SquareLess(a: real, b: real)
    requires 0.0 <= a < b
    ensures a * a < b * b
  {
    var d := b - a;
    NonNegMul(a, d);
    PosMul(b, d);
    var p, q, r := a * d, b * d, a * b;
    assert p == r - a * a;
    assert q == b * b - r;
    assert p + q == b * b - a * a;
  }

  lemma {:induction false} SquareLessEq(a: real, b: real)
    requires 0.0 <= a <= b
    ensures a * a <= b * b
  {
    if a < b { SquareLess(a, b); }
  }

  /** A non-negative number whose square is `x` is the square root of `x`. */
  lemma {:induction false} SqrtUnique(sqrt: real -> real, x: real, r: real)
    requires IsSqrt(sqrt)
    requires 0.0 <= r && r * r == x
    ensures sqrt(x) == r
  {
    var s := sqrt(x);
    if s < r { SquareLess(s, r); }
    if r < s { SquareLess(r, s); }
  }

  lemma {:induction false} SqrtOfSquare(sqrt: real -> real, r: real)
    requires IsSqrt(sqrt) && 0.0 <= r
    ensures sqrt(r * r) == r
  {
    NonNegMul(r, r);
    SqrtUnique(sqrt, r * r, r);
  }

  /** The square root is strictly increasing: `a < b` iff `sqrt(a) < sqrt(b)`. */
  lemma {:induction false} SqrtStrictlyIncreasing(sqrt: real -> real, a: real, b: real)
    requires IsSqrt(sqrt) && 0.0 <= a && 0.0 <= b
    ensures a < b <==> sqrt(a) < sqrt(b)
  {
    var sa, sb := sqrt(a), sqrt(b);
    if sa < sb { SquareLess(sa, sb); }
    if sb <= sa { SquareLessEq(sb, sa); }
  }

  lemma {:induction false} SqrtPositive(sqrt: real -> real, x: real)
    requires IsSqrt(sqrt) && 0.0 < x
    ensures 0.0 < sqrt(x)
  {
  }

  /** Comparing a square root against a non-negative bound by squaring. */
  lemma {:induction false} SqrtLessIff(sqrt: real -> real, x: real, bound: real)
    requires IsSqrt(sqrt) && 0.0 <= x && 0.0 <= bound
    ensures sqrt(x) < bound <==> x < bound * bound
  {
    NonNegMul(bound, bound);
    SqrtOfSquare(sqrt, bound);
    SqrtStrictlyIncreasing(sqrt, x, bound * bound);
  }
}
