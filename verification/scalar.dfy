/** Scalar helpers standing in for the f32 operations the generator uses.
    An f32 is modelled as a `real`: rounding, NaN and infinities are not modelled. */
module Scalar {

  datatype Option<+T> = None | Some(value: T)

  /** `f32::clamp(lo, hi)` (the source only calls it with lo <= hi). */
  function Clamp(v: real, lo: real, hi: real): (r: real)
    requires lo <= hi
    ensures lo <= r <= hi
    ensures lo <= v <= hi ==> r == v
    ensures v < lo ==> r == lo
    ensures hi < v ==> r == hi
  {
    if v < lo then lo else if hi < v then hi else v
  }

  /** `f32::max`. */
  function Max(a: real, b: real): (r: real)
    ensures r >= a && r >= b && (r == a || r == b)
  {
    if a < b then b else a
  }

  /** `f32::ceil` on an exact value. */
  function Ceil(x: real): (r: int)
    ensures x <= r as real < x + 1.0
  {
    -((-x).Floor)
  }

  const U32_MAX: int := 0xFFFF_FFFF

  /** The saturating `f32 as u32` cast applied to an integral value. */
  function SatU32(v: int): (r: nat)
    ensures r <= U32_MAX
    ensures 0 <= v <= U32_MAX ==> r == v
  {
    if v < 0 then 0 else if v > U32_MAX then U32_MAX else v
  }

  /** The identity. `Sq` multiplies x by `Twin(x)` so that the solver sees a
      product of two distinct terms and can use the sign lemmas below. */
  function Twin(x: real): (y: real)
    ensures y == x
  {
    x
  }

  /** `x * x`. */
  function Sq(x: real): (r: real)
    ensures r >= 0.0
    ensures x != 0.0 ==> r > 0.0
  {
    var y := Twin(x);
    if x > 0.0 then MulPositive(x, y); x * y
    else if x < 0.0 then MulNegatives(x, y); x * y
    else MulNonNegative(x, y); x * y
  }

  /** Every cell lies in the unit interval. */
  predicate InUnit(s: seq<real>)
  {
    forall i :: 0 <= i < |s| ==> 0.0 <= s[i] <= 1.0
  }

  /** Overwriting one cell with a value in [0,1] keeps a field in [0,1]. */
  lemma InUnitUpdate(s: seq<real>, i: int, v: real)
    requires InUnit(s) && 0 <= i < |s| && 0.0 <= v <= 1.0
    ensures InUnit(s[i := v])
  {
  }

  /** Every cell is zero. */
  predicate AllZero(s: seq<real>)
  {
    forall i :: 0 <= i < |s| ==> s[i] == 0.0
  }

  /** Every cell is non-negative. */
  predicate NonNegative(s: seq<real>)
  {
    forall i :: 0 <= i < |s| ==> 0.0 <= s[i]
  }

  lemma MulNonNegative(a: real, b: real)
    requires a >= 0.0 && b >= 0.0
    ensures a * b >= 0.0
  {
  }

  lemma MulPositive(a: real, b: real)
    requires a > 0.0 && b > 0.0
    ensures a * b > 0.0
  {
  }

  lemma MulNegatives(a: real, b: real)
    requires a < 0.0 && b < 0.0
    ensures a * b > 0.0
  {
    MulPositive(-a, -b);
    assert (-a) * (-b) == a * b;
  }

  /** A fraction in [0, 1) of a positive amount is below the amount. */
  lemma FractionBelow(u: real, d: real)
    requires 0.0 <= u < 1.0 && d > 0.0
    ensures 0.0 <= u * d < d
  {
    MulNonNegative(u, d);
    MulPositive(1.0 - u, d);
  }

  lemma DivMul(a: real, b: real)
    requires b != 0.0
    ensures (a / b) * b == a
  {
  }

  lemma DivPositive(a: real, b: real)
    requires a > 0.0 && b > 0.0
    ensures a / b > 0.0
  {
    assert (a / b) * b == a;
  }

  /** `a <= c * b` with b > 0 gives `a / b <= c`. */
  lemma DivAtMost(a: real, b: real, c: real)
    requires b > 0.0 && a <= c * b
    ensures a / b <= c
  {
    var q := a / b;
    assert q * b == a;
    if q > c {
      MulPositive(q - c, b);
    }
  }

  /** `a <= b` with b > 0 gives `a / b <= 1`. */
  lemma DivAtMostOne(a: real, b: real)
    requires b > 0.0 && a <= b
    ensures a / b <= 1.0
  {
    var q := a / b;
    assert q * b == a;
    if q > 1.0 {
      MulPositive(q - 1.0, b);
    }
  }

  lemma DivSelf(a: real)
    requires a != 0.0
    ensures a / a == 1.0
  {
  }

  lemma DivNonNegative(a: real, b: real)
    requires a >= 0.0 && b > 0.0
    ensures a / b >= 0.0
  {
    if a > 0.0 {
      DivPositive(a, b);
    }
  }
}
