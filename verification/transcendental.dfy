/** The transcendental functions the designer takes from numpy (exp, sqrt, tan, sinh,
    cosh, arcsinh, powers of ten, and the constant pi). Their values are not computed
    here: a design is carried out for any bundle `m` of such functions, and the few
    facts about them that a proof needs are stated as predicates on `m`. */
module Transcendental {
  import opened ComplexNumbers

  datatype Elementary = Elementary(
    pi: real,
    exp: Complex -> Complex,
    sqrt: real -> real,
    csqrt: Complex -> Complex,
    tan: real -> real,
    sinh: real -> real,
    cosh: real -> real,
    asinh: real -> real,
    pow10: real -> real)

  function Exp(m: Elementary, s: Complex): Complex {
    m.exp(s)
  }

  /** exp(i * theta). */
  function Cis(m: Elementary, theta: real): Complex {
    Exp(m, Complex(0.0, theta))
  }

  function Sqrt(m: Elementary, x: real): real {
    m.sqrt(x)
  }

  /** numpy's principal complex square root. */
  function Csqrt(m: Elementary, w: Complex): Complex {
    m.csqrt(w)
  }

  function Tan(m: Elementary, x: real): real {
    m.tan(x)
  }

  function Sinh(m: Elementary, y: real): real {
    m.sinh(y)
  }

  function Cosh(m: Elementary, y: real): real {
    m.cosh(y)
  }

  function Asinh(m: Elementary, x: real): real {
    m.asinh(x)
  }

  /** 10 ** x. */
  function Pow10(m: Elementary, x: real): real {
    m.pow10(x)
  }

  /** |z|, as numpy's abs computes it. */
  function Abs(m: Elementary, z: Complex): real {
    Sqrt(m, NormSq(z))
  }

  predicate PiPositive(m: Elementary) {
    m.pi > 0.0
  }

  /** sqrt(x) is the non-negative number whose square is x. */
  ghost predicate SqrtLaw(m: Elementary) {
    forall x :: x >= 0.0 ==> Sqrt(m, x) >= 0.0 && Sq(Sqrt(m, x)) == x
  }

  ghost predicate CsqrtLaw(m: Elementary) {
    forall w: Complex :: Mul(Csqrt(m, w), Csqrt(m, w)) == w
  }

  /** 10 ** x exceeds 1 for positive x. */
  ghost predicate Pow10Law(m: Elementary) {
    forall x :: x > 0.0 ==> Pow10(m, x) > 1.0
  }

  ghost predicate SinhLaw(m: Elementary) {
    forall y :: y > 0.0 ==> Sinh(m, y) > 0.0
  }

  ghost predicate AsinhLaw(m: Elementary) {
    forall x :: x > 0.0 ==> Asinh(m, x) > 0.0
  }

  /** tan x is positive between 0 and pi/2. */
  ghost predicate TanLaw(m: Elementary) {
    forall x :: 0.0 < x < m.pi / 2.0 ==> Tan(m, x) > 0.0
  }

  /** Over one turn, cos theta is negative exactly for pi/2 < theta < 3 pi/2. */
  ghost predicate HalfPlaneLaw(m: Elementary) {
    forall theta :: 0.0 <= theta < 2.0 * m.pi ==>
      (Cis(m, theta).re < 0.0 <==> m.pi / 2.0 < theta < 3.0 * m.pi / 2.0)
  }

  /** |exp(i * theta)| = 1. */
  ghost predicate UnitCircleLaw(m: Elementary) {
    forall theta :: NormSq(Cis(m, theta)) == 1.0
  }

  /** |exp(s)| = exp(Re s) < 1 when Re s < 0. */
  ghost predicate ExpContractsLaw(m: Elementary) {
    forall s: Complex :: s.re < 0.0 ==> NormSq(Exp(m, s)) < 1.0
  }

  /** What the designer needs of `m` for its arithmetic to be defined: pi is not zero
      (prewarping divides by it) and the Chebyshev epsilon is not zero. */
  ghost predicate WellDefined(m: Elementary) {
    PiPositive(m) && SqrtLaw(m) && Pow10Law(m)
  }

  /** Every fact the model uses about the real transcendental functions. */
  ghost predicate Lawful(m: Elementary) {
    && WellDefined(m)
    && CsqrtLaw(m)
    && SinhLaw(m)
    && AsinhLaw(m)
    && TanLaw(m)
    && HalfPlaneLaw(m)
    && UnitCircleLaw(m)
    && ExpContractsLaw(m)
  }

  /** The square root of a positive number is positive. */
  lemma SqrtPositive(m: Elementary, x: real)
    requires SqrtLaw(m) && x > 0.0
    ensures Sqrt(m, x) > 0.0
  {
    SqFacts(Sqrt(m, x));
  }
}
