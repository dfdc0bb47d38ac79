/** Complex numbers as pairs of exact reals, standing in for numpy's complex128.
    Only the field operations the filter designer uses are defined, together with
    the algebraic facts the rest of the model relies on. */
module ComplexNumbers {

  datatype Complex = Complex(re: real, im: real)

  const Zero: Complex := Complex(0.0, 0.0)
  const One: Complex := Complex(1.0, 0.0)

  /** The real number `x` seen as a complex number. */
  function Real(x: real): Complex {
    Complex(x, 0.0)
  }

  function Add(a: Complex, b: Complex): Complex {
    Complex(a.re + b.re, a.im + b.im)
  }

  function Sub(a: Complex, b: Complex): Complex {
    Complex(a.re - b.re, a.im - b.im)
  }

  function Neg(a: Complex): Complex {
    Complex(-a.re, -a.im)
  }

  function Mul(a: Complex, b: Complex): Complex {
    Complex(a.re * b.re - a.im * b.im, a.re * b.im + a.im * b.re)
  }

  /** Multiplication by a real factor. */
  function Scale(k: real, a: Complex): Complex {
    Complex(k * a.re, k * a.im)
  }

  function Conj(a: Complex): Complex {
    Complex(a.re, -a.im)
  }

  /** The identity. It only exists to give `Sq` a second factor the solver does not
      multiply out, which keeps nonlinear real arithmetic out of most proofs. */
  function Id(r: real): real {
    r
  }

  /** r squared. The second factor is written `Id(r)` so that the verifier treats
      `Sq(r)` as an ordinary product; its sign is established once, in `SqFacts`. */
  function Sq(r: real): real {
    r * Id(r)
  }

  /** The squared modulus |a|^2. */
  function NormSq(a: Complex): real {
    Sq(a.re) + Sq(a.im)
  }

  lemma MulPositive(x: real, y: real)
    requires x > 0.0 && y > 0.0
    ensures x * y > 0.0
  {
  }

  /** Multiplying by a positive factor keeps the sign. */
  lemma SignOfProduct(x: real, d: real)
    requires d > 0.0
    ensures x > 0.0 <==> x * d > 0.0
    ensures x < 0.0 <==> x * d < 0.0
  {
    if x > 0.0 {
      MulPositive(x, d);
    } else if x < 0.0 {
      MulPositive(-x, d);
    } else {
      assert x * d == 0.0;
    }
  }

  lemma DivCompare(x: real, d: real, c: real)
    requires d > 0.0
    ensures x / d > c <==> x > c * d
    ensures x / d < c <==> x < c * d
  {
    var q := x / d;
    assert q * d == x;
    SignOfProduct(q - c, d);
  }

  lemma SqFacts(r: real)
    ensures Sq(r) >= 0.0
    ensures r != 0.0 <==> Sq(r) > 0.0
  {
    if r > 0.0 {
      MulPositive(r, Id(r));
    } else if r < 0.0 {
      MulPositive(-r, -Id(r));
    } else {
      assert Sq(r) == 0.0 * Id(r);
    }
  }

  lemma NormSqReal(x: real)
    ensures NormSq(Real(x)) == Sq(x)
  {
    assert Sq(0.0) == 0.0;
  }

  /** 1 and -1 lie on the unit circle. */
  lemma UnitReals()
    ensures NormSq(Real(1.0)) == 1.0 && NormSq(Real(-1.0)) == 1.0
  {
    NormSqReal(1.0);
    NormSqReal(-1.0);
    assert Sq(1.0) == 1.0;
    assert Sq(-1.0) == 1.0;
  }

  /** On the non-negative reals, squaring is strictly increasing. */
  lemma SqStrictlyIncreasing(x: real, y: real)
    requires 0.0 <= x < y
    ensures Sq(x) < Sq(y)
  {
    DifferenceOfSquares(y, x);
    MulPositive(y - x, y + x);
  }

  lemma DifferenceOfSquares(a: real, b: real)
    ensures (a - b) * (a + b) == Sq(a) - Sq(b)
  {
  }

  /** On the non-negative reals, squaring is injective. */
  lemma SqInjective(x: real, y: real)
    requires x >= 0.0 && y >= 0.0 && Sq(x) == Sq(y)
    ensures x == y
  {
    if x < y {
      SqStrictlyIncreasing(x, y);
    } else if y < x {
      SqStrictlyIncreasing(y, x);
    }
  }

  lemma NormSqPositive(a: Complex)
    ensures NormSq(a) >= 0.0
    ensures a != Zero <==> NormSq(a) > 0.0
  {
    SqFacts(a.re);
    SqFacts(a.im);
    if a.re == 0.0 && a.im == 0.0 {
      assert a == Zero;
    }
  }

  function Div(a: Complex, b: Complex): (q: Complex)
    requires b != Zero
    ensures Mul(q, b) == a
  {
    NormSqPositive(b);
    var n := NormSq(b);
    var q := Complex((a.re * b.re + a.im * b.im) / n, (a.im * b.re - a.re * b.im) / n);
    DivTimesDivisor(a, b, n, q);
    q
  }

  lemma DivTimesDivisor(a: Complex, b: Complex, n: real, q: Complex)
    requires n == NormSq(b) && n > 0.0
    requires q == Complex((a.re * b.re + a.im * b.im) / n, (a.im * b.re - a.re * b.im) / n)
    ensures Mul(q, b) == a
  {
    var x := a.re * b.re + a.im * b.im;
    var y := a.im * b.re - a.re * b.im;
    assert q.re * n == x;
    assert q.im * n == y;
    assert n == b.re * b.re + b.im * b.im;
    calc {
      (q.re * b.re - q.im * b.im) * n;
      q.re * n * b.re - q.im * n * b.im;
      x * b.re - y * b.im;
      a.re * n;
    }
    calc {
      (q.re * b.im + q.im * b.re) * n;
      q.re * n * b.im + q.im * n * b.re;
      x * b.im + y * b.re;
      a.im * n;
    }
  }

  lemma MulZero(a: Complex)
    ensures Mul(a, Zero) == Zero && Mul(Zero, a) == Zero
  {
  }

  /** Scaling by k scales the squared modulus by k^2. */
  lemma NormSqScale(k: real, a: Complex)
    ensures NormSq(Scale(k, a)) == Sq(k) * NormSq(a)
  {
    assert Sq(k * a.re) == Sq(k) * Sq(a.re);
    assert Sq(k * a.im) == Sq(k) * Sq(a.im);
  }

  /** Scaling by 1 / |a|, for a non-zero modulus, leaves modulus 1. */
  lemma ScaleToUnit(a: Complex, g: real)
    requires g > 0.0 && Sq(g) == NormSq(a)
    ensures NormSq(Scale(1.0 / g, a)) == 1.0
  {
    var k := 1.0 / g;
    assert k * g == 1.0;
    NormSqScale(k, a);
    assert Sq(k) * Sq(g) == Sq(k * g);
  }

  lemma NormSqMul(a: Complex, b: Complex)
    ensures NormSq(Mul(a, b)) == NormSq(a) * NormSq(b)
  {
  }

  /** A product of complex numbers is zero only when a factor is. */
  lemma MulNonZero(a: Complex, b: Complex)
    requires a != Zero && b != Zero
    ensures Mul(a, b) != Zero
  {
    NormSqPositive(a);
    NormSqPositive(b);
    NormSqMul(a, b);
    MulPositive(NormSq(a), NormSq(b));
    NormSqPositive(Mul(a, b));
  }

  lemma NormSqDiv(a: Complex, b: Complex)
    requires b != Zero
    ensures NormSq(b) > 0.0
    ensures NormSq(Div(a, b)) * NormSq(b) == NormSq(a)
  {
    NormSqPositive(b);
    NormSqMul(Div(a, b), b);
  }

  lemma MulComm(a: Complex, b: Complex)
    ensures Mul(a, b) == Mul(b, a)
  {
  }

  lemma MulAssoc(a: Complex, b: Complex, c: Complex)
    ensures Mul(Mul(a, b), c) == Mul(a, Mul(b, c))
  {
  }

  lemma MulAddDistrib(a: Complex, b: Complex, c: Complex)
    ensures Mul(a, Add(b, c)) == Add(Mul(a, b), Mul(a, c))
  {
  }

  lemma MulSubDistrib(a: Complex, b: Complex, c: Complex)
    ensures Mul(Sub(a, b), c) == Sub(Mul(a, c), Mul(b, c))
  {
  }

  /** (ab)(cd) = (ac)(bd). */
  lemma MulSwapMiddle(a: Complex, b: Complex, c: Complex, d: Complex)
    ensures Mul(Mul(a, b), Mul(c, d)) == Mul(Mul(a, c), Mul(b, d))
  {
    calc {
      Mul(Mul(a, b), Mul(c, d));
      { MulAssoc(a, b, Mul(c, d)); }
      Mul(a, Mul(b, Mul(c, d)));
      { MulAssoc(b, c, d); }
      Mul(a, Mul(Mul(b, c), d));
      { MulComm(b, c); }
      Mul(a, Mul(Mul(c, b), d));
      { MulAssoc(c, b, d); }
      Mul(a, Mul(c, Mul(b, d)));
      { MulAssoc(a, c, Mul(b, d)); }
      Mul(Mul(a, c), Mul(b, d));
    }
  }
}
