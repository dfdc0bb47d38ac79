/** The step from the s-plane to the z-plane: the bilinear transform, which pads the
    zeros with -1 up to the number of poles, or the matched z-transform. */
module ZPlane {
  import opened ComplexNumbers
  import opened Outcomes
  import opened Transcendental
  import opened Bands

  /** z = (2 + s) / (2 - s). */
  function Bilinear(s: Complex): (z: Complex)
    requires s != Real(2.0)
    ensures Mul(z, Sub(Real(2.0), s)) == Add(Real(2.0), s)
  {
    SubNonZero(s);
    Div(Add(Real(2.0), s), Sub(Real(2.0), s))
  }

  lemma SubNonZero(s: Complex)
    requires s != Real(2.0)
    ensures Sub(Real(2.0), s) != Zero
  {
  }

  /** The bilinear image of every point; s = 2 is a division by zero. */
  function BilinearAll(pts: seq<Complex>): (r: Result<seq<Complex>>)
    ensures r.Success? <==> Real(2.0) !in pts
    ensures r.Failure? ==> r.error == DivisionByZero
    ensures r.Success? ==> |r.value| == |pts|
    ensures r.Success? ==> forall i :: 0 <= i < |pts| ==>
      Mul(r.value[i], Sub(Real(2.0), pts[i])) == Add(Real(2.0), pts[i])
  {
    if Real(2.0) in pts then Failure(DivisionByZero)
    else Success(seq(|pts|, i requires 0 <= i < |pts| => Bilinear(pts[i])))
  }

  /** Appends zeros at z = -1 while there are fewer zeros than `count`. */
  function PadZeros(zeros: seq<Complex>, count: nat): (r: seq<Complex>)
    ensures |r| == if |zeros| < count then count else |zeros|
    ensures r[..|zeros|] == zeros
    ensures forall i :: |zeros| <= i < |r| ==> r[i] == Real(-1.0)
    decreases count - |zeros|
  {
    if |zeros| < count then
      var r := PadZeros(zeros + [Real(-1.0)], count);
      assert r[..|zeros|] == (r[..|zeros| + 1])[..|zeros|];
      r
    else zeros
  }

  /** The bilinear transform of an s-plane pole-zero set. */
  function Blt(s: PoleZero): (r: Result<PoleZero>)
    ensures r.Success? <==> Real(2.0) !in s.poles && Real(2.0) !in s.zeros
    ensures r.Failure? ==> r.error == DivisionByZero
    ensures r.Success? ==> r.value.poles == BilinearAll(s.poles).value
    ensures r.Success? ==> |r.value.poles| == |s.poles|
    ensures r.Success? && |s.zeros| <= |s.poles| ==>
      && |r.value.zeros| == |s.poles|
      && r.value.zeros[..|s.zeros|] == BilinearAll(s.zeros).value
      && forall i :: |s.zeros| <= i < |s.poles| ==> r.value.zeros[i] == Real(-1.0)
  {
    var poles :- BilinearAll(s.poles);
    var zeros :- BilinearAll(s.zeros);
    Success(PoleZero(poles, PadZeros(zeros, |poles|)))
  }

  /** The matched z-transform: z = exp(s) for every pole and zero, with no padding. */
  function Mzt(m: Elementary, s: PoleZero): (r: PoleZero)
    ensures |r.poles| == |s.poles| && |r.zeros| == |s.zeros|
    ensures forall i :: 0 <= i < |s.poles| ==> r.poles[i] == Exp(m, s.poles[i])
    ensures forall i :: 0 <= i < |s.zeros| ==> r.zeros[i] == Exp(m, s.zeros[i])
  {
    PoleZero(
      seq(|s.poles|, i requires 0 <= i < |s.poles| => Exp(m, s.poles[i])),
      seq(|s.zeros|, i requires 0 <= i < |s.zeros| => Exp(m, s.zeros[i])))
  }

  /** |2 + s|^2 - |2 - s|^2 = 8 Re s. */
  lemma NormSqDifference(s: Complex)
    ensures NormSq(Add(Real(2.0), s)) - NormSq(Sub(Real(2.0), s)) == 8.0 * s.re
  {
  }

  /** For d > 0, x < 1 exactly when x d < d. */
  lemma BelowOne(x: real, d: real)
    requires d > 0.0
    ensures x < 1.0 <==> x * d < d
    ensures x == 1.0 <==> x * d == d
  {
    SignOfProduct(1.0 - x, d);
    assert (1.0 - x) * d == d - x * d;
  }

  /** The bilinear transform takes the open left half-plane onto the inside of the
      unit circle, and the imaginary axis onto the circle itself. */
  lemma BilinearInside(s: Complex)
    requires s != Real(2.0)
    ensures NormSq(Bilinear(s)) < 1.0 <==> s.re < 0.0
    ensures NormSq(Bilinear(s)) == 1.0 <==> s.re == 0.0
  {
    var d := Sub(Real(2.0), s);
    SubNonZero(s);
    NormSqDiv(Add(Real(2.0), s), d);
    NormSqDifference(s);
    RatioBelowOne(NormSq(Bilinear(s)), NormSq(d), NormSq(Add(Real(2.0), s)), s.re);
  }

  lemma RatioBelowOne(x: real, d: real, a: real, re: real)
    requires d > 0.0 && x * d == a && a - d == 8.0 * re
    ensures x < 1.0 <==> re < 0.0
    ensures x == 1.0 <==> re == 0.0
  {
    BelowOne(x, d);
  }

  /** Every pole in the left half-plane lands strictly inside the unit circle. */
  lemma BltStable(s: PoleZero)
    requires forall i :: 0 <= i < |s.poles| ==> s.poles[i].re < 0.0
    requires Real(2.0) !in s.zeros
    ensures var r := Blt(s);
      r.Success? && forall i :: 0 <= i < |r.value.poles| ==> NormSq(r.value.poles[i]) < 1.0
  {
    var poles := BilinearAll(s.poles).value;
    forall i | 0 <= i < |poles|
      ensures NormSq(poles[i]) < 1.0
    {
      assert s.poles[i] in s.poles;
      BilinearInside(s.poles[i]);
    }
  }

  /** Under the matched z-transform, too, left half-plane poles land inside the circle. */
  lemma MztStable(m: Elementary, s: PoleZero)
    requires ExpContractsLaw(m)
    requires forall i :: 0 <= i < |s.poles| ==> s.poles[i].re < 0.0
    ensures forall i :: 0 <= i < |s.poles| ==> NormSq(Mzt(m, s).poles[i]) < 1.0
  {
  }
}
