/** A complete design: the prototype, pre-warping, the band transformation, the step
    to the z-plane, the recurrence coefficients and the gains at DC, at the centre
    frequency and at the Nyquist frequency. */
module Designer {
  import opened ComplexNumbers
  import opened Outcomes
  import opened Transcendental
  import opened Polynomial
  import opened Prototype
  import opened Bands
  import opened ZPlane

  /** The arguments of a design request. `alpha1` and `alpha2` are corner frequencies
      as fractions of the sample rate; a missing `alpha2` means `alpha1`. */
  datatype Request = Request(
    family: Family,
    band: Band,
    order: nat,
    alpha1: real,
    alpha2: Option<real>,
    ripple: real,
    useBlt: bool,
    prewarp: bool)

  /** Everything a design records: the pole-zero sets in both planes, the warped
      corner frequencies, the recurrence coefficients and the three gains (`None` where
      the transfer function has a pole at the point it is evaluated at). */
  datatype Filter = Filter(
    band: Band,
    splane: PoleZero,
    zplane: PoleZero,
    warped1: real,
    warped2: real,
    xcoeffs: seq<real>,
    ycoeffs: seq<real>,
    dcGain: Option<Complex>,
    fcGain: Option<Complex>,
    hfGain: Option<Complex>)

  /** The real parts of `c`, each divided by `lead`. */
  function RealParts(c: seq<Complex>, lead: real): (r: seq<real>)
    requires lead != 0.0
    ensures |r| == |c|
  {
    seq(|c|, i requires 0 <= i < |c| => c[i].re / lead)
  }

  /** The recurrence coefficients: the real parts of the numerator and of the negated
      denominator, divided by the denominator's leading coefficient. That coefficient
      is 1, so the division leaves them unchanged and the last y coefficient is -1. */
  function Coefficients(z: PoleZero): (r: (seq<real>, seq<real>))
    ensures |r.0| == |z.zeros| + 1 && |r.1| == |z.poles| + 1
    ensures forall i :: 0 <= i <= |z.zeros| ==> r.0[i] == Expand(z.zeros)[i].re
    ensures forall i :: 0 <= i <= |z.poles| ==> r.1[i] == -Expand(z.poles)[i].re
    ensures r.1[|z.poles|] == -1.0
  {
    var top := Expand(z.zeros);
    var bot := Expand(z.poles);
    var lead := bot[|bot| - 1].re;
    (RealParts(top, lead), RealParts(seq(|bot|, i requires 0 <= i < |bot| => Neg(bot[i])), lead))
  }

  /** The angle 2 pi (alpha1 + alpha2) / 2 of the centre frequency. */
  function CentreAngle(m: Elementary, raw1: real, raw2: real): real {
    2.0 * m.pi * 0.5 * (raw1 + raw2)
  }

  /** For corners whose sum lies strictly between 0 and the sample rate, the centre
      angle lies strictly between 0 and pi: the centre is neither DC nor the Nyquist
      frequency. */
  lemma CentreAngleBetween(m: Elementary, raw1: real, raw2: real)
    requires PiPositive(m) && 0.0 < raw1 + raw2 < 1.0
    ensures 0.0 < CentreAngle(m, raw1, raw2) < m.pi
  {
    var s := raw1 + raw2;
    var theta := CentreAngle(m, raw1, raw2);
    var rest := m.pi * (1.0 - s);
    MulPositive(m.pi, s);
    MulPositive(m.pi, 1.0 - s);
    assert rest > 0.0;
    assert theta + rest == m.pi;
    assert theta < m.pi;
  }

  /** Designs a filter. A Chebyshev ripple that is not negative, a non-positive
      Chebyshev y and a division by zero in the band transformation or the bilinear
      transform are failures. */
  function Design(m: Elementary, q: Request): (r: Result<Filter>)
    requires WellDefined(m) && 1 <= q.order <= MaxOrder
    ensures q.family == Chebyshev && q.ripple >= 0.0 ==> r == Failure(RippleNotNegative(q.ripple))
    ensures r.Failure? && r.error != DivisionByZero ==> q.family == Chebyshev
    ensures r.Success? ==> r.value.band == q.band
    ensures r.Success? ==>
      && r.value.warped1 == Prewarp(m, q.alpha1, q.prewarp, q.useBlt)
      && r.value.warped2 == Prewarp(m, q.alpha2.GetOr(q.alpha1), q.prewarp, q.useBlt)
    ensures r.Success? ==>
      && |r.value.xcoeffs| == |r.value.zplane.zeros| + 1
      && |r.value.ycoeffs| == |r.value.zplane.poles| + 1
      && r.value.ycoeffs[|r.value.zplane.poles|] == -1.0
    ensures r.Success? ==> (r.value.xcoeffs, r.value.ycoeffs) == Coefficients(r.value.zplane)
  {
    var proto :- SPlane(m, q.family, q.order, q.ripple);
    var raw2 := q.alpha2.GetOr(q.alpha1);
    var warped1 := Prewarp(m, q.alpha1, q.prewarp, q.useBlt);
    var warped2 := Prewarp(m, raw2, q.prewarp, q.useBlt);
    var s :- Normalize(m, q.band, proto, warped1, warped2);
    var z :- if q.useBlt then Blt(s) else Success(Mzt(m, s));
    var top := Expand(z.zeros);
    var bot := Expand(z.poles);
    var coeffs := Coefficients(z);
    Success(Filter(
      q.band, s, z, warped1, warped2, coeffs.0, coeffs.1,
      Evaluate(top, bot, Real(1.0)),
      Evaluate(top, bot, Cis(m, CentreAngle(m, q.alpha1, raw2))),
      Evaluate(top, bot, Real(-1.0))))
  }

  /** The pass-band gain: |H| at DC for a low-pass, at the Nyquist frequency for a
      high-pass and at the centre for a band-pass; for a band-stop, |sqrt(H(1) H(-1))|.
      `None` when the gain it needs is undefined. */
  function GetGain(m: Elementary, f: Filter): (g: Option<real>)
    ensures g.Some? <==> match f.band
      case LowPass => f.dcGain.Some?
      case HighPass => f.hfGain.Some?
      case BandPass => f.fcGain.Some?
      case BandStop => f.dcGain.Some? && f.hfGain.Some?
    ensures g.Some? && f.band == LowPass ==> g.value == Abs(m, f.dcGain.value)
    ensures g.Some? && f.band == HighPass ==> g.value == Abs(m, f.hfGain.value)
    ensures g.Some? && f.band == BandPass ==> g.value == Abs(m, f.fcGain.value)
    ensures g.Some? && f.band == BandStop ==>
      g.value == Abs(m, Csqrt(m, Mul(f.dcGain.value, f.hfGain.value)))
  {
    match f.band
    case LowPass => if f.dcGain.Some? then Some(Abs(m, f.dcGain.value)) else None
    case HighPass => if f.hfGain.Some? then Some(Abs(m, f.hfGain.value)) else None
    case BandPass => if f.fcGain.Some? then Some(Abs(m, f.fcGain.value)) else None
    case BandStop =>
      if f.dcGain.Some? && f.hfGain.Some? then
        Some(Abs(m, Csqrt(m, Mul(f.dcGain.value, f.hfGain.value))))
      else None
  }

  /** The number of z-plane poles and zeros, hence of recurrence coefficients: the
      band decides the pole count; the bilinear transform pads the zeros up to it, the
      matched z-transform keeps the band's own zero count. */
  lemma DesignCounts(m: Elementary, q: Request)
    requires Lawful(m) && 1 <= q.order <= MaxOrder
    ensures var r := Design(m, q);
      r.Success? ==>
        && |r.value.zplane.poles| == PoleCount(q.band, q.order)
        && |r.value.zplane.zeros| == (if q.useBlt then PoleCount(q.band, q.order) else ZeroCount(q.band, q.order))
        && |r.value.ycoeffs| == PoleCount(q.band, q.order) + 1
        && |r.value.xcoeffs| == |r.value.zplane.zeros| + 1
  {
    SPlaneExact(m, q.family, q.order, q.ripple);
  }

  /** A low-pass or high-pass design with its corner strictly between 0 and the Nyquist
      frequency always succeeds (given a negative ripple for Chebyshev), puts every
      z-plane pole strictly inside the unit circle, and has all three gains and its
      pass-band gain defined. */
  lemma DesignStable(m: Elementary, q: Request)
    requires Lawful(m) && 1 <= q.order <= MaxOrder
    requires q.band in {LowPass, HighPass} && 0.0 < q.alpha1 < 0.5
    requires q.family == Chebyshev ==> q.ripple < 0.0
    ensures var r := Design(m, q);
      && r.Success?
      && (forall i :: 0 <= i < |r.value.zplane.poles| ==> NormSq(r.value.zplane.poles[i]) < 1.0)
      && r.value.dcGain.Some? && r.value.fcGain.Some? && r.value.hfGain.Some?
      && GetGain(m, r.value).Some? && GetGain(m, r.value).value >= 0.0
  {
    DesignPolesInside(m, q);
    DesignGainsInside(m, q);
  }

  /** The gain half of DesignStable: once the z-plane poles lie inside the unit circle,
      none of 1, -1 and the centre point is a pole, so all three gains and the
      pass-band gain are defined. */
  lemma DesignGainsInside(m: Elementary, q: Request)
    requires Lawful(m) && 1 <= q.order <= MaxOrder
    requires q.band in {LowPass, HighPass}
    requires var r := Design(m, q);
      && r.Success?
      && (forall i :: 0 <= i < |r.value.zplane.poles| ==> NormSq(r.value.zplane.poles[i]) < 1.0)
    ensures var r := Design(m, q);
      && r.value.dcGain.Some? && r.value.fcGain.Some? && r.value.hfGain.Some?
      && GetGain(m, r.value).Some? && GetGain(m, r.value).value >= 0.0
  {
    RealGainsDefined(m, q);
    CentreGainDefined(m, q);
    PassBandGain(m, Design(m, q).value);
  }

  /** With the z-plane poles inside the unit circle, the gains at z = 1 and z = -1 are
      defined. */
  lemma RealGainsDefined(m: Elementary, q: Request)
    requires WellDefined(m) && 1 <= q.order <= MaxOrder
    requires Design(m, q).Success?
    requires forall i :: 0 <= i < |Design(m, q).value.zplane.poles| ==> NormSq(Design(m, q).value.zplane.poles[i]) < 1.0
    ensures Design(m, q).value.dcGain.Some? && Design(m, q).value.hfGain.Some?
  {
    GainsDefined(m, q);
    RealsNotInside(Design(m, q).value.zplane.poles);
  }

  /** With the z-plane poles inside the unit circle, the gain at the centre frequency,
      a point on the circle, is defined. */
  lemma CentreGainDefined(m: Elementary, q: Request)
    requires WellDefined(m) && UnitCircleLaw(m) && 1 <= q.order <= MaxOrder
    requires Design(m, q).Success?
    requires forall i :: 0 <= i < |Design(m, q).value.zplane.poles| ==> NormSq(Design(m, q).value.zplane.poles[i]) < 1.0
    ensures Design(m, q).value.fcGain.Some?
  {
    GainsDefined(m, q);
    OnCircleNotInside(Design(m, q).value.zplane.poles, Cis(m, CentreAngle(m, q.alpha1, q.alpha2.GetOr(q.alpha1))));
  }

  /** A low-pass or high-pass filter whose DC and Nyquist gains are defined has a
      non-negative pass-band gain. */
  lemma PassBandGain(m: Elementary, f: Filter)
    requires SqrtLaw(m) && f.band in {LowPass, HighPass}
    requires f.dcGain.Some? && f.hfGain.Some?
    ensures GetGain(m, f).Some? && GetGain(m, f).value >= 0.0
  {
    var h := if f.band == LowPass then f.dcGain.value else f.hfGain.value;
    NormSqPositive(h);
  }

  /** Dividing the response at the band's reference point (DC for a low-pass, Nyquist
      for a high-pass, the centre for a band-pass) by a positive pass-band gain leaves
      modulus 1: the gain is exactly what normalises the pass band. */
  lemma GainNormalises(m: Elementary, f: Filter)
    requires SqrtLaw(m) && f.band != BandStop
    requires GetGain(m, f).Some? && GetGain(m, f).value > 0.0
    ensures f.band == LowPass ==> NormSq(Scale(1.0 / GetGain(m, f).value, f.dcGain.value)) == 1.0
    ensures f.band == HighPass ==> NormSq(Scale(1.0 / GetGain(m, f).value, f.hfGain.value)) == 1.0
    ensures f.band == BandPass ==> NormSq(Scale(1.0 / GetGain(m, f).value, f.fcGain.value)) == 1.0
  {
    var h := match f.band
      case LowPass => f.dcGain.value
      case HighPass => f.hfGain.value
      case BandPass => f.fcGain.value;
    NormSqPositive(h);
    ScaleToUnit(h, GetGain(m, f).value);
  }

  /** The z-plane half of DesignStable: the design succeeds and its poles lie inside
      the unit circle. */
  lemma DesignPolesInside(m: Elementary, q: Request)
    requires Lawful(m) && 1 <= q.order <= MaxOrder
    requires q.band in {LowPass, HighPass} && 0.0 < q.alpha1 < 0.5
    requires q.family == Chebyshev ==> q.ripple < 0.0
    ensures var r := Design(m, q);
      && r.Success?
      && (forall i :: 0 <= i < |r.value.zplane.poles| ==> NormSq(r.value.zplane.poles[i]) < 1.0)
  {
    SPlaneExact(m, q.family, q.order, q.ripple);
    var proto := SPlane(m, q.family, q.order, q.ripple).value;
    var warped1 := Prewarp(m, q.alpha1, q.prewarp, q.useBlt);
    var warped2 := Prewarp(m, q.alpha2.GetOr(q.alpha1), q.prewarp, q.useBlt);
    PrewarpPositive(m, q.alpha1, q.prewarp, q.useBlt);
    NormalizeStable(m, q.band, proto, warped1, warped2);
    var s := Normalize(m, q.band, proto, warped1, warped2).value;
    if q.useBlt {
      assert Real(2.0) !in s.zeros by {
        assert s.zeros == [] || s.zeros == Zeros(|proto|);
      }
      BltStable(s);
    } else {
      MztStable(m, s);
    }
    var z := if q.useBlt then Blt(s).value else Mzt(m, s);
    DesignAssembles(m, q, s, z, warped1, warped2);
  }

  /** A successful design is the composition of its stages: the prototype, then the
      band transformation at the warped corners, then the bilinear or matched
      z-transform, and its coefficients are those of the z-plane roots. */
  lemma DesignStages(m: Elementary, q: Request)
    requires WellDefined(m) && 1 <= q.order <= MaxOrder
    ensures var r := Design(m, q);
      r.Success? ==>
        && SPlane(m, q.family, q.order, q.ripple).Success?
        && Normalize(m, q.band, SPlane(m, q.family, q.order, q.ripple).value,
             r.value.warped1, r.value.warped2) == Success(r.value.splane)
        && (if q.useBlt then Blt(r.value.splane) else Success(Mzt(m, r.value.splane))) == Success(r.value.zplane)
        && (r.value.xcoeffs, r.value.ycoeffs) == Coefficients(r.value.zplane)
  {
  }

  /** A design whose stages all succeed is assembled from their results. */
  lemma DesignAssembles(m: Elementary, q: Request, s: PoleZero, z: PoleZero, warped1: real, warped2: real)
    requires WellDefined(m) && 1 <= q.order <= MaxOrder
    requires SPlane(m, q.family, q.order, q.ripple).Success?
    requires warped1 == Prewarp(m, q.alpha1, q.prewarp, q.useBlt)
    requires warped2 == Prewarp(m, q.alpha2.GetOr(q.alpha1), q.prewarp, q.useBlt)
    requires Normalize(m, q.band, SPlane(m, q.family, q.order, q.ripple).value, warped1, warped2) == Success(s)
    requires (if q.useBlt then Blt(s) else Success(Mzt(m, s))) == Success(z)
    ensures Design(m, q).Success? && Design(m, q).value.splane == s && Design(m, q).value.zplane == z
  {
  }

  /** Each recorded gain is defined exactly when its point is not a z-plane pole. */
  lemma GainsDefined(m: Elementary, q: Request)
    requires WellDefined(m) && 1 <= q.order <= MaxOrder
    ensures var r := Design(m, q);
      r.Success? ==>
        var poles := r.value.zplane.poles;
        && (r.value.dcGain.Some? <==> Real(1.0) !in poles)
        && (r.value.fcGain.Some? <==> Cis(m, CentreAngle(m, q.alpha1, q.alpha2.GetOr(q.alpha1))) !in poles)
        && (r.value.hfGain.Some? <==> Real(-1.0) !in poles)
  {
    var r := Design(m, q);
    if r.Success? {
      DesignGainPoints(m, q);
      var z := r.value.zplane;
      TransferFunction(z.zeros, z.poles, Real(1.0));
      TransferFunction(z.zeros, z.poles, Real(-1.0));
      TransferFunction(z.zeros, z.poles, Cis(m, CentreAngle(m, q.alpha1, q.alpha2.GetOr(q.alpha1))));
    }
  }

  /** The three gains are the transfer function of the z-plane poles and zeros at
      z = 1, at the centre and at z = -1. */
  lemma DesignGainPoints(m: Elementary, q: Request)
    requires WellDefined(m) && 1 <= q.order <= MaxOrder
    ensures var r := Design(m, q);
      r.Success? ==>
        var z := r.value.zplane;
        var top, bot := Expand(z.zeros), Expand(z.poles);
        && r.value.dcGain == Evaluate(top, bot, Real(1.0))
        && r.value.fcGain == Evaluate(top, bot, Cis(m, CentreAngle(m, q.alpha1, q.alpha2.GetOr(q.alpha1))))
        && r.value.hfGain == Evaluate(top, bot, Real(-1.0))
  {
    var r := Design(m, q);
    if r.Success? {
      var proto := SPlane(m, q.family, q.order, q.ripple);
      var raw2 := q.alpha2.GetOr(q.alpha1);
      var warped1 := Prewarp(m, q.alpha1, q.prewarp, q.useBlt);
      var warped2 := Prewarp(m, raw2, q.prewarp, q.useBlt);
      var s := Normalize(m, q.band, proto.value, warped1, warped2);
      var z := if q.useBlt then Blt(s.value) else Success(Mzt(m, s.value));
      var top := Expand(z.value.zeros);
      var bot := Expand(z.value.poles);
      var coeffs := Coefficients(z.value);
      assert r == Success(Filter(
        q.band, s.value, z.value, warped1, warped2, coeffs.0, coeffs.1,
        Evaluate(top, bot, Real(1.0)),
        Evaluate(top, bot, Cis(m, CentreAngle(m, q.alpha1, raw2))),
        Evaluate(top, bot, Real(-1.0))));
    }
  }

  lemma RealsNotInside(poles: seq<Complex>)
    requires forall i :: 0 <= i < |poles| ==> NormSq(poles[i]) < 1.0
    ensures Real(1.0) !in poles && Real(-1.0) !in poles
  {
    MinusOneNotInside(poles);
    UnitReals();
  }

  lemma MinusOneNotInside(poles: seq<Complex>)
    requires forall i :: 0 <= i < |poles| ==> NormSq(poles[i]) < 1.0
    ensures Real(-1.0) !in poles
  {
    UnitReals();
  }

  lemma OnCircleNotInside(poles: seq<Complex>, p: Complex)
    requires NormSq(p) == 1.0
    requires forall i :: 0 <= i < |poles| ==> NormSq(poles[i]) < 1.0
    ensures p !in poles
  {
  }

  /** The three recorded gains are the values of the transfer function whose zeros and
      poles are the z-plane ones, at z = 1, at exp(i theta) for the centre angle and at
      z = -1; each is defined exactly when that point is not a z-plane pole. */
  lemma DesignGains(m: Elementary, q: Request)
    requires WellDefined(m) && 1 <= q.order <= MaxOrder
    ensures var r := Design(m, q);
      r.Success? ==>
        var z := r.value.zplane;
        var centre := Cis(m, CentreAngle(m, q.alpha1, q.alpha2.GetOr(q.alpha1)));
        && (r.value.dcGain.Some? <==> Real(1.0) !in z.poles)
        && (r.value.fcGain.Some? <==> centre !in z.poles)
        && (r.value.hfGain.Some? <==> Real(-1.0) !in z.poles)
        && (r.value.dcGain.Some? ==>
              Mul(r.value.dcGain.value, Product(z.poles, Real(1.0))) == Product(z.zeros, Real(1.0)))
        && (r.value.fcGain.Some? ==>
              Mul(r.value.fcGain.value, Product(z.poles, centre)) == Product(z.zeros, centre))
        && (r.value.hfGain.Some? ==>
              Mul(r.value.hfGain.value, Product(z.poles, Real(-1.0))) == Product(z.zeros, Real(-1.0)))
  {
    var r := Design(m, q);
    if r.Success? {
      DesignGainPoints(m, q);
      var z := r.value.zplane;
      var centre := Cis(m, CentreAngle(m, q.alpha1, q.alpha2.GetOr(q.alpha1)));
      TransferFunction(z.zeros, z.poles, Real(1.0));
      TransferFunction(z.zeros, z.poles, centre);
      TransferFunction(z.zeros, z.poles, Real(-1.0));
    }
  }

  /** The band-stop gain is the geometric mean of the DC and Nyquist gains:
      its square is |H(1)| |H(-1)|. */
  lemma BandStopGainGeometricMean(m: Elementary, f: Filter)
    requires SqrtLaw(m) && CsqrtLaw(m)
    requires f.band == BandStop && f.dcGain.Some? && f.hfGain.Some?
    ensures Sq(GetGain(m, f).value) == Abs(m, f.dcGain.value) * Abs(m, f.hfGain.value)
  {
    var dc := f.dcGain.value;
    var hf := f.hfGain.value;
    var c := Csqrt(m, Mul(dc, hf));
    assert Mul(c, c) == Mul(dc, hf);
    NormSqMul(c, c);
    NormSqMul(dc, hf);
    NormSqPositive(c);
    NormSqPositive(dc);
    NormSqPositive(hf);
    RootOfProduct(NormSq(c), NormSq(dc), NormSq(hf), Abs(m, dc), Abs(m, hf));
  }

  /** If n^2 = x y with n >= 0, then n = sqrt(x) sqrt(y). */
  lemma RootOfProduct(n: real, x: real, y: real, a: real, b: real)
    requires n >= 0.0 && a >= 0.0 && b >= 0.0
    requires n * n == x * y && Sq(a) == x && Sq(b) == y
    ensures n == a * b
  {
    assert Sq(a * b) == Sq(a) * Sq(b);
    assert Sq(n) == n * n;
    if a > 0.0 && b > 0.0 {
      MulPositive(a, b);
    } else {
      assert a * b == 0.0;
    }
    SqInjective(n, a * b);
  }
}
