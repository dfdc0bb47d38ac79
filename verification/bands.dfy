/** Frequency prewarping and the analogue frequency transformations that turn the
    low-pass prototype into a low-pass, high-pass, band-pass or band-stop filter. */
module Bands {
  import opened ComplexNumbers
  import opened Outcomes
  import opened Transcendental

  datatype Band = LowPass | HighPass | BandPass | BandStop

  /** Poles and zeros of a transfer function, in the s-plane or the z-plane. */
  datatype PoleZero = PoleZero(poles: seq<Complex>, zeros: seq<Complex>)

  /** The corner frequency (a fraction of the sample rate) handed to the analogue
      design: tan(pi alpha) / pi when prewarping for the bilinear transform, else alpha. */
  function Prewarp(m: Elementary, alpha: real, prewarp: bool, useBlt: bool): (w: real)
    requires PiPositive(m)
    ensures !(prewarp && useBlt) ==> w == alpha
  {
    if !prewarp || !useBlt then alpha else Tan(m, m.pi * alpha) / m.pi
  }

  /** A corner frequency strictly between 0 and the Nyquist frequency stays positive. */
  lemma PrewarpPositive(m: Elementary, alpha: real, prewarp: bool, useBlt: bool)
    requires PiPositive(m) && TanLaw(m)
    requires 0.0 < alpha < 0.5
    ensures Prewarp(m, alpha, prewarp, useBlt) > 0.0
  {
    if prewarp && useBlt {
      SignOfProduct(alpha, m.pi);
      SignOfProduct(0.5 - alpha, m.pi);
      assert 0.0 < m.pi * alpha < m.pi / 2.0;
      DivCompare(Tan(m, m.pi * alpha), m.pi, 0.0);
    }
  }

  /** The angular frequency 2 pi alpha. */
  function Omega(m: Elementary, alpha: real): real {
    2.0 * m.pi * alpha
  }

  /** k p for every pole p: each result is the product of the real k and its pole. */
  function Scaled(poles: seq<Complex>, k: real): (r: seq<Complex>)
    ensures |r| == |poles|
    ensures forall i :: 0 <= i < |poles| ==> r[i] == Scale(k, poles[i])
  {
    seq(|poles|, i requires 0 <= i < |poles| => Scale(k, poles[i]))
  }

  /** k / p for every pole p. */
  function Inverted(poles: seq<Complex>, k: real): (r: seq<Complex>)
    requires Zero !in poles
    ensures |r| == |poles|
    ensures forall i :: 0 <= i < |poles| ==> Mul(r[i], poles[i]) == Real(k)
  {
    seq(|poles|, i requires 0 <= i < |poles| => Div(Real(k), poles[i]))
  }

  /** n zeros at the origin. */
  function Zeros(n: nat): (r: seq<Complex>)
    ensures |r| == n
    ensures forall i :: 0 <= i < n ==> r[i] == Zero
  {
    seq(n, i => Zero)
  }

  /** The zeros of a band-stop filter: +i w0 and -i w0 for every prototype pole. */
  function NotchZeros(n: nat, w0: real): (r: seq<Complex>)
    ensures |r| == 2 * n
  {
    seq(2 * n, i => if i % 2 == 0 then Complex(0.0, w0) else Complex(0.0, -w0))
  }

  /** The two poles hba (1 + sqrt(1 - (w0/hba)^2)) and hba (1 - sqrt(1 - (w0/hba)^2)). */
  function SplitPole(m: Elementary, hba: Complex, w0: real): (pair: seq<Complex>)
    requires hba != Zero
    ensures |pair| == 2
  {
    var q := Div(Real(w0), hba);
    var temp := Csqrt(m, Sub(One, Mul(q, q)));
    [Mul(hba, Add(One, temp)), Mul(hba, Sub(One, temp))]
  }

  /** The pairs of every `hba`, in order. */
  function SplitAll(m: Elementary, hbas: seq<Complex>, w0: real): (r: seq<Complex>)
    requires Zero !in hbas
    ensures |r| == 2 * |hbas|
    ensures forall i :: 0 <= i < |hbas| ==>
      r[2 * i] == SplitPole(m, hbas[i], w0)[0] && r[2 * i + 1] == SplitPole(m, hbas[i], w0)[1]
  {
    seq(2 * |hbas|, i requires 0 <= i < 2 * |hbas| => SplitPole(m, hbas[i / 2], w0)[i % 2])
  }

  /** The number of poles each band turns the n prototype poles into. */
  function PoleCount(band: Band, n: nat): nat {
    match band
    case LowPass => n
    case HighPass => n
    case BandPass => 2 * n
    case BandStop => 2 * n
  }

  /** The number of s-plane zeros each band gives n prototype poles. */
  function ZeroCount(band: Band, n: nat): nat {
    match band
    case LowPass => 0
    case HighPass => n
    case BandPass => n
    case BandStop => 2 * n
  }

  /** Low-pass: the prototype scaled to the corner w1; no zeros. */
  function LowPassTransform(proto: seq<Complex>, w1: real): (r: PoleZero)
    ensures |r.poles| == |proto| && r.zeros == []
    ensures forall i :: 0 <= i < |proto| ==> r.poles[i] == Mul(Real(w1), proto[i])
  {
    PoleZero(Scaled(proto, w1), [])
  }

  /** High-pass: every prototype pole p becomes w1 / p, with a zero at the origin for
      each; a pole at the origin is a division by zero. */
  function HighPassTransform(proto: seq<Complex>, w1: real): (r: Result<PoleZero>)
    ensures r.Success? <==> Zero !in proto
    ensures r.Failure? ==> r.error == DivisionByZero
    ensures r.Success? ==> |r.value.poles| == |proto| && r.value.zeros == Zeros(|proto|)
  {
    if Zero in proto then Failure(DivisionByZero)
    else Success(PoleZero(Inverted(proto, w1), Zeros(|proto|)))
  }

  /** Band-pass: every prototype pole p gives the pair split from hba = p bw / 2, with
      one zero at the origin per prototype pole. */
  function BandPassTransform(m: Elementary, proto: seq<Complex>, w1: real, w2: real): (r: Result<PoleZero>)
    ensures r.Success? <==> Zero !in Scaled(proto, 0.5 * (w2 - w1))
    ensures r.Failure? ==> r.error == DivisionByZero
    ensures r.Success? ==> |r.value.poles| == 2 * |proto| && r.value.zeros == Zeros(|proto|)
  {
    var hbas := Scaled(proto, 0.5 * (w2 - w1));
    if Zero in hbas then Failure(DivisionByZero)
    else Success(PoleZero(SplitAll(m, hbas, Sqrt(m, w1 * w2)), Zeros(|proto|)))
  }

  /** Band-stop: every prototype pole p gives the pair split from hba = (bw / 2) / p,
      and the zero pair +-i w0. */
  function BandStopTransform(m: Elementary, proto: seq<Complex>, w1: real, w2: real): (r: Result<PoleZero>)
    ensures r.Success? <==> Zero !in proto && Zero !in Inverted(proto, 0.5 * (w2 - w1))
    ensures r.Failure? ==> r.error == DivisionByZero
    ensures r.Success? ==> |r.value.poles| == 2 * |proto| && |r.value.zeros| == 2 * |proto|
  {
    if Zero in proto then Failure(DivisionByZero)
    else
      var hbas := Inverted(proto, 0.5 * (w2 - w1));
      if Zero in hbas then Failure(DivisionByZero)
      else
        var w0 := Sqrt(m, w1 * w2);
        Success(PoleZero(SplitAll(m, hbas, w0), NotchZeros(|proto|, w0)))
  }

  /** The transformation of the prototype poles for the requested band, with the
      corner frequencies `warped1` and `warped2` (fractions of the sample rate). A
      division by zero is a failure. */
  function Normalize(m: Elementary, band: Band, proto: seq<Complex>, warped1: real, warped2: real)
    : (r: Result<PoleZero>)
    ensures r.Success? ==> |r.value.poles| == PoleCount(band, |proto|)
    ensures r.Success? ==> |r.value.zeros| == ZeroCount(band, |proto|)
    ensures r.Failure? ==> r.error == DivisionByZero && band != LowPass
    ensures band == LowPass ==> r == Success(LowPassTransform(proto, Omega(m, warped1)))
    ensures band == HighPass ==> r == HighPassTransform(proto, Omega(m, warped1))
    ensures band == BandPass ==> r == BandPassTransform(m, proto, Omega(m, warped1), Omega(m, warped2))
    ensures band == BandStop ==> r == BandStopTransform(m, proto, Omega(m, warped1), Omega(m, warped2))
  {
    var w1 := Omega(m, warped1);
    var w2 := Omega(m, warped2);
    match band
    case LowPass => Success(LowPassTransform(proto, w1))
    case HighPass => HighPassTransform(proto, w1)
    case BandPass => BandPassTransform(m, proto, w1, w2)
    case BandStop => BandStopTransform(m, proto, w1, w2)
  }

  lemma ScaleZeroIff(k: real, p: Complex)
    ensures Scale(k, p) == Zero <==> k == 0.0 || p == Zero
  {
    if k != 0.0 && p != Zero {
      NormSqPositive(p);
      if p.re != 0.0 {
        SqFacts(k);
        SqFacts(p.re);
        MulPositive(Sq(k), Sq(p.re));
        assert Sq(k * p.re) == Sq(k) * Sq(p.re);
        SqFacts(k * p.re);
      } else {
        SqFacts(k);
        SqFacts(p.im);
        MulPositive(Sq(k), Sq(p.im));
        assert Sq(k * p.im) == Sq(k) * Sq(p.im);
        SqFacts(k * p.im);
      }
    }
  }

  /** k / p is zero exactly when k is. */
  lemma InvertZeroIff(k: real, p: Complex)
    requires p != Zero
    ensures Div(Real(k), p) == Zero <==> k == 0.0
  {
    var q := Div(Real(k), p);
    if q == Zero {
      MulZero(p);
    }
  }

  /** The band edges give a band width of zero exactly when they coincide. */
  lemma HalfWidthZeroIff(m: Elementary, warped1: real, warped2: real)
    requires PiPositive(m)
    ensures 0.5 * (Omega(m, warped2) - Omega(m, warped1)) == 0.0 <==> warped1 == warped2
  {
    assert 0.5 * (Omega(m, warped2) - Omega(m, warped1)) == (warped2 - warped1) * m.pi;
    SignOfProduct(warped2 - warped1, m.pi);
  }

  /** The transformation fails only on a prototype pole at the origin (high-pass and
      band-stop) or on coinciding band edges (band-pass and band-stop). */
  lemma NormalizeSucceeds(m: Elementary, band: Band, proto: seq<Complex>, warped1: real, warped2: real)
    requires PiPositive(m)
    ensures Normalize(m, band, proto, warped1, warped2).Success? <==>
      && (band in {HighPass, BandStop} ==> Zero !in proto)
      && (band in {BandPass, BandStop} ==> |proto| == 0 || (Zero !in proto && warped1 != warped2))
  {
    var k := 0.5 * (Omega(m, warped2) - Omega(m, warped1));
    match band
    case LowPass =>
    case HighPass =>
    case BandPass =>
      HalfWidthZeroIff(m, warped1, warped2);
      ScaledZeroIff(proto, k);
    case BandStop =>
      HalfWidthZeroIff(m, warped1, warped2);
      if Zero !in proto {
        InvertedZeroIff(proto, k);
      }
  }

  /** Scaling puts a pole at the origin exactly when there is a pole and the factor is
      zero, or a pole was already there. */
  lemma ScaledZeroIff(proto: seq<Complex>, k: real)
    ensures Zero in Scaled(proto, k) <==> |proto| > 0 && (k == 0.0 || Zero in proto)
  {
    var hbas := Scaled(proto, k);
    if Zero in hbas {
      var i :| 0 <= i < |hbas| && hbas[i] == Zero;
      ScaleZeroIff(k, proto[i]);
    } else if |proto| > 0 {
      assert hbas[0] in hbas;
      ScaleZeroIff(k, proto[0]);
      forall i | 0 <= i < |proto|
        ensures proto[i] != Zero
      {
        assert hbas[i] in hbas;
        ScaleZeroIff(k, proto[i]);
      }
    }
  }

  /** Inverting poles away from the origin puts one at the origin exactly when there
      is a pole and the numerator is zero. */
  lemma InvertedZeroIff(proto: seq<Complex>, k: real)
    requires Zero !in proto
    ensures Zero in Inverted(proto, k) <==> |proto| > 0 && k == 0.0
  {
    var hbas := Inverted(proto, k);
    if Zero in hbas {
      var i :| 0 <= i < |hbas| && hbas[i] == Zero;
      InvertZeroIff(k, proto[i]);
    } else if |proto| > 0 {
      assert hbas[0] in hbas;
      InvertZeroIff(k, proto[0]);
    }
  }

  /** The two poles split from `hba` sum to 2 hba and multiply to w0^2: they are the
      roots of s^2 - 2 hba s + w0^2. */
  lemma SplitPoleRoots(m: Elementary, hba: Complex, w0: real)
    requires CsqrtLaw(m) && hba != Zero
    ensures var pair := SplitPole(m, hba, w0);
      Add(pair[0], pair[1]) == Scale(2.0, hba) && Mul(pair[0], pair[1]) == Real(Sq(w0))
  {
    var q := Div(Real(w0), hba);
    var t := Csqrt(m, Sub(One, Mul(q, q)));
    SplitSum(hba, t);
    SplitProduct(hba, q, t, w0);
  }

  /** hba (1 + t) + hba (1 - t) = 2 hba. */
  lemma SplitSum(hba: Complex, t: Complex)
    ensures Add(Mul(hba, Add(One, t)), Mul(hba, Sub(One, t))) == Scale(2.0, hba)
  {
    MulAddDistrib(hba, One, t);
    assert Mul(hba, Sub(One, t)) == Sub(Mul(hba, One), Mul(hba, t));
  }

  /** When t^2 = 1 - q^2 and q hba = w0: hba (1 + t) times hba (1 - t) is w0^2. */
  lemma SplitProduct(hba: Complex, q: Complex, t: Complex, w0: real)
    requires Mul(t, t) == Sub(One, Mul(q, q)) && Mul(q, hba) == Real(w0)
    ensures Mul(Mul(hba, Add(One, t)), Mul(hba, Sub(One, t))) == Real(Sq(w0))
  {
    ProductOfSplits(hba, t);
    SquareOfScaled(hba, q, w0);
  }

  /** hba (1 + t) times hba (1 - t) is hba^2 (1 - t^2). */
  lemma ProductOfSplits(hba: Complex, t: Complex)
    ensures Mul(Mul(hba, Add(One, t)), Mul(hba, Sub(One, t))) == Mul(Mul(hba, hba), Sub(One, Mul(t, t)))
  {
    MulSwapMiddle(hba, Add(One, t), hba, Sub(One, t));
    OneMinusSquare(t);
  }

  /** When q hba = w0: hba^2 q^2 is w0^2. */
  lemma SquareOfScaled(hba: Complex, q: Complex, w0: real)
    requires Mul(q, hba) == Real(w0)
    ensures Mul(Mul(hba, hba), Mul(q, q)) == Real(Sq(w0))
  {
    MulSwapMiddle(hba, hba, q, q);
    MulComm(hba, q);
    RealSquare(w0);
  }

  lemma RealSquare(w0: real)
    ensures Mul(Real(w0), Real(w0)) == Real(Sq(w0))
  {
  }

  /** (1 + t)(1 - t) = 1 - t^2. */
  lemma OneMinusSquare(t: Complex)
    ensures Mul(Add(One, t), Sub(One, t)) == Sub(One, Mul(t, t))
  {
    var a, b := t.re, t.im;
    assert (1.0 + a) * (1.0 - a) == 1.0 - a * a;
    assert b * (0.0 - b) == 0.0 - b * b;
    assert (1.0 + a) * (0.0 - b) + b * (1.0 - a) == 0.0 - (a * b + b * a);
  }

  lemma SplitAllPairAt(m: Elementary, hbas: seq<Complex>, w0: real, i: nat)
    requires CsqrtLaw(m) && Zero !in hbas && i < |hbas|
    ensures var poles := SplitAll(m, hbas, w0);
      && Add(poles[2 * i], poles[2 * i + 1]) == Scale(2.0, hbas[i])
      && Mul(poles[2 * i], poles[2 * i + 1]) == Real(Sq(w0))
  {
    assert hbas[i] in hbas;
    SplitPoleRoots(m, hbas[i], w0);
  }

  /** Each band-pass pole pair sums to bw p and multiplies to w0^2, for the prototype
      pole p it came from: the pair solves p = (s^2 + w0^2) / (bw s), the low-pass to
      band-pass substitution. */
  lemma BandPassPairs(m: Elementary, proto: seq<Complex>, w1: real, w2: real)
    requires CsqrtLaw(m)
    ensures var r := BandPassTransform(m, proto, w1, w2);
      r.Success? ==> forall i :: 0 <= i < |proto| ==>
        && Add(r.value.poles[2 * i], r.value.poles[2 * i + 1]) == Scale(w2 - w1, proto[i])
        && Mul(r.value.poles[2 * i], r.value.poles[2 * i + 1]) == Real(Sq(Sqrt(m, w1 * w2)))
  {
    var r := BandPassTransform(m, proto, w1, w2);
    var w0 := Sqrt(m, w1 * w2);
    var hbas := Scaled(proto, 0.5 * (w2 - w1));
    if r.Success? {
      var poles := SplitAll(m, hbas, w0);
      assert r.value.poles == poles;
      forall i | 0 <= i < |proto|
        ensures Add(poles[2 * i], poles[2 * i + 1]) == Scale(w2 - w1, proto[i])
        ensures Mul(poles[2 * i], poles[2 * i + 1]) == Real(Sq(w0))
      {
        BandPassPairAt(m, proto, w1, w2, i);
      }
    }
  }

  lemma BandPassPairAt(m: Elementary, proto: seq<Complex>, w1: real, w2: real, i: nat)
    requires CsqrtLaw(m) && Zero !in Scaled(proto, 0.5 * (w2 - w1)) && i < |proto|
    ensures var poles := SplitAll(m, Scaled(proto, 0.5 * (w2 - w1)), Sqrt(m, w1 * w2));
      && Add(poles[2 * i], poles[2 * i + 1]) == Scale(w2 - w1, proto[i])
      && Mul(poles[2 * i], poles[2 * i + 1]) == Real(Sq(Sqrt(m, w1 * w2)))
  {
    var hbas := Scaled(proto, 0.5 * (w2 - w1));
    SplitAllPairAt(m, hbas, Sqrt(m, w1 * w2), i);
    ScaleHalf(w2 - w1, proto[i]);
  }

  lemma ScaleHalf(bw: real, p: Complex)
    ensures Scale(2.0, Scale(0.5 * bw, p)) == Scale(bw, p)
  {
  }

  /** Each band-stop pole pair multiplies to w0^2 and its sum times the prototype pole
      p is bw: the pair solves p = bw s / (s^2 + w0^2), the low-pass to band-stop
      substitution. The zeros come in pairs +-i w0, the roots of s^2 + w0^2. */
  lemma BandStopPairs(m: Elementary, proto: seq<Complex>, w1: real, w2: real)
    requires CsqrtLaw(m)
    ensures var r := BandStopTransform(m, proto, w1, w2);
      r.Success? ==> forall i :: 0 <= i < |proto| ==>
        && Mul(Add(r.value.poles[2 * i], r.value.poles[2 * i + 1]), proto[i]) == Real(w2 - w1)
        && Mul(r.value.poles[2 * i], r.value.poles[2 * i + 1]) == Real(Sq(Sqrt(m, w1 * w2)))
        && Add(r.value.zeros[2 * i], r.value.zeros[2 * i + 1]) == Zero
        && Mul(r.value.zeros[2 * i], r.value.zeros[2 * i + 1]) == Real(Sq(Sqrt(m, w1 * w2)))
  {
    var r := BandStopTransform(m, proto, w1, w2);
    var w0 := Sqrt(m, w1 * w2);
    if r.Success? {
      var hbas := Inverted(proto, 0.5 * (w2 - w1));
      var poles := SplitAll(m, hbas, w0);
      var zeros := NotchZeros(|proto|, w0);
      assert r.value.poles == poles && r.value.zeros == zeros;
      forall i | 0 <= i < |proto|
        ensures Mul(Add(poles[2 * i], poles[2 * i + 1]), proto[i]) == Real(w2 - w1)
        ensures Mul(poles[2 * i], poles[2 * i + 1]) == Real(Sq(w0))
        ensures Add(zeros[2 * i], zeros[2 * i + 1]) == Zero
        ensures Mul(zeros[2 * i], zeros[2 * i + 1]) == Real(Sq(w0))
      {
        BandStopPairAt(m, proto, w1, w2, i);
      }
    }
  }

  lemma BandStopPairAt(m: Elementary, proto: seq<Complex>, w1: real, w2: real, i: nat)
    requires CsqrtLaw(m) && Zero !in proto && Zero !in Inverted(proto, 0.5 * (w2 - w1)) && i < |proto|
    ensures var w0 := Sqrt(m, w1 * w2);
      var poles := SplitAll(m, Inverted(proto, 0.5 * (w2 - w1)), w0);
      var zeros := NotchZeros(|proto|, w0);
      && Mul(Add(poles[2 * i], poles[2 * i + 1]), proto[i]) == Real(w2 - w1)
      && Mul(poles[2 * i], poles[2 * i + 1]) == Real(Sq(w0))
      && Add(zeros[2 * i], zeros[2 * i + 1]) == Zero
      && Mul(zeros[2 * i], zeros[2 * i + 1]) == Real(Sq(w0))
  {
    var w0 := Sqrt(m, w1 * w2);
    var hbas := Inverted(proto, 0.5 * (w2 - w1));
    SplitAllPairAt(m, hbas, w0, i);
    BandStopSum(hbas[i], proto[i], w2 - w1);
    NotchPair(|proto|, w0, i);
  }

  lemma BandStopSum(h: Complex, p: Complex, bw: real)
    requires Mul(h, p) == Real(0.5 * bw)
    ensures Mul(Scale(2.0, h), p) == Real(bw)
  {
    calc {
      Mul(Scale(2.0, h), p);
      Scale(2.0, Mul(h, p));
      Real(bw);
    }
  }

  lemma NotchPair(n: nat, w0: real, i: nat)
    requires i < n
    ensures var zeros := NotchZeros(n, w0);
      Add(zeros[2 * i], zeros[2 * i + 1]) == Zero && Mul(zeros[2 * i], zeros[2 * i + 1]) == Real(Sq(w0))
  {
    var zeros := NotchZeros(n, w0);
    assert zeros[2 * i] == Complex(0.0, w0);
    assert zeros[2 * i + 1] == Complex(0.0, -w0);
  }

  /** A high-pass pole times its prototype pole is w1: the poles are inverted. */
  lemma HighPassInverts(m: Elementary, proto: seq<Complex>, warped1: real, warped2: real)
    ensures var r := Normalize(m, HighPass, proto, warped1, warped2);
      r.Success? ==> forall i :: 0 <= i < |proto| ==> Mul(r.value.poles[i], proto[i]) == Real(Omega(m, warped1))
  {
  }

  /** With a positive corner frequency, low-pass and high-pass transformations keep
      every pole of a stable prototype in the left half-plane. */
  lemma NormalizeStable(m: Elementary, band: Band, proto: seq<Complex>, warped1: real, warped2: real)
    requires PiPositive(m) && band in {LowPass, HighPass} && warped1 > 0.0
    requires forall i :: 0 <= i < |proto| ==> proto[i].re < 0.0
    ensures var r := Normalize(m, band, proto, warped1, warped2);
      r.Success? && forall i :: 0 <= i < |r.value.poles| ==> r.value.poles[i].re < 0.0
  {
    var w1 := Omega(m, warped1);
    SignOfProduct(warped1, m.pi);
    assert w1 == 2.0 * (warped1 * m.pi);
    if band == HighPass {
      assert Zero !in proto;
      forall i | 0 <= i < |proto|
        ensures Div(Real(w1), proto[i]).re < 0.0
      {
        var p := proto[i];
        NormSqPositive(p);
        SignOfProduct(p.re, w1);
        DivCompare(w1 * p.re + 0.0 * p.im, NormSq(p), 0.0);
      }
    } else {
      forall i | 0 <= i < |proto|
        ensures Scale(w1, proto[i]).re < 0.0
      {
        SignOfProduct(proto[i].re, w1);
      }
    }
  }
}
