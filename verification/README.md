# mkfilter in Dafny

A model of the IIR filter designer `MkFilter` (mkfilter.py) and of the recurrence
that runs a designed filter over a signal (`apply_filter` in example_usage.py).

The designer turns a request into recurrence coefficients in five stages. The request
names a family (Butterworth, Bessel, Chebyshev), a band (low-pass, high-pass,
band-pass, band-stop), an order from 1 to 10, corner frequencies, a Chebyshev ripple,
and the choice of bilinear or matched z-transform. The stages are:

1. the analogue low-pass prototype poles;
2. pre-warping of the corner frequencies;
3. the frequency transformation to the requested band;
4. the step to the z-plane;
5. the expansion of the z-plane zeros and poles into polynomials. This stage yields
   the x and y coefficients and the gains at DC, at the centre frequency and at the
   Nyquist frequency.

Arithmetic is exact. A complex number is a pair of `real`s (`ComplexNumbers`). The
transcendental functions (exp, sqrt, complex sqrt, tan, sinh, cosh, arcsinh, 10^x and
pi) are not computed. Every operation takes them as a parameter `m: Elementary`, and
the facts a proof uses about them are predicates on `m` (`Transcendental.Lawful` and
finer ones). Examples: sqrt(x)^2 = x for x >= 0, |exp(i t)| = 1, |exp(s)| < 1 when
Re s < 0, and tan x > 0 on (0, pi/2). Where numpy would divide by zero and carry on
with inf or nan, the model fails explicitly. It returns `Failure(DivisionByZero)`, or
`None` for a gain or a filtered signal.

Modules, in pipeline order:

- `ComplexNumbers` (complex.dfy): the field operations and the ring facts used below.
- `Outcomes` (outcomes.dfy): `Option`, `Result` and the error kinds.
- `Transcendental` (transcendental.dfy): the function bundle and its laws.
- `Polynomial` (polynomial.dfy): `_expand` and `_evaluate`.
- `Prototype` (prototype.dfy): the Bessel table, and the Bessel, Butterworth and
  Chebyshev prototypes.
- `Bands` (bands.dfy): pre-warping and `_normalize`.
- `ZPlane` (zplane.dfy): the bilinear transform with zero padding, and the matched
  z-transform.
- `Designer` (design.dfy): `design`, `_expand_poly` and `get_gain`.
- `Recurrence` (recurrence.dfy): `apply_filter`.

## Model

| member | source | states |
|---|---|---|
| ComplexNumbers.Div | mkfilter.py:288 | The quotient times the divisor gives back the dividend, for every non-zero divisor. |
| Polynomial.Expand | mkfilter.py:264-281 | Expanding k roots gives k + 1 coefficients, and the highest one is 1 (monic). |
| Polynomial.EvalMulRoot | mkfilter.py:273-279 | One pass of the loop body multiplies the polynomial's value at every z by (z - root). |
| Polynomial.MulRoot | mkfilter.py:274-278 | One pass of the loop yields exactly one coefficient more than it was given: the degree goes up by one per root. |
| Polynomial.EvalAtOrigin | mkfilter.py:286-287 | At z = 0 the sum of c_i z^i is the constant coefficient c_0. |
| Polynomial.EvalZeroCoefficients | mkfilter.py:286-287 | A polynomial whose coefficients are all zero is 0 at every z. |
| Polynomial.EvalExpand | mkfilter.py:264-281 | The expanded coefficients, evaluated in ascending powers at any z, give the product of (z - root) over the roots; no roots give 1. |
| Polynomial.ProductZeroIff | mkfilter.py:273-279 | The product of the root factors vanishes exactly at a root. |
| Polynomial.EvalExpandZeroIff | mkfilter.py:264-281 | The expanded polynomial vanishes at z exactly when z is one of the roots. |
| Polynomial.Evaluate | mkfilter.py:283-288 | The ratio is defined exactly when the denominator is non-zero at z, and then ratio times denominator equals numerator. |
| Polynomial.TransferFunction | mkfilter.py:283-288 | Evaluating the expanded zeros over the expanded poles is defined exactly away from the poles; there H(z) times the product of (z - pole) is the product of (z - zero). |
| Prototype.BesselStartFormula | mkfilter.py:129 | Order n's first row, n*n//4, equals the number of rows of all lower orders. Hence (n*n)//4 + (n+1)//2 = ((n+1)*(n+1))//4, and the orders read disjoint consecutive slices. |
| Prototype.BesselTableSize | mkfilter.py:33-49 | Every order from 1 to 10 reads only rows inside the 30-row table. |
| Prototype.BesselTable | mkfilter.py:33-49 | The table has 30 rows, and every tabulated pole has negative real part. |
| Prototype.BesselOddStartsReal | mkfilter.py:130-132 | The row each odd order starts with is a real pole. |
| Prototype.BesselPoles | mkfilter.py:127-137 | The Bessel walk for order n emits exactly n poles. |
| Prototype.BesselPolesRows | mkfilter.py:129-137 | Pole i of order n reads row n*n//4 + (i + n%2)//2, which lies in the order's own slice. The leading pole of an odd order and the first of each pair are that row; the second of each pair is its conjugate. |
| Prototype.BesselPolesConjugatePairs | mkfilter.py:133-137 | After the leading real pole of an odd order, every second pole is the conjugate of the one before it. |
| Prototype.BesselPolesStable | mkfilter.py:127-137 | Every Bessel pole has negative real part. |
| Prototype.BesselOddOrderRealFirst | mkfilter.py:130-132 | An odd-order Bessel prototype starts with a real pole. |
| Prototype.AngleWindow | mkfilter.py:141-145 | Every candidate angle lies in [0, 2 pi). Candidate i lies strictly between pi/2 and 3 pi/2 exactly for the n indices (n+1)//2 to (n+1)//2 + n - 1. |
| Prototype.ButterworthPoles | mkfilter.py:139-148 | At most 2n candidates are kept, and every kept pole has negative real part. |
| Prototype.ButterworthFrom | mkfilter.py:141-148 | Every kept candidate has negative real part. |
| Prototype.ButterworthPolesExact | mkfilter.py:139-148 | The loop keeps exactly n of its 2n candidates, in order: those at the indices whose angle is strictly between pi/2 and 3 pi/2. |
| Prototype.StretchStable | mkfilter.py:164-166 | Scaling real parts by a positive sinh y keeps every pole in the left half-plane. |
| Prototype.Stretch | mkfilter.py:165-166 | The stretch keeps one pole per prototype pole, and pole k's real part is multiplied by sinh y and its imaginary part by cosh y. |
| Prototype.ChebyshevEpsilon | mkfilter.py:157-158 | For a negative ripple, eps = sqrt(10^(-ripple/10) - 1) is positive, so 1/eps is defined. |
| Prototype.ChebyshevY | mkfilter.py:159-162 | y = asinh(1/eps)/n is positive whenever arcsinh is positive on positive arguments, so the `y <= 0` rejection cannot fire for a real arcsinh. |
| Prototype.ChebyshevPoles | mkfilter.py:152-166 | A ripple >= 0 is rejected with that ripple before any scaling. Otherwise a y <= 0 is rejected with that y. Success means ripple < 0 and y > 0, and the poles are then the Butterworth poles stretched by sinh y and cosh y. |
| Prototype.ChebyshevAccepts | mkfilter.py:157-162 | With a positive arcsinh on positive arguments, every negative ripple is accepted. |
| Prototype.ChebyshevStable | mkfilter.py:152-166 | Every Chebyshev pole has negative real part. |
| Prototype.SPlane | mkfilter.py:123-166 | A Bessel request gives the Bessel poles, a Butterworth request the Butterworth poles, and a Chebyshev request the Chebyshev result. Only a Chebyshev request can fail, and a ripple >= 0 always fails it. |
| Prototype.SPlaneExact | mkfilter.py:123-166 | The prototype succeeds exactly when the family is not Chebyshev or the ripple is negative. It then has exactly n poles, all with negative real part. |
| Bands.Prewarp | mkfilter.py:168-175 | The corner frequency passes through unchanged unless both pre-warping and the bilinear transform are on. |
| Bands.PrewarpPositive | mkfilter.py:173-175 | A corner strictly between 0 and half the sample rate stays positive after pre-warping. |
| Bands.Inverted | mkfilter.py:189 | Each inverted pole times its prototype pole is the constant k. |
| Bands.LowPassTransform | mkfilter.py:182-185 | The low-pass has no zeros, and pole i is the prototype pole i multiplied by the corner w1. |
| Bands.Scaled | mkfilter.py:184 | Each result is the real factor k times its pole, one per pole. |
| Bands.Zeros | mkfilter.py:190 | n zeros, every one at the origin. |
| Bands.HighPassInverts | mkfilter.py:189 | Whenever the high-pass transformation succeeds, each of its poles times the matching prototype pole is w1. |
| Bands.HighPassTransform | mkfilter.py:187-190 | Fails exactly when a prototype pole is 0. Otherwise it gives n poles and n zeros at the origin. |
| Bands.BandPassTransform | mkfilter.py:192-203 | Fails exactly when some hba is 0. Otherwise it gives 2n poles and n zeros at the origin. |
| Bands.BandStopTransform | mkfilter.py:205-219 | Fails exactly when a prototype pole or some hba is 0. Otherwise it gives 2n poles and 2n zeros. |
| Bands.Normalize | mkfilter.py:177-219 | Per band, n prototype poles become n, n, 2n or 2n poles and 0, n, n or 2n zeros. Only a division by zero fails, and never for a low-pass. Each band's result is that band's transformation at the corners 2 pi warped1 and 2 pi warped2. |
| Bands.NormalizeSucceeds | mkfilter.py:177-219 | A low-pass never fails. A high-pass fails exactly when a prototype pole is 0. A band-pass or band-stop with a non-empty prototype fails exactly when a prototype pole is 0 or the two band edges are equal; with an empty prototype neither fails. |
| Bands.SplitPoleRoots | mkfilter.py:198-201 | The two poles hba(1 +- temp) sum to 2 hba and multiply to w0^2, so they are the roots of s^2 - 2 hba s + w0^2. |
| Bands.BandPassPairs | mkfilter.py:192-203 | Each band-pass pole pair sums to bw times its prototype pole and multiplies to w0^2. |
| Bands.BandStopPairs | mkfilter.py:205-219 | Each band-stop pole pair's sum times its prototype pole is bw, and its product is w0^2. The zeros come in pairs +-i w0 with sum 0 and product w0^2. |
| Bands.NormalizeStable | mkfilter.py:182-190 | With a positive corner, low-pass scaling and high-pass inversion keep every pole of a stable prototype in the left half-plane. |
| ZPlane.Bilinear | mkfilter.py:223-224 | z (2 - s) = 2 + s. |
| ZPlane.BilinearAll | mkfilter.py:224-226 | Mapping fails exactly when some point is s = 2. Otherwise every image satisfies z (2 - s) = 2 + s. |
| ZPlane.PadZeros | mkfilter.py:230-232 | The zeros stay as a prefix, and -1 is appended until there are as many zeros as the count. |
| ZPlane.Blt | mkfilter.py:221-232 | Fails exactly when a pole or zero is s = 2. Otherwise every pole is its bilinear image (2 + s) / (2 - s); when zeros do not outnumber poles, the mapped zeros form a prefix padded with -1 to the pole count. |
| ZPlane.BilinearInside | mkfilter.py:224 | \|z\|^2 < 1 exactly when Re s < 0, and \|z\|^2 = 1 exactly when Re s = 0. |
| ZPlane.BltStable | mkfilter.py:221-232 | Left half-plane poles all land strictly inside the unit circle. |
| ZPlane.Mzt | mkfilter.py:234-241 | z = exp(s) for every pole and zero; the counts are kept and nothing is padded. |
| ZPlane.MztStable | mkfilter.py:234-241 | If \|exp(s)\| < 1 whenever Re s < 0, every left half-plane pole lands strictly inside the unit circle. |
| Designer.Coefficients | mkfilter.py:255-262 | The leading denominator coefficient is 1, so the x and y coefficients are the real parts of the numerator and of the negated denominator. Their counts are nzeros + 1 and npoles + 1, and the last y coefficient is -1. |
| Designer.Design | mkfilter.py:74-121 | A Chebyshev ripple >= 0 fails with that ripple. Any other failure except division by zero is Chebyshev's. The warped corners are the pre-warped alpha1 and alpha2 (alpha2 defaulting to alpha1). The x and y coefficients are those of the z-plane roots, so the last y coefficient is -1. |
| Designer.DesignStages | mkfilter.py:74-121 | A successful design is its stages composed. The prototype succeeds, the band transformation at the warped corners gives the s-plane roots, the bilinear or matched z-transform of those gives the z-plane roots, and the coefficients are those of the z-plane roots. |
| Designer.GetGain | mkfilter.py:290-300 | The gain is \|H(1)\| for a low-pass, \|H(-1)\| for a high-pass, \|H(centre)\| for a band-pass and \|sqrt(H(1) H(-1))\| for a band-stop. It is defined exactly when the gains it reads are. |
| Designer.GainNormalises | mkfilter.py:290-297 | For a low-pass, high-pass or band-pass with a positive gain, the response at the reference point divided by the gain has modulus 1. |
| Designer.CentreAngleBetween | mkfilter.py:251 | For corners whose sum lies strictly between 0 and 1, the centre angle lies strictly between 0 and pi. |
| Designer.DesignCounts | mkfilter.py:243-262 | The band fixes the pole count. There are pole count + 1 y coefficients. The zero count is the pole count under the bilinear transform and the band's own zero count under the matched z-transform. |
| Designer.DesignStable | mkfilter.py:221-241 | Low-pass and high-pass designs with 0 < alpha1 < 1/2 (and a negative ripple for Chebyshev) always succeed. All z-plane poles lie strictly inside the unit circle, as test_simple.py checks, and the three gains and the pass-band gain are defined and non-negative. |
| Designer.DesignPolesInside | mkfilter.py:102-116 | Under the same conditions as DesignStable, every stage of the pipeline succeeds and every z-plane pole lies strictly inside the unit circle, for the bilinear and the matched z-transform alike. |
| Designer.DesignGainsInside | mkfilter.py:249-253 | Once the z-plane poles lie inside the unit circle, none of 1, -1 and exp(i theta) is a pole. So the DC, centre and Nyquist gains are all defined, and so is the low-pass or high-pass gain, which is non-negative. |
| Designer.PassBandGain | mkfilter.py:290-294 | A low-pass or high-pass filter whose DC and Nyquist gains are defined has a defined, non-negative pass-band gain. |
| Designer.GainsDefined | mkfilter.py:249-253 | Each recorded gain is defined exactly when its point (1, exp(i theta) at the centre, or -1) is not a z-plane pole. |
| Designer.DesignGains | mkfilter.py:249-253 | Each gain is defined exactly when its point (1, exp(i theta) at the centre, or -1) is not a z-plane pole. It is then the ratio of the products of (z - zero) and (z - pole). |
| Designer.BandStopGainGeometricMean | mkfilter.py:298-299 | The band-stop gain squared is \|H(1)\| \|H(-1)\|: it is the geometric mean of the DC and Nyquist gains. |
| Recurrence.Response | example_usage.py:36-46 | The reference output has one value per input sample. |
| Recurrence.ResponseStep | example_usage.py:38-46 | One more input sample appends exactly one output. It is the dot product of the x coefficients with the newest inputs plus that of the y coefficients without the last with the previous outputs. |
| Recurrence.RegistersAdvance | example_usage.py:37-45 | One pass of the loop keeps the x register equal to the newest gain-scaled inputs and the y register equal to the newest outputs. It appends the reference's next output. |
| Recurrence.ApplyFilter | example_usage.py:12-48 | An empty signal gives an empty output. A non-empty signal fails exactly when a coefficient array is empty (index error) or the gain is zero (division by zero). Otherwise the output has the signal's length and equals the reference recurrence on the gain-scaled signal. |
| Recurrence.OutputsPrefix | example_usage.py:36-46 | The outputs after k samples are a prefix of the outputs after any n >= k samples. |
| Recurrence.ResponsePrefix | example_usage.py:36-46 | The first k outputs depend only on the first k inputs. |
| Recurrence.ResponseCausal | example_usage.py:36-46 | Two signals that agree up to sample n give the same output n. |
| Recurrence.ZeroInZeroOut | example_usage.py:31-46 | Both registers start at zero, so an all-zero signal gives an all-zero output. |
| Recurrence.LastYCoefficientUnused | example_usage.py:45 | Replacing the last y coefficient (the -1) by anything leaves the output unchanged. |
| Recurrence.ResponseAdditive | example_usage.py:42-45 | The response to the sum of two signals is the sum of their responses. |

## Left out

- The command line (`main`, argparse, mkfilter.py:457-580) is not modelled. It is I/O; its order check (1 to 10) is the precondition of `Designer.Design`.
- `print_summary` and `generate_c_code` (mkfilter.py:302-454) are not modelled: they only format text.
- The example drivers, plotting and FFT in example_usage.py are not modelled.
- Floating point is not modelled. All arithmetic is exact over `real`, so the model makes no accuracy claims and the tolerance `EPS` plays no part.
- The values of exp, sqrt, complex sqrt, tan, sinh, cosh, arcsinh, 10^x and pi are not computed. They are a parameter, and only the laws in `Transcendental` are assumed of them, where a lemma says so.
- Band and family are enumerations. Unknown strings, the `'Ap'` case of `get_gain` and its default gain of 1.0 cannot arise and are not modelled.
- A numpy division by zero (a pole or hba at 0, s = 2 under the bilinear transform, a transfer function evaluated at a pole, a zero gain in `apply_filter`) yields inf or nan there. Here it is an explicit failure or `None`.
- numpy's real sqrt of a negative number (w1 * w2 < 0 for a band-pass or band-stop) gives nan. Here `Sqrt` is unconstrained for negative arguments.
- Recurrence.ApplyFilter: a single `None` stands for both failures of the first sample. These are the index error of an empty coefficient array and the division by zero of a zero gain. The numpy buffers become sequences, and each in-place shift becomes a new sequence.
- Designer.DesignStable: covers low-pass and high-pass only. Stability of band-pass and band-stop designs would need facts about the complex square root's half-plane that are not assumed.
- Designer.Coefficients: takes real parts, as the code does. That the discarded imaginary parts are zero (conjugate symmetry of the roots) is not proved.
- Bands.PrewarpPositive: states positivity only. That pre-warping makes the bilinear transform hit the requested corner exactly is not proved.
- The default arguments of `design` (mkfilter.py:74-77) are not modelled, except that a missing alpha2 means alpha1. Every `Designer.Request` spells out the ripple, `useBlt` and `prewarp`; the source's defaults are -1.0, true and true.
- `PoleZeroRep` and the mutable fields of `MkFilter` become immutable records (`Bands.PoleZero`, `Designer.Filter`) returned by pure functions.
- The designer has no stability check and no error for a zero gain. An unstable or zero-gain design is returned like any other, so the model has neither error either.
- Band-pass and band-stop designs have 2n poles. The matched z-transform does not pad the zeros, so the two coefficient arrays can differ in length (`Designer.DesignCounts`).
- The band-stop gain is \|sqrt(H(1) H(-1))\| (mkfilter.py:298-299), the geometric mean of the DC and Nyquist gains, not the gain at a pass-band edge.
