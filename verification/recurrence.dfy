/** Running a designed filter over a signal: the recurrence
      y[n] = sum_i xcoeffs[i] x[n - nzeros + i] + sum_{i < npoles} ycoeffs[i] y[n - npoles + i]
    on the gain-scaled input x[n] = signal[n] / gain, with every sample before the
    start taken as zero. The loop keeps the recent inputs and outputs in two shift
    registers, as the example application does. */
module Recurrence {
  import opened Outcomes

  /** The sum of a[i] * b[i]. */
  function Dot(a: seq<real>, b: seq<real>): real
    requires |a| == |b|
  {
    if |a| == 0 then 0.0 else Dot(a[..|a| - 1], b[..|b| - 1]) + a[|a| - 1] * b[|b| - 1]
  }

  /** The k values of s just before index n, oldest first, with zeros in front when
      fewer than k come before n. */
  function Recent(s: seq<real>, n: nat, k: nat): (w: seq<real>)
    requires n <= |s|
    ensures |w| == k
  {
    seq(k, i requires 0 <= i < k => if n - k + i >= 0 then s[n - k + i] else 0.0)
  }

  /** The input the recurrence sees: every sample divided by the gain. */
  function Inputs(signal: seq<real>, gain: real): (u: seq<real>)
    requires gain != 0.0
    ensures |u| == |signal|
  {
    seq(|signal|, i requires 0 <= i < |signal| => signal[i] / gain)
  }

  /** The first n outputs of the reference recurrence on input u: output n - 1
      combines the |xcoeffs| inputs up to u[n - 1] with the |ycoeffs| - 1 outputs
      before it. The last y coefficient is not used. */
  function Outputs(xcoeffs: seq<real>, ycoeffs: seq<real>, u: seq<real>, n: nat): (y: seq<real>)
    requires |ycoeffs| >= 1 && n <= |u|
    ensures |y| == n
    decreases n
  {
    if n == 0 then []
    else
      var prev := Outputs(xcoeffs, ycoeffs, u, n - 1);
      prev + [Dot(xcoeffs, Recent(u, n, |xcoeffs|)) + Dot(ycoeffs[..|ycoeffs| - 1], Recent(prev, n - 1, |ycoeffs| - 1))]
  }

  /** The reference output: one value per input sample. */
  function Response(xcoeffs: seq<real>, ycoeffs: seq<real>, u: seq<real>): (y: seq<real>)
    requires |ycoeffs| >= 1
    ensures |y| == |u|
  {
    Outputs(xcoeffs, ycoeffs, u, |u|)
  }

  /** Moving the end one sample on shifts the window by one. */
  lemma RecentShift(s: seq<real>, n: nat, k: nat)
    requires k >= 1 && n < |s|
    ensures Recent(s, n + 1, k) == Recent(s, n, k)[1..] + [s[n]]
  {
  }

  /** Dropping the oldest slot of a window gives the shorter window. */
  lemma RecentDrop(s: seq<real>, n: nat, k: nat)
    requires n <= |s|
    ensures Recent(s, n, k + 1)[1..] == Recent(s, n, k)
  {
  }

  /** The window after a newly appended value. */
  lemma RecentAppend(s: seq<real>, v: real, k: nat)
    requires k >= 1
    ensures Recent(s + [v], |s| + 1, k) == Recent(s, |s|, k)[1..] + [v]
  {
  }

  /** A window only reads the samples before its end. */
  lemma RecentPrefix(s: seq<real>, t: seq<real>, n: nat, k: nat)
    requires n <= |s| && n <= |t| && s[..n] == t[..n]
    ensures Recent(s, n, k) == Recent(t, n, k)
  {
    forall j | 0 <= j < n
      ensures s[j] == t[j]
    {
      assert s[j] == s[..n][j];
      assert t[j] == t[..n][j];
    }
  }

  /** One more input appends one output, computed from the windows of the inputs and
      of the earlier outputs. */
  lemma ResponseStep(xcoeffs: seq<real>, ycoeffs: seq<real>, u: seq<real>, n: nat,
                      prev: seq<real>, xw: seq<real>, yw: seq<real>, y: real)
    requires |ycoeffs| >= 1 && n < |u|
    requires prev == Outputs(xcoeffs, ycoeffs, u, n)
    requires xw == Recent(u, n + 1, |xcoeffs|) && yw == Recent(prev, n, |ycoeffs| - 1)
    requires y == Dot(xcoeffs, xw) + Dot(ycoeffs[..|ycoeffs| - 1], yw)
    ensures Outputs(xcoeffs, ycoeffs, u, n + 1) == prev + [y]
  {
    var k := n + 1;
    assert Outputs(xcoeffs, ycoeffs, u, k) == Outputs(xcoeffs, ycoeffs, u, k - 1) + [
      Dot(xcoeffs, Recent(u, k, |xcoeffs|)) + Dot(ycoeffs[..|ycoeffs| - 1], Recent(Outputs(xcoeffs, ycoeffs, u, k - 1), k - 1, |ycoeffs| - 1))];
  }

  /** One pass of the loop in `ApplyFilter` keeps both registers equal to the windows
      of the input and output so far, and the output equal to the reference. */
  lemma RegistersAdvance(xcoeffs: seq<real>, ycoeffs: seq<real>, u: seq<real>, n: nat,
                         output: seq<real>, xv: seq<real>, yv: seq<real>, xv': seq<real>, y: real)
    requires |xcoeffs| >= 1 && |ycoeffs| >= 1 && n < |u|
    requires output == Outputs(xcoeffs, ycoeffs, u, n)
    requires xv == Recent(u, n, |xcoeffs|) && yv == Recent(output, n, |ycoeffs|)
    requires xv' == xv[1..] + [u[n]]
    requires y == Dot(xcoeffs, xv') + Dot(ycoeffs[..|ycoeffs| - 1], yv[1..])
    ensures xv' == Recent(u, n + 1, |xcoeffs|)
    ensures yv[1..] + [y] == Recent(output + [y], n + 1, |ycoeffs|)
    ensures output + [y] == Outputs(xcoeffs, ycoeffs, u, n + 1)
  {
    RecentShift(u, n, |xcoeffs|);
    RecentDrop(output, n, |ycoeffs| - 1);
    ResponseStep(xcoeffs, ycoeffs, u, n, output, xv', yv[1..], y);
    RecentAppend(output, y, |ycoeffs|);
  }

  /** Filters `signal` with the coefficients of a design and its pass-band gain. An
      empty signal gives an empty output whatever the coefficients. Otherwise `None`
      stands for the two ways the first sample fails: an empty coefficient array leaves
      a register with no last slot to write (an index error), and a zero gain makes
      every scaled input a division by zero. */
  method ApplyFilter(signal: seq<real>, xcoeffs: seq<real>, ycoeffs: seq<real>, gain: real)
    returns (r: Option<seq<real>>)
    ensures r.None? <==> |signal| > 0 && (|xcoeffs| == 0 || |ycoeffs| == 0 || gain == 0.0)
    ensures r.Some? ==> |r.value| == |signal|
    ensures r.Some? && |signal| > 0 ==> r.value == Response(xcoeffs, ycoeffs, Inputs(signal, gain))
  {
    if |signal| == 0 {
      return Some([]);
    }
    if |xcoeffs| == 0 || |ycoeffs| == 0 || gain == 0.0 {
      return None;
    }
    var nzeros := |xcoeffs| - 1;
    var npoles := |ycoeffs| - 1;
    // The two shift registers, oldest value first, and the output so far.
    var xv := seq(nzeros + 1, _ => 0.0);
    var yv := seq(npoles + 1, _ => 0.0);
    var output := [];
    ghost var u := Inputs(signal, gain);
    var n := 0;
    while n < |signal|
      invariant 0 <= n <= |signal| && |output| == n
      invariant output == Outputs(xcoeffs, ycoeffs, u, n)
      invariant xv == Recent(u, n, nzeros + 1)
      invariant yv == Recent(output, n, npoles + 1)
    {
      var xv' := xv[1..] + [signal[n] / gain];
      var y := Dot(xcoeffs, xv') + Dot(ycoeffs[..npoles], yv[1..]);
      RegistersAdvance(xcoeffs, ycoeffs, u, n, output, xv, yv, xv', y);
      xv := xv';
      yv := yv[1..] + [y];
      output := output + [y];
      n := n + 1;
    }
    return Some(output);
  }

  /** The first k outputs are a prefix of any longer run. */
  lemma {:induction false} OutputsPrefix(xcoeffs: seq<real>, ycoeffs: seq<real>, u: seq<real>, n: nat, k: nat)
    requires |ycoeffs| >= 1 && k <= n <= |u|
    ensures Outputs(xcoeffs, ycoeffs, u, n)[..k] == Outputs(xcoeffs, ycoeffs, u, k)
    decreases n
  {
    if k < n {
      OutputsPrefix(xcoeffs, ycoeffs, u, n - 1, k);
      var prev := Outputs(xcoeffs, ycoeffs, u, n - 1);
      assert Outputs(xcoeffs, ycoeffs, u, n)[..k] == prev[..k];
    }
  }

  /** The first n outputs read only the first n inputs. */
  lemma {:induction false} OutputsCausal(xcoeffs: seq<real>, ycoeffs: seq<real>, u: seq<real>, v: seq<real>, n: nat)
    requires |ycoeffs| >= 1 && n <= |u| && n <= |v| && u[..n] == v[..n]
    ensures Outputs(xcoeffs, ycoeffs, u, n) == Outputs(xcoeffs, ycoeffs, v, n)
    decreases n
  {
    if n > 0 {
      assert u[..n - 1] == u[..n][..n - 1];
      assert v[..n - 1] == v[..n][..n - 1];
      OutputsCausal(xcoeffs, ycoeffs, u, v, n - 1);
      RecentPrefix(u, v, n, |xcoeffs|);
    }
  }

  /** The output so far does not depend on later input: the recurrence is causal. */
  lemma ResponsePrefix(xcoeffs: seq<real>, ycoeffs: seq<real>, u: seq<real>, k: nat)
    requires |ycoeffs| >= 1 && k <= |u|
    ensures Response(xcoeffs, ycoeffs, u)[..k] == Response(xcoeffs, ycoeffs, u[..k])
  {
    OutputsPrefix(xcoeffs, ycoeffs, u, |u|, k);
    assert u[..k][..k] == u[..k];
    OutputsCausal(xcoeffs, ycoeffs, u, u[..k], k);
  }

  /** Output n is determined by inputs 0 to n. */
  lemma ResponseCausal(xcoeffs: seq<real>, ycoeffs: seq<real>, u: seq<real>, v: seq<real>, n: nat)
    requires |ycoeffs| >= 1 && n < |u| && n < |v| && u[..n + 1] == v[..n + 1]
    ensures Response(xcoeffs, ycoeffs, u)[n] == Response(xcoeffs, ycoeffs, v)[n]
  {
    ResponsePrefix(xcoeffs, ycoeffs, u, n + 1);
    ResponsePrefix(xcoeffs, ycoeffs, v, n + 1);
    assert Response(xcoeffs, ycoeffs, u)[n] == Response(xcoeffs, ycoeffs, u)[..n + 1][n];
    assert Response(xcoeffs, ycoeffs, v)[n] == Response(xcoeffs, ycoeffs, v)[..n + 1][n];
  }

  predicate AllZero(s: seq<real>) {
    forall i :: 0 <= i < |s| ==> s[i] == 0.0
  }

  lemma {:induction false} DotZero(a: seq<real>, b: seq<real>)
    requires |a| == |b| && AllZero(b)
    ensures Dot(a, b) == 0.0
    decreases |a|
  {
    if |a| > 0 {
      DotZero(a[..|a| - 1], b[..|b| - 1]);
    }
  }

  /** Both registers start at zero, so silence in gives silence out. */
  lemma ZeroInZeroOut(xcoeffs: seq<real>, ycoeffs: seq<real>, u: seq<real>)
    requires |ycoeffs| >= 1 && AllZero(u)
    ensures AllZero(Response(xcoeffs, ycoeffs, u))
  {
    OutputsZero(xcoeffs, ycoeffs, u, |u|);
  }

  lemma {:induction false} OutputsZero(xcoeffs: seq<real>, ycoeffs: seq<real>, u: seq<real>, n: nat)
    requires |ycoeffs| >= 1 && AllZero(u) && n <= |u|
    ensures AllZero(Outputs(xcoeffs, ycoeffs, u, n))
    decreases n
  {
    if n > 0 {
      var prev := Outputs(xcoeffs, ycoeffs, u, n - 1);
      OutputsZero(xcoeffs, ycoeffs, u, n - 1);
      DotZero(xcoeffs, Recent(u, n, |xcoeffs|));
      DotZero(ycoeffs[..|ycoeffs| - 1], Recent(prev, n - 1, |ycoeffs| - 1));
    }
  }

  /** The last y coefficient (the -1 of a design) never enters the output. */
  lemma LastYCoefficientUnused(xcoeffs: seq<real>, ycoeffs: seq<real>, c: real, u: seq<real>)
    requires |ycoeffs| >= 1
    ensures Response(xcoeffs, ycoeffs, u) == Response(xcoeffs, ycoeffs[..|ycoeffs| - 1] + [c], u)
  {
    OutputsLastUnused(xcoeffs, ycoeffs, c, u, |u|);
  }

  lemma {:induction false} OutputsLastUnused(xcoeffs: seq<real>, ycoeffs: seq<real>, c: real, u: seq<real>, n: nat)
    requires |ycoeffs| >= 1 && n <= |u|
    ensures Outputs(xcoeffs, ycoeffs, u, n) == Outputs(xcoeffs, ycoeffs[..|ycoeffs| - 1] + [c], u, n)
    decreases n
  {
    var other := ycoeffs[..|ycoeffs| - 1] + [c];
    assert other[..|other| - 1] == ycoeffs[..|ycoeffs| - 1];
    if n > 0 {
      OutputsLastUnused(xcoeffs, ycoeffs, c, u, n - 1);
    }
  }

  /** The sum of two sequences, element by element. */
  function Plus(a: seq<real>, b: seq<real>): (r: seq<real>)
    requires |a| == |b|
    ensures |r| == |a|
  {
    seq(|a|, i requires 0 <= i < |a| => a[i] + b[i])
  }

  lemma {:induction false} DotPlus(a: seq<real>, b: seq<real>, c: seq<real>)
    requires |a| == |b| == |c|
    ensures Dot(a, Plus(b, c)) == Dot(a, b) + Dot(a, c)
    decreases |a|
  {
    if |a| > 0 {
      var k := |a| - 1;
      assert Plus(b, c)[..k] == Plus(b[..k], c[..k]);
      DotPlus(a[..k], b[..k], c[..k]);
      assert a[k] * (b[k] + c[k]) == a[k] * b[k] + a[k] * c[k];
    }
  }

  lemma RecentPlus(a: seq<real>, b: seq<real>, n: nat, k: nat)
    requires |a| == |b| && n <= |a|
    ensures Recent(Plus(a, b), n, k) == Plus(Recent(a, n, k), Recent(b, n, k))
  {
  }

  lemma PlusAppend(a: seq<real>, b: seq<real>, x: real, y: real)
    requires |a| == |b|
    ensures Plus(a + [x], b + [y]) == Plus(a, b) + [x + y]
  {
  }

  /** The recurrence is additive: the response to a sum of inputs is the sum of the
      responses. */
  lemma ResponseAdditive(xcoeffs: seq<real>, ycoeffs: seq<real>, u: seq<real>, v: seq<real>)
    requires |ycoeffs| >= 1 && |u| == |v|
    ensures Response(xcoeffs, ycoeffs, Plus(u, v))
         == Plus(Response(xcoeffs, ycoeffs, u), Response(xcoeffs, ycoeffs, v))
  {
    OutputsAdditive(xcoeffs, ycoeffs, u, v, |u|);
  }

  lemma {:induction false} OutputsAdditive(xcoeffs: seq<real>, ycoeffs: seq<real>, u: seq<real>, v: seq<real>, n: nat)
    requires |ycoeffs| >= 1 && |u| == |v| && n <= |u|
    ensures Outputs(xcoeffs, ycoeffs, Plus(u, v), n)
         == Plus(Outputs(xcoeffs, ycoeffs, u, n), Outputs(xcoeffs, ycoeffs, v, n))
    decreases n
  {
    if n > 0 {
      OutputsAdditive(xcoeffs, ycoeffs, u, v, n - 1);
      var pu := Outputs(xcoeffs, ycoeffs, u, n - 1);
      var pv := Outputs(xcoeffs, ycoeffs, v, n - 1);
      var yc := ycoeffs[..|ycoeffs| - 1];
      var yu := Dot(xcoeffs, Recent(u, n, |xcoeffs|)) + Dot(yc, Recent(pu, n - 1, |yc|));
      var yv := Dot(xcoeffs, Recent(v, n, |xcoeffs|)) + Dot(yc, Recent(pv, n - 1, |yc|));
      ResponseStep(xcoeffs, ycoeffs, u, n - 1, pu, Recent(u, n, |xcoeffs|), Recent(pu, n - 1, |yc|), yu);
      ResponseStep(xcoeffs, ycoeffs, v, n - 1, pv, Recent(v, n, |xcoeffs|), Recent(pv, n - 1, |yc|), yv);
      StepAdditive(xcoeffs, yc, u, v, pu, pv, n);
      ResponseStep(xcoeffs, ycoeffs, Plus(u, v), n - 1, Plus(pu, pv),
        Recent(Plus(u, v), n, |xcoeffs|), Recent(Plus(pu, pv), n - 1, |yc|), yu + yv);
      PlusAppend(pu, pv, yu, yv);
    }
  }

  /** One step of the recurrence is additive in the input and the earlier outputs. */
  lemma StepAdditive(xcoeffs: seq<real>, yc: seq<real>, u: seq<real>, v: seq<real>,
                     pu: seq<real>, pv: seq<real>, n: nat)
    requires |u| == |v| && 0 < n <= |u| && |pu| == |pv| == n - 1
    ensures Dot(xcoeffs, Recent(Plus(u, v), n, |xcoeffs|)) + Dot(yc, Recent(Plus(pu, pv), n - 1, |yc|))
         == (Dot(xcoeffs, Recent(u, n, |xcoeffs|)) + Dot(yc, Recent(pu, n - 1, |yc|)))
          + (Dot(xcoeffs, Recent(v, n, |xcoeffs|)) + Dot(yc, Recent(pv, n - 1, |yc|)))
  {
    RecentPlus(u, v, n, |xcoeffs|);
    RecentPlus(pu, pv, n - 1, |yc|);
    DotPlus(xcoeffs, Recent(u, n, |xcoeffs|), Recent(v, n, |xcoeffs|));
    DotPlus(yc, Recent(pu, n - 1, |yc|), Recent(pv, n - 1, |yc|));
  }
}
