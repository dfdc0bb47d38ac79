/** Polynomials with complex coefficients, stored lowest power first, as the designer
    builds them from their roots and evaluates them on the unit circle. */
module Polynomial {
  import opened ComplexNumbers
  import opened Outcomes

  /** One pass of the expansion loop: the coefficients of (z - root) * c(z). */
  function MulRoot(c: seq<Complex>, root: Complex): (r: seq<Complex>)
    requires |c| >= 1
    ensures |r| == |c| + 1
  {
    seq(|c| + 1, i requires 0 <= i <= |c| =>
      if i == 0 then Neg(Mul(root, c[0]))
      else if i == |c| then c[|c| - 1]
      else Sub(c[i - 1], Mul(root, c[i])))
  }

  /** The monic polynomial whose roots are `roots`, multiplied out one root at a time. */
  function Expand(roots: seq<Complex>): (c: seq<Complex>)
    ensures |c| == |roots| + 1
    ensures c[|roots|] == One
  {
    if |roots| == 0 then [One]
    else MulRoot(Expand(roots[..|roots| - 1]), roots[|roots| - 1])
  }

  function Pow(z: Complex, k: nat): Complex {
    if k == 0 then One else Mul(Pow(z, k - 1), z)
  }

  /** The sum of c[i] * z^i. */
  function Eval(c: seq<Complex>, z: Complex): Complex {
    if |c| == 0 then Zero
    else Add(Eval(c[..|c| - 1], z), Mul(c[|c| - 1], Pow(z, |c| - 1)))
  }

  /** At z = 0 every power but the first vanishes, so only the constant coefficient
      is left. */
  lemma {:induction false} EvalAtOrigin(c: seq<Complex>)
    requires |c| >= 1
    ensures Eval(c, Zero) == c[0]
    decreases |c|
  {
    var k := |c| - 1;
    if k == 0 {
      assert c[..0] == [];
      assert Eval(c, Zero) == Add(Zero, Mul(c[0], One));
    } else {
      EvalAtOrigin(c[..k]);
      assert Pow(Zero, k) == Mul(Pow(Zero, k - 1), Zero);
      MulZero(Pow(Zero, k - 1));
      MulZero(c[k]);
    }
  }

  /** A polynomial whose coefficients are all zero vanishes everywhere. */
  lemma {:induction false} EvalZeroCoefficients(c: seq<Complex>, z: Complex)
    requires forall i :: 0 <= i < |c| ==> c[i] == Zero
    ensures Eval(c, z) == Zero
    decreases |c|
  {
    if |c| > 0 {
      EvalZeroCoefficients(c[..|c| - 1], z);
      MulZero(Pow(z, |c| - 1));
    }
  }

  /** The product of the factors (z - root): the reference meaning of `Expand`. */
  function Product(roots: seq<Complex>, z: Complex): Complex {
    if |roots| == 0 then One
    else Mul(Sub(z, roots[|roots| - 1]), Product(roots[..|roots| - 1], z))
  }

  /** The transfer function top(z) / bot(z); `None` where bot(z) = 0, where numpy
      would produce inf or nan. */
  function Evaluate(top: seq<Complex>, bot: seq<Complex>, z: Complex): (h: Option<Complex>)
    ensures h.Some? <==> Eval(bot, z) != Zero
    ensures h.Some? ==> Mul(h.value, Eval(bot, z)) == Eval(top, z)
  {
    var b := Eval(bot, z);
    if b == Zero then None else Some(Div(Eval(top, z), b))
  }

  /** The algebra of one step of `EvalMulRoot`. */
  lemma MulRootStep(a: Complex, last: Complex, x: Complex, p: Complex, z: Complex,
                    root: Complex, e: Complex)
    requires Add(a, Mul(last, p)) == Mul(Sub(z, root), e)
    ensures Add(Add(a, Mul(Sub(last, Mul(root, x)), p)), Mul(x, Mul(p, z)))
         == Mul(Sub(z, root), Add(e, Mul(x, p)))
  {
    var t := Sub(Mul(x, Mul(p, z)), Mul(Mul(root, x), p));
    calc {
      Add(Add(a, Mul(Sub(last, Mul(root, x)), p)), Mul(x, Mul(p, z)));
      Add(Add(a, Mul(last, p)), t);
      Add(Mul(Sub(z, root), e), t);
      { MulComm(z, Mul(x, p));
        MulAssoc(x, p, z);
        MulAssoc(root, x, p); }
      Add(Mul(Sub(z, root), e), Sub(Mul(z, Mul(x, p)), Mul(root, Mul(x, p))));
      { MulSubDistrib(z, root, Mul(x, p)); }
      Add(Mul(Sub(z, root), e), Mul(Sub(z, root), Mul(x, p)));
      { MulAddDistrib(Sub(z, root), e, Mul(x, p)); }
      Mul(Sub(z, root), Add(e, Mul(x, p)));
    }
  }

  lemma EvalMulRootBase(c0: Complex, root: Complex, z: Complex)
    ensures Eval(MulRoot([c0], root), z) == Mul(Sub(z, root), Eval([c0], z))
  {
    var r := MulRoot([c0], root);
    assert r[..1][..0] == [] && [c0][..0] == [];
    assert Eval(r[..1], z) == Add(Zero, Mul(Neg(Mul(root, c0)), One));
    assert Eval(r, z) == Add(Eval(r[..1], z), Mul(c0, Mul(One, z)));
    assert Eval([c0], z) == Add(Zero, Mul(c0, One));
  }

  lemma {:induction false} EvalMulRoot(c: seq<Complex>, root: Complex, z: Complex)
    requires |c| >= 1
    ensures Eval(MulRoot(c, root), z) == Mul(Sub(z, root), Eval(c, z))
    decreases |c|
  {
    var k := |c| - 1;
    if k == 0 {
      assert c == [c[0]];
      EvalMulRootBase(c[0], root, z);
    } else {
      var r := MulRoot(c, root);
      var c' := c[..k];
      var x := c[k];
      var r' := MulRoot(c', root);
      MulRootShape(c, root);
      EvalMulRoot(c', root, z);
      var a := Eval(r[..k], z);
      var p := Pow(z, k);
      assert |r'| == k + 1;
      EvalLast(r', z, Eval(r'[..k], z), p);
      EvalLast(c, z, Eval(c', z), p);
      EvalLastTwo(r, z, a, p);
      MulRootStep(a, c[k - 1], x, p, z, root, Eval(c', z));
    }
  }

  /** The coefficients of (z - root) c(z) for c with at least two coefficients: all but
      the top two agree with those for c without its top coefficient, the next is the
      recurrence's general entry and the top one is c's top coefficient. */
  lemma MulRootShape(c: seq<Complex>, root: Complex)
    requires |c| >= 2
    ensures var k := |c| - 1;
      var r := MulRoot(c, root);
      var r' := MulRoot(c[..k], root);
      && r[..k] == r'[..k]
      && r[k] == Sub(c[k - 1], Mul(root, c[k]))
      && r[k + 1] == c[k]
      && r'[k] == c[k - 1]
  {
    var k := |c| - 1;
    assert MulRoot(c, root)[..k] == MulRoot(c[..k], root)[..k];
  }

  /** Eval peels off its top coefficient. */
  lemma EvalLast(c: seq<Complex>, z: Complex, a: Complex, p: Complex)
    requires |c| >= 1 && a == Eval(c[..|c| - 1], z) && p == Pow(z, |c| - 1)
    ensures Eval(c, z) == Add(a, Mul(c[|c| - 1], p))
  {
  }

  /** Eval peels off its top two coefficients. */
  lemma EvalLastTwo(c: seq<Complex>, z: Complex, a: Complex, p: Complex)
    requires |c| >= 2 && a == Eval(c[..|c| - 2], z) && p == Pow(z, |c| - 2)
    ensures Eval(c, z) == Add(Add(a, Mul(c[|c| - 2], p)), Mul(c[|c| - 1], Mul(p, z)))
  {
    assert c[..|c| - 1][..|c| - 2] == c[..|c| - 2];
  }

  /** The coefficients `Expand` produces describe the product of the factors (z - root). */
  lemma {:induction false} EvalExpand(roots: seq<Complex>, z: Complex)
    ensures Eval(Expand(roots), z) == Product(roots, z)
    decreases |roots|
  {
    if |roots| == 0 {
      assert [One][..0] == [];
    } else {
      var prefix := roots[..|roots| - 1];
      EvalExpand(prefix, z);
      EvalMulRoot(Expand(prefix), roots[|roots| - 1], z);
    }
  }

  /** The product of the factors (z - root) vanishes exactly at the roots. */
  lemma {:induction false} ProductZeroIff(roots: seq<Complex>, z: Complex)
    ensures Product(roots, z) == Zero <==> z in roots
    decreases |roots|
  {
    if |roots| == 0 {
    } else {
      var prefix := roots[..|roots| - 1];
      var last := roots[|roots| - 1];
      assert roots == prefix + [last];
      ProductZeroIff(prefix, z);
      var f := Sub(z, last);
      var rest := Product(prefix, z);
      if f == Zero {
        MulZero(rest);
        assert z == last;
      } else if rest == Zero {
        MulZero(f);
      } else {
        MulNonZero(f, rest);
        assert z != last;
      }
    }
  }

  /** The expanded polynomial vanishes exactly at its roots. */
  lemma EvalExpandZeroIff(roots: seq<Complex>, z: Complex)
    ensures Eval(Expand(roots), z) == Zero <==> z in roots
  {
    EvalExpand(roots, z);
    ProductZeroIff(roots, z);
  }

  /** The transfer function of the expanded numerator and denominator is defined
      exactly away from the poles, and there it is the ratio of the root products:
      H(z) (z - p1) ... (z - pn) = (z - q1) ... (z - qm). */
  lemma TransferFunction(zeros: seq<Complex>, poles: seq<Complex>, z: Complex)
    ensures var h := Evaluate(Expand(zeros), Expand(poles), z);
      && (h.Some? <==> z !in poles)
      && (h.Some? ==> Mul(h.value, Product(poles, z)) == Product(zeros, z))
  {
    EvalExpandZeroIff(poles, z);
    EvalExpand(poles, z);
    EvalExpand(zeros, z);
  }
}
