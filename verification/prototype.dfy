/** The analogue low-pass prototypes: the s-plane poles of a Butterworth, Bessel or
    Chebyshev filter of a given order with its corner at 1 rad/s. */
module Prototype {
  import opened ComplexNumbers
  import opened Outcomes
  import opened Transcendental

  const MaxOrder: nat := 10

  datatype Family = Butterworth | Bessel | Chebyshev

  /** One member of each conjugate pair of Bessel poles, for orders 1 to 10 in turn:
      order n occupies the rows from n*n/4 on, one row per real pole or conjugate pair. */
  function BesselTable(): (t: seq<Complex>)
    ensures |t| == 30
    ensures forall j :: 0 <= j < |t| ==> t[j].re < 0.0
  {
    seq(30, j => BesselRow(j))
  }

  /** Row j of the Bessel table (the last case is row 29). */
  function BesselRow(j: int): Complex {
    match j
    case 0 => Complex(-1.0, 0.0)
    case 1 => Complex(-1.10160133059, 0.636009824757)
    case 2 => Complex(-1.32267579991, 0.0)
    case 3 => Complex(-1.04740916101, 0.999264436281)
    case 4 => Complex(-1.37006783055, 0.410249717494)
    case 5 => Complex(-0.99520876435, 1.25710573945)
    case 6 => Complex(-1.50231627145, 0.0)
    case 7 => Complex(-1.38087732586, 0.717909587627)
    case 8 => Complex(-0.957676548563, 1.47112432073)
    case 9 => Complex(-1.57149040362, 0.320896374221)
    case 10 => Complex(-1.3818580976, 0.971471890712)
    case 11 => Complex(-0.930656522947, 1.66186326894)
    case 12 => Complex(-1.68436817927, 0.0)
    case 13 => Complex(-1.61203876622, 0.589244506931)
    case 14 => Complex(-1.3789032168, 1.1915667778)
    case 15 => Complex(-0.909867780623, 1.83645135304)
    case 16 => Complex(-1.7574084004, 0.272867575103)
    case 17 => Complex(-1.63693941813, 0.822795625139)
    case 18 => Complex(-1.37384121764, 1.38835657588)
    case 19 => Complex(-0.892869718847, 1.99832584364)
    case 20 => Complex(-1.85660050123, 0.0)
    case 21 => Complex(-1.80717053496, 0.512383730575)
    case 22 => Complex(-1.65239648458, 1.03138956698)
    case 23 => Complex(-1.36758830979, 1.56773371224)
    case 24 => Complex(-0.878399276161, 2.14980052431)
    case 25 => Complex(-1.92761969145, 0.241623471082)
    case 26 => Complex(-1.84219624443, 0.727257597722)
    case 27 => Complex(-1.6618102414, 1.22110021857)
    case 28 => Complex(-1.36069227838, 1.73350574267)
    case _ => Complex(-0.865756901707, 2.29260483098)
  }

  /** The number of table rows order n reads: one per real pole or conjugate pair. */
  function BesselRows(n: nat): nat {
    (n + 1) / 2
  }

  /** The first row of order n: the rows of all lower orders come before it. */
  function BesselStart(n: nat): nat {
    if n == 0 then 0 else BesselStart(n - 1) + BesselRows(n - 1)
  }

  lemma DivFour(q: nat, r: nat)
    requires r < 4
    ensures (4 * q + r) / 4 == q
  {
  }

  lemma Squares(k: nat)
    ensures (2 * k) * (2 * k) == 4 * (k * k)
    ensures (2 * k + 1) * (2 * k + 1) == 4 * (k * k + k) + 1
  {
  }

  /** The first row of order n is n*n/4, the closed form the designer computes. */
  lemma {:induction false} BesselStartFormula(n: nat)
    ensures BesselStart(n) == n * n / 4
  {
    if n > 0 {
      BesselStartFormula(n - 1);
      QuarterStep(n);
    }
  }

  /** Going up one order adds the rows of the order below. */
  lemma QuarterStep(n: nat)
    requires n > 0
    ensures (n - 1) * (n - 1) / 4 + BesselRows(n - 1) == n * n / 4
  {
    var k := (n - 1) / 2;
    if n % 2 == 1 {
      assert n - 1 == 2 * k && n == 2 * k + 1;
      StepFromEven(k);
    } else {
      assert n - 1 == 2 * k + 1 && n == 2 * k + 2;
      StepFromOdd(k);
    }
  }

  /** From order 2k to 2k + 1: k*k + k rows. */
  lemma StepFromEven(k: nat)
    ensures (2 * k) * (2 * k) / 4 + (2 * k + 1) / 2 == (2 * k + 1) * (2 * k + 1) / 4
  {
    Squares(k);
    DivFour(k * k, 0);
    DivFour(k * k + k, 1);
  }

  /** From order 2k + 1 to 2k + 2: (k + 1)*(k + 1) rows. */
  lemma StepFromOdd(k: nat)
    ensures (2 * k + 1) * (2 * k + 1) / 4 + (2 * k + 2) / 2 == (2 * k + 2) * (2 * k + 2) / 4
  {
    Squares(k);
    Squares(k + 1);
    DivFour(k * k + k, 1);
    DivFour((k + 1) * (k + 1), 0);
    assert 2 * k + 2 == 2 * (k + 1);
  }

  lemma {:induction false} BesselStartMonotone(n: nat, j: nat)
    requires n <= j
    ensures BesselStart(n) <= BesselStart(j)
    decreases j - n
  {
    if n < j {
      BesselStartMonotone(n, j - 1);
    }
  }

  /** The table holds exactly the rows orders 1 to 10 read. */
  lemma BesselTableSize(n: nat)
    requires n <= MaxOrder
    ensures BesselStart(n + 1) <= |BesselTable()|
  {
    assert BesselStart(MaxOrder + 1) == |BesselTable()|;
    BesselStartMonotone(n + 1, MaxOrder + 1);
  }

  /** The rows odd orders start with (0, 2, 6, 12 and 20) are real poles. */
  lemma BesselOddStartsReal(n: nat)
    requires n <= MaxOrder && n % 2 == 1
    ensures BesselStart(n) < |BesselTable()| && BesselTable()[BesselStart(n)].im == 0.0
  {
    assert n == 1 || n == 3 || n == 5 || n == 7 || n == 9;
    var j := BesselStart(n);
    if n == 1 {
      assert j == 0;
    } else if n == 3 {
      assert j == 2;
    } else if n == 5 {
      assert j == 6;
    } else if n == 7 {
      assert j == 12;
    } else {
      assert j == 20;
    }
    assert BesselTable()[j] == BesselRow(j);
  }

  /** Each of `rows` followed by its conjugate. */
  function Pairs(rows: seq<Complex>): (poles: seq<Complex>)
    ensures |poles| == 2 * |rows|
    ensures forall h :: 0 <= h < |rows| ==> poles[2 * h] == rows[h] && poles[2 * h + 1] == Conj(rows[h])
  {
    if |rows| == 0 then []
    else
      var rest := Pairs(rows[1..]);
      var poles := [rows[0], Conj(rows[0])] + rest;
      assert forall h :: 1 <= h < |rows| ==> poles[2 * h] == rest[2 * (h - 1)] && rows[h] == rows[1..][h - 1];
      poles
  }

  /** An optional leading real row followed by conjugate pairs of the next `count`
      rows of `table`, starting at row `p`; the shape of a Bessel prototype. */
  function LeadAndPairs(table: seq<Complex>, p: nat, o: nat, count: nat): (poles: seq<Complex>)
    requires o <= 1 && p + o + count <= |table|
    ensures |poles| == o + 2 * count
    ensures o == 1 ==> poles[0] == table[p]
    ensures forall i :: o <= i < |poles| && (i - o) % 2 == 1 ==> poles[i] == Conj(poles[i - 1])
    ensures forall i :: 0 <= i < |poles| ==>
      var row := p + (i + o) / 2;
      p <= row < p + o + count && (poles[i] == table[row] || poles[i] == Conj(table[row]))
  {
    var poles := (if o == 1 then [table[p]] else []) + Pairs(table[p + o..p + o + count]);
    LeadAndPairsFacts(table, p, o, count, poles);
    poles
  }

  lemma LeadAndPairsFacts(table: seq<Complex>, p: nat, o: nat, count: nat, poles: seq<Complex>)
    requires o <= 1 && p + o + count <= |table|
    requires poles == (if o == 1 then [table[p]] else []) + Pairs(table[p + o..p + o + count])
    ensures forall i :: o <= i < |poles| && (i - o) % 2 == 1 ==> poles[i] == Conj(poles[i - 1])
    ensures forall i :: 0 <= i < |poles| ==>
      var row := p + (i + o) / 2;
      p <= row < p + o + count && (poles[i] == table[row] || poles[i] == Conj(table[row]))
  {
    LeadAndPairsRows(table, p, o, count, poles);
    LeadAndPairsConj(table, p, o, count, poles);
  }

  lemma LeadAndPairsRows(table: seq<Complex>, p: nat, o: nat, count: nat, poles: seq<Complex>)
    requires o <= 1 && p + o + count <= |table|
    requires poles == (if o == 1 then [table[p]] else []) + Pairs(table[p + o..p + o + count])
    ensures forall i :: 0 <= i < |poles| ==>
      var row := p + (i + o) / 2;
      p <= row < p + o + count && (poles[i] == table[row] || poles[i] == Conj(table[row]))
  {
    forall i | 0 <= i < |poles|
      ensures var row := p + (i + o) / 2;
        p <= row < p + o + count && (poles[i] == table[row] || poles[i] == Conj(table[row]))
    {
      LeadAndPairsAt(table, p, o, count, poles, i);
    }
  }

  lemma LeadAndPairsConj(table: seq<Complex>, p: nat, o: nat, count: nat, poles: seq<Complex>)
    requires o <= 1 && p + o + count <= |table|
    requires poles == (if o == 1 then [table[p]] else []) + Pairs(table[p + o..p + o + count])
    ensures forall i :: o <= i < |poles| && (i - o) % 2 == 1 ==> poles[i] == Conj(poles[i - 1])
  {
    forall i | o <= i < |poles| && (i - o) % 2 == 1
      ensures poles[i] == Conj(poles[i - 1])
    {
      var h, par := SplitIndex(i, o);
      PairAt(table, p, o, count, poles, h, 1);
      PairAt(table, p, o, count, poles, h, 0);
    }
  }

  /** Index i past the lead is entry 2h + par of the pairs, which reads row h. */
  lemma SplitIndex(i: nat, o: nat) returns (h: nat, par: nat)
    requires o <= 1 && o <= i
    ensures i == o + 2 * h + par && par <= 1
    ensures o + h == (i + o) / 2 && par == (i - o) % 2
  {
    h, par := (i - o) / 2, (i - o) % 2;
  }

  lemma LeadAndPairsAt(table: seq<Complex>, p: nat, o: nat, count: nat, poles: seq<Complex>, i: nat)
    requires o <= 1 && p + o + count <= |table|
    requires poles == (if o == 1 then [table[p]] else []) + Pairs(table[p + o..p + o + count])
    requires i < |poles|
    ensures var row := p + (i + o) / 2;
      && p <= row < p + o + count
      && (i < o ==> poles[i] == table[row])
      && (i >= o && (i - o) % 2 == 0 ==> poles[i] == table[row])
      && (i >= o && (i - o) % 2 == 1 ==> poles[i] == Conj(table[row]))
  {
    if i >= o {
      var h, par := SplitIndex(i, o);
      PairAt(table, p, o, count, poles, h, par);
    }
  }

  /** Past the lead, entries o + 2h and o + 2h + 1 are row p + o + h and its conjugate. */
  lemma PairAt(table: seq<Complex>, p: nat, o: nat, count: nat, poles: seq<Complex>, h: nat, par: nat)
    requires o <= 1 && p + o + count <= |table|
    requires poles == (if o == 1 then [table[p]] else []) + Pairs(table[p + o..p + o + count])
    requires h < count && par <= 1
    ensures o + 2 * h + par < |poles|
    ensures poles[o + 2 * h + par] == if par == 0 then table[p + o + h] else Conj(table[p + o + h])
  {
    var rows := table[p + o..p + o + count];
    PairsAt(rows, h, par);
    assert poles[o + 2 * h + par] == Pairs(rows)[2 * h + par];
  }

  /** Entries 2h and 2h + 1 of the pairs are row h and its conjugate. */
  lemma PairsAt(rows: seq<Complex>, h: nat, par: nat)
    requires h < |rows| && par <= 1
    ensures 2 * h + par < |Pairs(rows)|
    ensures Pairs(rows)[2 * h + par] == if par == 0 then rows[h] else Conj(rows[h])
  {
  }

  /** The Bessel prototype of order n: for odd n the real pole first, then each
      complex row of the order's slice followed by its conjugate. */
  function BesselPoles(n: nat): (poles: seq<Complex>)
    requires n <= MaxOrder
    ensures |poles| == n
  {
    BesselTableSize(n);
    LeadAndPairs(BesselTable(), BesselStart(n), n % 2, n / 2)
  }

  /** Pole i of order n is row n*n/4 + (i + n % 2) / 2 of the table, so order n reads
      only its own slice of rows: the lead of an odd order and the first of each pair
      read the row itself, the second of each pair its conjugate. */
  lemma BesselPolesRows(n: nat, i: nat)
    requires n <= MaxOrder && i < n
    ensures BesselStart(n + 1) <= |BesselTable()|
    ensures var row := BesselStart(n) + (i + n % 2) / 2;
      && BesselStart(n) <= row < BesselStart(n + 1)
      && (i < n % 2 ==> BesselPoles(n)[i] == BesselTable()[row])
      && (i >= n % 2 && (i - n % 2) % 2 == 0 ==> BesselPoles(n)[i] == BesselTable()[row])
      && (i >= n % 2 && (i - n % 2) % 2 == 1 ==> BesselPoles(n)[i] == Conj(BesselTable()[row]))
  {
    BesselTableSize(n);
    OrderRowAt(BesselTable(), n, BesselPoles(n), i);
  }

  /** `RowAt` for order n's slice of the table. */
  lemma OrderRowAt(table: seq<Complex>, n: nat, poles: seq<Complex>, i: nat)
    requires BesselStart(n + 1) <= |table| && i < n
    requires poles == LeadAndPairs(table, BesselStart(n), n % 2, n / 2)
    ensures var row := BesselStart(n) + (i + n % 2) / 2;
      && BesselStart(n) <= row < BesselStart(n + 1)
      && (i < n % 2 ==> poles[i] == table[row])
      && (i >= n % 2 && (i - n % 2) % 2 == 0 ==> poles[i] == table[row])
      && (i >= n % 2 && (i - n % 2) % 2 == 1 ==> poles[i] == Conj(table[row]))
  {
    BesselStartStep(n);
    RowAt(table, BesselStart(n), n % 2, n / 2, poles, i);
  }

  /** Order n reads n % 2 + n / 2 rows. */
  lemma BesselStartStep(n: nat)
    ensures BesselStart(n + 1) == BesselStart(n) + n % 2 + n / 2
  {
  }

  /** `LeadAndPairsAt` for the result of `LeadAndPairs` itself. */
  lemma RowAt(table: seq<Complex>, p: nat, o: nat, count: nat, poles: seq<Complex>, i: nat)
    requires o <= 1 && p + o + count <= |table|
    requires poles == LeadAndPairs(table, p, o, count)
    requires i < |poles|
    ensures var row := p + (i + o) / 2;
      && p <= row < p + o + count
      && (i < o ==> poles[i] == table[row])
      && (i >= o && (i - o) % 2 == 0 ==> poles[i] == table[row])
      && (i >= o && (i - o) % 2 == 1 ==> poles[i] == Conj(table[row]))
  {
    LeadAndPairsAt(table, p, o, count, poles, i);
  }

  /** After the leading real pole of an odd order, poles come in conjugate pairs. */
  lemma BesselPolesConjugatePairs(n: nat)
    requires n <= MaxOrder
    ensures forall i :: n % 2 <= i < n && (i - n % 2) % 2 == 1 ==>
      BesselPoles(n)[i] == Conj(BesselPoles(n)[i - 1])
  {
    BesselTableSize(n);
    assert BesselPoles(n) == LeadAndPairs(BesselTable(), BesselStart(n), n % 2, n / 2);
  }

  /** Every Bessel prototype is stable: all its poles lie in the left half-plane. */
  lemma BesselPolesStable(n: nat)
    requires n <= MaxOrder
    ensures forall i :: 0 <= i < n ==> BesselPoles(n)[i].re < 0.0
  {
    var poles := BesselPoles(n);
    forall i | 0 <= i < n
      ensures poles[i].re < 0.0
    {
      BesselPolesRows(n, i);
      var row := BesselStart(n) + (i + n % 2) / 2;
      assert BesselTable()[row].re < 0.0;
    }
  }

  /** A Bessel prototype of odd order starts with its real pole. */
  lemma BesselOddOrderRealFirst(n: nat)
    requires n <= MaxOrder && n % 2 == 1
    ensures BesselPoles(n)[0].im == 0.0
  {
    BesselTableSize(n);
    assert BesselPoles(n) == LeadAndPairs(BesselTable(), BesselStart(n), n % 2, n / 2);
    BesselOddStartsReal(n);
  }

  /** The angle of candidate i of a Butterworth filter of order n: i pi / n for odd n
      and (i + 1/2) pi / n for even n, so that no candidate sits on the imaginary axis. */
  function ButterworthAngle(m: Elementary, n: nat, i: nat): real
    requires n >= 1
  {
    if n % 2 == 1 then (i as real * m.pi) / (n as real) else ((i as real + 0.5) * m.pi) / (n as real)
  }

  function Candidate(m: Elementary, n: nat, i: nat): Complex
    requires n >= 1
  {
    Cis(m, ButterworthAngle(m, n, i))
  }

  /** The candidates i, ..., 2n - 1 that lie in the left half-plane, in order. */
  function ButterworthFrom(m: Elementary, n: nat, i: nat): (poles: seq<Complex>)
    ensures |poles| + i <= 2 * n || |poles| == 0
    ensures forall k :: 0 <= k < |poles| ==> poles[k].re < 0.0
    decreases 2 * n - i
  {
    if i >= 2 * n then []
    else
      var rest := ButterworthFrom(m, n, i + 1);
      if Candidate(m, n, i).re < 0.0 then [Candidate(m, n, i)] + rest else rest
  }

  /** The Butterworth prototype of order n: the left half-plane members of the 2n
      equally spaced points on the unit circle. */
  function ButterworthPoles(m: Elementary, n: nat): (poles: seq<Complex>)
    ensures |poles| <= 2 * n
    ensures forall k :: 0 <= k < |poles| ==> poles[k].re < 0.0
  {
    ButterworthFrom(m, n, 0)
  }

  /** The first kept candidate: the candidates Lo(n), ..., Lo(n) + n - 1 are kept. */
  function Lo(n: nat): nat {
    (n + 1) / 2
  }

  /** x pi / n compared with c pi is x compared with c n. */
  lemma AngleCompare(m: Elementary, x: real, n: real, c: real)
    requires PiPositive(m) && n > 0.0
    ensures (x * m.pi) / n > c * m.pi <==> x > c * n
    ensures (x * m.pi) / n < c * m.pi <==> x < c * n
  {
    DivCompare(x * m.pi, n, c * m.pi);
    assert x * m.pi - c * m.pi * n == (x - c * n) * m.pi;
    SignOfProduct(x - c * n, m.pi);
  }

  /** The candidates lie within one turn, and exactly the n candidates from Lo(n) on
      lie strictly between a quarter and three quarters of a turn. */
  lemma AngleWindow(m: Elementary, n: nat, i: nat)
    requires PiPositive(m)
    requires n >= 1 && i < 2 * n
    ensures 0.0 <= ButterworthAngle(m, n, i) < 2.0 * m.pi
    ensures m.pi / 2.0 < ButterworthAngle(m, n, i) < 3.0 * m.pi / 2.0 <==> Lo(n) <= i < Lo(n) + n
  {
    var a := ButterworthAngle(m, n, i);
    if n % 2 == 1 {
      OddWindow(n, i);
      ScaledAngle(m, i as real, n as real, a);
    } else {
      EvenWindow(n, i);
      ScaledAngle(m, i as real + 0.5, n as real, a);
    }
  }

  /** The angle a = x pi / d lies in [0, 2 pi) exactly when x lies in [0, 2 d), and
      strictly between pi/2 and 3 pi/2 exactly when x lies strictly between d/2 and
      3 d/2. */
  lemma ScaledAngle(m: Elementary, x: real, d: real, a: real)
    requires PiPositive(m) && d > 0.0 && a == (x * m.pi) / d
    ensures 0.0 <= a < 2.0 * m.pi <==> 0.0 <= x < 2.0 * d
    ensures m.pi / 2.0 < a < 3.0 * m.pi / 2.0 <==> 0.5 * d < x < 1.5 * d
  {
    AngleCompare(m, x, d, 0.0);
    AngleCompare(m, x, d, 2.0);
    AngleCompare(m, x, d, 0.5);
    AngleCompare(m, x, d, 1.5);
    assert m.pi / 2.0 == 0.5 * m.pi && 3.0 * m.pi / 2.0 == 1.5 * m.pi;
  }

  /** For odd n the candidate index i, in multiples of pi / n, lies strictly between
      n/2 and 3n/2 exactly for Lo(n) <= i < Lo(n) + n. */
  lemma OddWindow(n: nat, i: nat)
    requires n % 2 == 1
    ensures 0.0 <= i as real < 2.0 * (n as real) <==> i < 2 * n
    ensures 0.5 * (n as real) < i as real < 1.5 * (n as real) <==> Lo(n) <= i < Lo(n) + n
  {
    var k := n / 2;
    assert n == 2 * k + 1 && Lo(n) == k + 1;
    assert n as real == 2.0 * (k as real) + 1.0;
  }

  /** For even n the candidate i sits at i + 1/2 multiples of pi / n, strictly between
      n/2 and 3n/2 exactly for Lo(n) <= i < Lo(n) + n. */
  lemma EvenWindow(n: nat, i: nat)
    requires n % 2 == 0
    ensures 0.0 <= i as real + 0.5 < 2.0 * (n as real) <==> i < 2 * n
    ensures 0.5 * (n as real) < i as real + 0.5 < 1.5 * (n as real) <==> Lo(n) <= i < Lo(n) + n
  {
    var k := n / 2;
    assert n == 2 * k && Lo(n) == k;
    assert n as real == 2.0 * (k as real);
  }

  /** Candidate i is kept exactly when it is one of the n candidates from Lo(n) on. */
  lemma CandidateKept(m: Elementary, n: nat, i: nat)
    requires PiPositive(m) && HalfPlaneLaw(m)
    requires n >= 1 && i < 2 * n
    ensures Candidate(m, n, i).re < 0.0 <==> Lo(n) <= i < Lo(n) + n
  {
    AngleWindow(m, n, i);
  }

  /** The candidates a, ..., b - 1. */
  function Candidates(m: Elementary, n: nat, a: nat, b: nat): (c: seq<Complex>)
    requires n >= 1 && a <= b
    ensures |c| == b - a
    ensures forall k :: 0 <= k < |c| ==> c[k] == Candidate(m, n, a + k)
  {
    seq(b - a, k requires 0 <= k < b - a => Candidate(m, n, a + k))
  }

  lemma {:induction false} ButterworthFromWindow(m: Elementary, n: nat, i: nat)
    requires PiPositive(m) && HalfPlaneLaw(m)
    requires n >= 1 && i <= Lo(n) + n
    ensures var a := if i < Lo(n) then Lo(n) else i;
      ButterworthFrom(m, n, i) == Candidates(m, n, a, Lo(n) + n)
    decreases 2 * n - i
  {
    if i >= 2 * n {
    } else if i == Lo(n) + n {
      if i + 1 <= 2 * n {
        ButterworthNoneAfter(m, n, i);
      }
    } else {
      ButterworthFromWindow(m, n, i + 1);
      CandidateKept(m, n, i);
      if Lo(n) <= i {
        CandidatesCons(m, n, i, Lo(n) + n);
      }
    }
  }

  lemma CandidatesCons(m: Elementary, n: nat, a: nat, b: nat)
    requires n >= 1 && a < b
    ensures Candidates(m, n, a, b) == [Candidate(m, n, a)] + Candidates(m, n, a + 1, b)
  {
    assert Candidates(m, n, a, b)[1..] == Candidates(m, n, a + 1, b);
  }

  /** No candidate after the kept window is kept. */
  lemma {:induction false} ButterworthNoneAfter(m: Elementary, n: nat, i: nat)
    requires PiPositive(m) && HalfPlaneLaw(m)
    requires n >= 1 && Lo(n) + n <= i
    ensures ButterworthFrom(m, n, i) == []
    decreases 2 * n - i
  {
    if i < 2 * n {
      CandidateKept(m, n, i);
      ButterworthNoneAfter(m, n, i + 1);
    }
  }

  /** A Butterworth prototype of order n has exactly n poles: in order, the candidates
      Lo(n), ..., Lo(n) + n - 1, which `AngleWindow` places strictly between a quarter
      and three quarters of a turn. */
  lemma ButterworthPolesExact(m: Elementary, n: nat)
    requires PiPositive(m) && HalfPlaneLaw(m)
    ensures |ButterworthPoles(m, n)| == n
    ensures forall j :: Lo(n) <= j < Lo(n) + n ==> ButterworthPoles(m, n)[j - Lo(n)] == Candidate(m, n, j)
  {
    var poles := ButterworthPoles(m, n);
    if n >= 1 {
      ButterworthFromWindow(m, n, 0);
      var w := Candidates(m, n, Lo(n), Lo(n) + n);
      assert poles == w;
      forall j | Lo(n) <= j < Lo(n) + n
        ensures poles[j - Lo(n)] == Candidate(m, n, j)
      {
        assert w[j - Lo(n)] == Candidate(m, n, Lo(n) + (j - Lo(n)));
      }
    } else {
      assert poles == [];
    }
  }

  /** The Chebyshev stretch: real parts scaled by sinh y, imaginary parts by cosh y. */
  function Stretch(poles: seq<Complex>, sh: real, ch: real): (r: seq<Complex>)
    ensures |r| == |poles|
    ensures forall k :: 0 <= k < |poles| ==> r[k].re == poles[k].re * sh && r[k].im == poles[k].im * ch
  {
    seq(|poles|, k requires 0 <= k < |poles| => Complex(poles[k].re * sh, poles[k].im * ch))
  }

  /** A stretch with a positive real factor keeps every pole in the left half-plane. */
  lemma StretchStable(poles: seq<Complex>, sh: real, ch: real)
    requires sh > 0.0
    requires forall k :: 0 <= k < |poles| ==> poles[k].re < 0.0
    ensures forall k :: 0 <= k < |poles| ==> Stretch(poles, sh, ch)[k].re < 0.0
  {
    forall k | 0 <= k < |poles|
      ensures Stretch(poles, sh, ch)[k].re < 0.0
    {
      SignOfProduct(poles[k].re, sh);
    }
  }

  /** The ripple factor 10^(-ripple/10) - 1 is positive for a negative ripple, so the
      Chebyshev epsilon, its square root, is too. */
  function ChebyshevEpsilon(m: Elementary, ripple: real): (eps: real)
    requires WellDefined(m) && ripple < 0.0
    ensures eps > 0.0
  {
    var rip := Pow10(m, -ripple / 10.0);
    SqrtPositive(m, rip - 1.0);
    Sqrt(m, rip - 1.0)
  }

  /** y = asinh(1 / eps) / n. It is positive whenever asinh is positive on positive
      arguments, so the check that rejects y <= 0 never fires for a real asinh. */
  function ChebyshevY(m: Elementary, n: nat, ripple: real): (y: real)
    requires WellDefined(m) && n >= 1 && ripple < 0.0
    ensures AsinhLaw(m) ==> y > 0.0
  {
    var eps := ChebyshevEpsilon(m, ripple);
    DivCompare(1.0, eps, 0.0);
    var a := Asinh(m, 1.0 / eps);
    DivCompare(a, n as real, 0.0);
    a / (n as real)
  }

  /** The Chebyshev prototype: the Butterworth poles stretched onto an ellipse. A ripple
      that is not negative, and a non-positive y, are rejected. */
  function ChebyshevPoles(m: Elementary, n: nat, ripple: real): (r: Result<seq<Complex>>)
    requires WellDefined(m) && n >= 1
    ensures ripple >= 0.0 <==> r == Failure(RippleNotNegative(ripple))
    ensures r.Failure? && ripple < 0.0 ==> r.error == NonPositiveY(ChebyshevY(m, n, ripple))
    ensures r.Success? ==> ripple < 0.0 && ChebyshevY(m, n, ripple) > 0.0
    ensures r.Success? ==> |r.value| == |ButterworthPoles(m, n)|
    ensures r.Success? ==> var y := ChebyshevY(m, n, ripple);
      r.value == Stretch(ButterworthPoles(m, n), Sinh(m, y), Cosh(m, y))
  {
    if ripple >= 0.0 then Failure(RippleNotNegative(ripple))
    else
      var y := ChebyshevY(m, n, ripple);
      if y <= 0.0 then Failure(NonPositiveY(y))
      else Success(Stretch(ButterworthPoles(m, n), Sinh(m, y), Cosh(m, y)))
  }

  /** With the real arcsinh, every negative ripple is accepted: y is then positive. */
  lemma ChebyshevAccepts(m: Elementary, n: nat, ripple: real)
    requires WellDefined(m) && AsinhLaw(m) && n >= 1 && ripple < 0.0
    ensures ChebyshevPoles(m, n, ripple).Success?
  {
  }

  /** Chebyshev poles stay in the left half-plane. */
  lemma ChebyshevStable(m: Elementary, n: nat, ripple: real)
    requires WellDefined(m) && SinhLaw(m) && n >= 1
    ensures var r := ChebyshevPoles(m, n, ripple);
      r.Success? ==> forall k :: 0 <= k < |r.value| ==> r.value[k].re < 0.0
  {
    if ripple < 0.0 && ChebyshevY(m, n, ripple) > 0.0 {
      var y := ChebyshevY(m, n, ripple);
      StretchStable(ButterworthPoles(m, n), Sinh(m, y), Cosh(m, y));
    }
  }

  /** The s-plane poles of the low-pass prototype of the given family and order. */
  function SPlane(m: Elementary, family: Family, n: nat, ripple: real): (r: Result<seq<Complex>>)
    requires WellDefined(m) && 1 <= n <= MaxOrder
    ensures r.Failure? ==> family == Chebyshev
    ensures family == Chebyshev && ripple >= 0.0 ==> r == Failure(RippleNotNegative(ripple))
    ensures r.Success? ==> |r.value| <= 2 * n
    ensures family == Bessel ==> r == Success(BesselPoles(n))
    ensures family == Butterworth ==> r == Success(ButterworthPoles(m, n))
    ensures family == Chebyshev ==> r == ChebyshevPoles(m, n, ripple)
  {
    match family
    case Bessel => Success(BesselPoles(n))
    case Butterworth => Success(ButterworthPoles(m, n))
    case Chebyshev => ChebyshevPoles(m, n, ripple)
  }

  /** Every prototype that is produced has exactly n poles, all in the left half-plane;
      only a Chebyshev request with a ripple that is not negative is refused. */
  lemma SPlaneExact(m: Elementary, family: Family, n: nat, ripple: real)
    requires Lawful(m) && 1 <= n <= MaxOrder
    ensures SPlane(m, family, n, ripple).Success? <==> family != Chebyshev || ripple < 0.0
    ensures var r := SPlane(m, family, n, ripple);
      r.Success? ==> |r.value| == n && forall k :: 0 <= k < n ==> r.value[k].re < 0.0
  {
    ButterworthPolesExact(m, n);
    match family
    case Bessel =>
      BesselPolesStable(n);
    case Butterworth =>
    case Chebyshev =>
      if ripple < 0.0 {
        ChebyshevAccepts(m, n, ripple);
      }
      ChebyshevStable(m, n, ripple);
  }
}
