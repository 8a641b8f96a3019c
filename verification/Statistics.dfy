/**
 The analyzer's means, deviations and z-scores over the reals. The square root is a
 parameter.
 */
module Statistics {
  import opened Sums

  /** A function that is the square root wherever there is one. */
  ghost predicate IsRoot(sqrt: real -> real) {
    forall v :: v >= 0.0 ==> sqrt(v) >= 0.0 && sqrt(v) * sqrt(v) == v
  }

  function Abs(v: real): real {
    if v < 0.0 then -v else v
  }

  function Mean(s: seq<real>): real
    requires s != []
  {
    Sum(s) / |s| as real
  }

  /** The deviations from the mean. */
  function Deviations(s: seq<real>): (r: seq<real>)
    requires s != []
    ensures |r| == |s|
  {
    Shift(s, Mean(s))
  }

  function Variance(s: seq<real>): real
    requires s != []
  {
    SumSquares(Deviations(s)) / |s| as real
  }

  lemma DeviationsCancel(s: seq<real>)
    requires s != []
    ensures Sum(Deviations(s)) == 0.0
  {
    SumShift(s, Mean(s));
  }

  // ----- Anomalies -----

  /** The square of the last of some numbers that add up to zero is bounded by the squares of the others. */
  lemma {:induction false} LastDeviation(d: seq<real>)
    requires d != [] && Sum(d) == 0.0
    ensures |d| as real * (d[|d| - 1] * d[|d| - 1]) <= (|d| - 1) as real * SumSquares(d)
  {
    var n, last, rest := |d|, d[|d| - 1], d[..|d| - 1];
    assert d == rest + [last];
    SumAppend(rest, last);
    SquaresAppend(rest, last);
    MeanSquare(rest);
    hide Sum, Dot, SumSquares;
    Opposite(Sum(rest), last);
    Spread((n - 1) as real, last * last, SumSquares(rest));
  }

  lemma {:induction false} SquaresAppend(s: seq<real>, v: real)
    ensures SumSquares(s + [v]) == SumSquares(s) + v * v
  {
    DotAppend(s, s, v, v);
  }

  lemma Opposite(a: real, b: real)
    requires a + b == 0.0
    ensures a * a == b * b
  {
    assert a == -b;
  }

  lemma Spread(m: real, q: real, ss: real)
    requires q <= m * ss
    ensures (m + 1.0) * q <= m * (ss + q)
  {
    assert (m + 1.0) * q == m * q + q;
    assert m * (ss + q) == m * ss + m * q;
  }

  /** No value lies further from the mean than the root of n - 1 standard deviations. */
  lemma DeviationBound(s: seq<real>)
    requires s != []
    ensures var d := s[|s| - 1] - Mean(s); d * d <= (|s| - 1) as real * Variance(s)
  {
    var devs := Deviations(s);
    DeviationsCancel(s);
    LastDeviation(devs);
    var n, d := |s| as real, s[|s| - 1] - Mean(s);
    var ss := SumSquares(devs);
    hide Deviations, Mean;
    assert devs[|s| - 1] == d;
    Divided(n, d * d, (|s| - 1) as real, ss);
  }

  lemma Divided(n: real, q: real, m: real, ss: real)
    requires n > 0.0 && n * q <= m * ss
    ensures q <= m * (ss / n)
  {
    var v := ss / n;
    assert m * ss == n * (m * v);
    NoLarger(n, q, m * v);
  }

  lemma NoLarger(n: real, a: real, b: real)
    requires n > 0.0 && n * a <= n * b
    ensures a <= b
  {
  }

  /** How many standard deviations the last of some samples lies from their mean. */
  function Score(s: seq<real>, sqrt: real -> real): real
    requires s != []
  {
    var sigma := sqrt(Variance(s));
    if sigma == 0.0 then 0.0 else Abs(s[|s| - 1] - Mean(s)) / sigma
  }

  /** What `DetectAnomaly` reports for the last of some samples. */
  predicate Anomalous(s: seq<real>, sqrt: real -> real) {
    s != [] && Score(s, sqrt) > 3.0
  }

  lemma VarianceNonNegative(s: seq<real>)
    requires s != []
    ensures Variance(s) >= 0.0
  {
    SquaresNonNegative(Deviations(s));
  }

  /** Comparing with three deviations is comparing squares with nine variances. */
  lemma ThreeSigma(d: real, v: real, root: real)
    requires v >= 0.0 && root >= 0.0 && root * root == v && root != 0.0
    ensures Abs(d) / root > 3.0 <==> d * d > 9.0 * v
  {
    var a := Abs(d);
    assert a * a == d * d;
    assert a / root > 3.0 <==> a > 3.0 * root by {
      var z := a / root;
      assert a == z * root;
      if z > 3.0 { Times(z - 3.0, root); }
      if a > 3.0 * root && z <= 3.0 { NotLess(3.0 - z, root); }
    }
    SquareOrder(a, 3.0 * root);
    assert 3.0 * root * (3.0 * root) == 9.0 * v;
  }

  lemma Times(a: real, b: real)
    requires a > 0.0 && b > 0.0
    ensures a * b > 0.0
  {
  }

  lemma NotLess(a: real, b: real)
    requires a >= 0.0 && b >= 0.0
    ensures a * b >= 0.0
  {
  }

  lemma SquareOrder(a: real, b: real)
    requires a >= 0.0 && b >= 0.0
    ensures a > b <==> a * a > b * b
  {
    assert a * a - b * b == (a - b) * (a + b);
    if a > b { Times(a - b, a + b); } else { NotLess(b - a, a + b); }
  }

  /** The score is the size of the last deviation in standard deviations; without spread it is 0. */
  lemma ScoreMeans(s: seq<real>, sqrt: real -> real)
    requires IsRoot(sqrt) && s != []
    ensures var d := s[|s| - 1] - Mean(s);
            && Score(s, sqrt) >= 0.0 && Score(s, sqrt) * Score(s, sqrt) * Variance(s) == d * d
            && (Variance(s) == 0.0 ==> Score(s, sqrt) == 0.0)
            && (Anomalous(s, sqrt) <==> d * d > 9.0 * Variance(s))
  {
    DeviationBound(s);
    VarianceNonNegative(s);
    var d, v := s[|s| - 1] - Mean(s), Variance(s);
    hide Mean, Variance;
    var root := sqrt(v);
    assert root >= 0.0 && root * root == v;
    if root == 0.0 {
      assert v == 0.0 && d * d <= 0.0;
    } else {
      RatioSquare(Abs(d), root, d, v);
      ThreeSigma(d, v, root);
    }
  }

  lemma RatioSquare(a: real, root: real, d: real, v: real)
    requires root > 0.0 && root * root == v && a >= 0.0 && (a == d || a == -d)
    ensures a / root >= 0.0 && a / root * (a / root) * v == d * d
  {
    var z := a / root;
    assert z * root == a;
    assert z * z * v == (z * root) * (z * root);
    if z < 0.0 { Times(-z, root); }
  }

  /** With at most ten samples, however extreme the last, nothing is ever reported. */
  lemma TenNeverReport(s: seq<real>, sqrt: real -> real)
    requires IsRoot(sqrt) && 1 <= |s| <= 10
    ensures !Anomalous(s, sqrt)
  {
    DeviationBound(s);
    VarianceNonNegative(s);
    var d, v := s[|s| - 1] - Mean(s), Variance(s);
    hide Mean, Variance;
    if sqrt(v) != 0.0 {
      ThreeSigma(d, v, sqrt(v));
      NotLess((10 - |s|) as real, v);
    }
  }

  /** All zeros but for a last one. */
  function Spike(n: nat): (s: seq<real>)
    requires n >= 1
    ensures |s| == n
  {
    seq(n - 1, _ => 0.0) + [1.0]
  }

  lemma {:induction false} ZerosSum(n: nat)
    ensures Sum(seq(n, _ => 0.0)) == 0.0 && SumSquares(seq(n, _ => 0.0)) == 0.0
  {
    var z := seq(n, _ => 0.0);
    if n > 0 {
      ZerosSum(n - 1);
      assert z[1..] == seq(n - 1, _ => 0.0);
    }
  }

  lemma {:induction false} ShiftIsBlend(s: seq<real>, c: real)
    ensures Shift(s, c) == Blend(s, Ones(|s|), 1.0, c)
  {
    if s != [] {
      ShiftTail(s, c);
      ShiftIsBlend(s[1..], c);
      assert Ones(|s|)[1..] == Ones(|s[1..]|);
    }
  }

  lemma {:induction false} SquaresShift(s: seq<real>, c: real)
    ensures SumSquares(Shift(s, c)) == Quad(1.0, c, SumSquares(s), Sum(s), |s| as real)
  {
    hide Quad, Sum, SumSquares, Shift, Blend, Dot;
    ShiftIsBlend(s, c);
    BlendSquares(s, Ones(|s|), 1.0, c);
    DotOnes(s);
  }

  lemma SpikeMoments(n: nat)
    requires n >= 1
    ensures var c := 1.0 / n as real;
            Mean(Spike(n)) == c && Variance(Spike(n)) == (1.0 - c) * c
  {
    var s, zeros, c := Spike(n), seq(n - 1, _ => 0.0), 1.0 / n as real;
    ZerosSum(n - 1);
    SumAppend(zeros, 1.0);
    SquaresAppend(zeros, 1.0);
    assert Sum(s) == 1.0 && SumSquares(s) == 1.0;
    SquaresShift(s, c);
    hide Sum, SumSquares, Shift, Quad;
    Unit(n as real, c);
  }

  lemma Unit(n: real, c: real)
    requires n > 0.0 && c == 1.0 / n
    ensures Quad(1.0, c, 1.0, 1.0, n) == 1.0 - c
    ensures (1.0 - c) / n == (1.0 - c) * c
  {
    assert c * n == 1.0;
    assert c * c * n == c * (c * n);
    var q := (1.0 - c) / n;
    assert q * n == 1.0 - c;
    assert (1.0 - c) * c == q * n * c == q * (n * c);
  }

  /** From eleven samples on a single spike is reported: the minimum of ten is one too low for the test to act. */
  lemma ElevenCanReport(n: nat, sqrt: real -> real)
    requires IsRoot(sqrt) && n >= 11
    ensures Anomalous(Spike(n), sqrt)
  {
    SpikeMoments(n);
    var s, c := Spike(n), 1.0 / n as real;
    var v, d := Variance(s), s[n - 1] - Mean(s);
    hide Variance, Mean, Spike;
    SmallUnit(n as real, c);
    PositiveProduct(1.0 - c, c, v);
    var root := sqrt(v);
    assert root * root == v;
    RootPositive(root, v);
    ThreeSigma(d, v, root);
    Beats(c, v, d);
  }

  lemma SmallUnit(n: real, c: real)
    requires n > 10.0 && c == 1.0 / n
    ensures 0.0 < c && 10.0 * c < 1.0
  {
    assert c * n == 1.0;
    if c <= 0.0 { NotLess(-c, n); }
    var p := c * (n - 10.0);
    PositiveProduct(c, n - 10.0, p);
    assert p == 1.0 - 10.0 * c;
  }

  lemma RootPositive(root: real, v: real)
    requires v > 0.0 && root * root == v
    ensures root != 0.0
  {
  }

  lemma Beats(c: real, v: real, d: real)
    requires 0.0 < c && 10.0 * c < 1.0 && v == (1.0 - c) * c && d == 1.0 - c
    ensures d * d > 9.0 * v
  {
    var gap := (1.0 - c) * (1.0 - 10.0 * c);
    PositiveProduct(1.0 - c, 1.0 - 10.0 * c, gap);
    assert d * d - 9.0 * v == gap;
  }
}
