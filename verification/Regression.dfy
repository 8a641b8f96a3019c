/**
 The linear regression behind trend analysis: the line it finds is the best one, and the
 correlation it reports measures exactly how well that line fits.
 */
module Regression {
  import opened Sums
  import opened Statistics

  /** How far each point lies above a line. */
  function Offsets(x: seq<real>, y: seq<real>, intercept: real, slope: real): (r: seq<real>)
    requires |x| == |y|
    ensures |r| == |x|
  {
    seq(|x|, i requires 0 <= i < |x| => y[i] - intercept - slope * x[i])
  }

  /** The sum of the squared distances of the points from a line. */
  function Residual(x: seq<real>, y: seq<real>, intercept: real, slope: real): real
    requires |x| == |y|
  {
    SumSquares(Offsets(x, y, intercept, slope))
  }

  /** The slope `linearRegression` returns. */
  function Slope(x: seq<real>, y: seq<real>): real
    requires |x| == |y| > 0
  {
    var sxx := SumSquares(Deviations(x));
    if sxx == 0.0 then 0.0 else Dot(Deviations(x), Deviations(y)) / sxx
  }

  lemma {:induction false} BlendAt(x: seq<real>, y: seq<real>, a: real, b: real, i: nat)
    requires |x| == |y| && i < |x|
    ensures Blend(x, y, a, b)[i] == a * x[i] - b * y[i]
    decreases i
  {
    if i > 0 { BlendAt(x[1..], y[1..], a, b, i - 1); }
  }

  lemma SameDistance(x: real, y: real, a: real, b: real, mx: real, my: real)
    ensures y - a - b * x == 1.0 * (y - my) - b * (x - mx) - -(my - a - b * mx)
  {
  }

  lemma {:induction false} BlendSum(x: seq<real>, y: seq<real>, a: real, b: real)
    requires |x| == |y|
    ensures Sum(Blend(x, y, a, b)) == Combine(a, Sum(x), b, Sum(y))
  {
    if x != [] {
      BlendSum(x[1..], y[1..], a, b);
      Distribute(a, x[0], Sum(x[1..]), b, y[0], Sum(y[1..]));
      hide Combine;
    }
  }

  function Combine(a: real, x: real, b: real, y: real): real {
    a * x - b * y
  }

  lemma Distribute(a: real, x: real, s: real, b: real, y: real, t: real)
    ensures (a * x - b * y) + Combine(a, s, b, t) == Combine(a, x + s, b, y + t)
  {
  }

  /** The deviations of y, less b times those of x. */
  function Centered(x: seq<real>, y: seq<real>, b: real): (r: seq<real>)
    requires |x| == |y| > 0
    ensures |r| == |x|
  {
    Blend(Deviations(y), Deviations(x), 1.0, b)
  }

  lemma {:induction false} CenteredMoments(x: seq<real>, y: seq<real>, b: real)
    requires |x| == |y| > 0
    ensures Sum(Centered(x, y, b)) == 0.0
    ensures SumSquares(Centered(x, y, b)) ==
            Quad(1.0, b, SumSquares(Deviations(y)), Dot(Deviations(y), Deviations(x)), SumSquares(Deviations(x)))
  {
    assert Combine(1.0, 0.0, b, 0.0) == 0.0;
    hide Sum, SumSquares, Dot, Deviations, Blend, Quad, Combine;
    DeviationsCancel(x);
    DeviationsCancel(y);
    BlendSum(Deviations(y), Deviations(x), 1.0, b);
    BlendSquares(Deviations(y), Deviations(x), 1.0, b);
  }

  /** How far the line passes above or below the point of the means. */
  function Gap(x: seq<real>, y: seq<real>, a: real, b: real): real
    requires |x| == |y| > 0
  {
    Mean(y) - a - b * Mean(x)
  }

  lemma {:induction false} OffsetsAreShifted(x: seq<real>, y: seq<real>, a: real, b: real)
    requires |x| == |y| > 0
    ensures Offsets(x, y, a, b) == Shift(Centered(x, y, b), -Gap(x, y, a, b))
  {
    hide Centered, Gap;
    var r := Shift(Centered(x, y, b), -Gap(x, y, a, b));
    forall i | 0 <= i < |x| ensures Offsets(x, y, a, b)[i] == r[i] {
      OffsetAt(x, y, a, b, i);
    }
  }

  lemma {:induction false} OffsetAt(x: seq<real>, y: seq<real>, a: real, b: real, i: nat)
    requires |x| == |y| && i < |x|
    ensures y[i] - a - b * x[i] == Centered(x, y, b)[i] - -Gap(x, y, a, b)
  {
    hide Mean, Blend;
    BlendAt(Deviations(y), Deviations(x), 1.0, b, i);
    SameDistance(x[i], y[i], a, b, Mean(x), Mean(y));
  }

  /** What missing the means adds to the residual. */
  function Extra(k: real, n: real): real {
    k * k * n
  }

  /** A line's residual, split into the part its slope decides and the part its offset adds. */
  lemma {:induction false} ResidualSplit(x: seq<real>, y: seq<real>, a: real, b: real)
    requires |x| == |y| > 0
    ensures var dx, dy := Deviations(x), Deviations(y);
            Residual(x, y, a, b) ==
            Quad(1.0, b, SumSquares(dy), Dot(dy, dx), SumSquares(dx)) + Extra(Gap(x, y, a, b), |x| as real)
  {
    hide Sum, SumSquares, Dot, Offsets, Centered, Deviations, Shift, Quad, Gap, Extra;
    CenteredMoments(x, y, b);
    OffsetsAreShifted(x, y, a, b);
    SquaresShift(Centered(x, y, b), -Gap(x, y, a, b));
    QuadExtra(SumSquares(Centered(x, y, b)), Gap(x, y, a, b), |x| as real);
  }

  lemma QuadExtra(p: real, k: real, n: real)
    ensures Quad(1.0, -k, p, 0.0, n) == p + Extra(k, n)
  {
  }

  /** The line through the point of the means with a given slope. */
  function Intercept(x: seq<real>, y: seq<real>, slope: real): real
    requires |x| == |y| > 0
  {
    Mean(y) - slope * Mean(x)
  }

  /** No line fits the points better than the one through the means with the computed slope. */
  lemma {:induction false} LeastSquares(x: seq<real>, y: seq<real>, a: real, b: real)
    requires |x| == |y| > 0
    ensures var s := Slope(x, y); Residual(x, y, Intercept(x, y, s), s) <= Residual(x, y, a, b)
  {
    var dx, dy, s := Deviations(x), Deviations(y), Slope(x, y);
    hide Sum, SumSquares, Dot, Deviations, Mean, Residual, Quad, Gap, Extra, Slope, Intercept;
    BestResidual(x, y);
    ResidualSplit(x, y, a, b);
    NormalEquation(x, y);
    ExtraNotNegative(Gap(x, y, a, b), |x| as real);
    BestSlope(SumSquares(dy), Dot(dy, dx), SumSquares(dx), s, b);
  }

  lemma {:induction false} BestResidual(x: seq<real>, y: seq<real>)
    requires |x| == |y| > 0
    ensures var dx, dy, s := Deviations(x), Deviations(y), Slope(x, y);
            Residual(x, y, Intercept(x, y, s), s) == Quad(1.0, s, SumSquares(dy), Dot(dy, dx), SumSquares(dx))
  {
    hide Sum, SumSquares, Dot, Deviations, Mean, Residual, Quad, Slope;
    var s := Slope(x, y);
    ResidualSplit(x, y, Intercept(x, y, s), s);
    assert Gap(x, y, Intercept(x, y, s), s) == 0.0;
  }

  /** The slope solves the normal equation, also where all x agree. */
  lemma {:induction false} NormalEquation(x: seq<real>, y: seq<real>)
    requires |x| == |y| > 0
    ensures var dx, dy := Deviations(x), Deviations(y);
            SumSquares(dx) >= 0.0 && Slope(x, y) * SumSquares(dx) == Dot(dy, dx)
  {
    var dx, dy := Deviations(x), Deviations(y);
    hide Sum, SumSquares, Dot, Deviations;
    DotCommutes(dx, dy);
    SquaresNonNegative(dx);
    if SumSquares(dx) == 0.0 { ZeroDot(dy, dx); }
  }

  lemma {:induction false} DotCommutes(x: seq<real>, y: seq<real>)
    requires |x| == |y|
    ensures Dot(x, y) == Dot(y, x)
  {
    if x != [] { DotCommutes(x[1..], y[1..]); }
  }

  lemma ExtraNotNegative(k: real, n: real)
    requires n >= 0.0
    ensures Extra(k, n) >= 0.0
  {
    NotLess(k * k, n);
  }

  lemma BestSlope(syy: real, sxy: real, sxx: real, s: real, b: real)
    requires sxx >= 0.0 && s * sxx == sxy
    ensures Quad(1.0, s, syy, sxy, sxx) <= Quad(1.0, b, syy, sxy, sxx)
  {
    ExtraNotNegative(b - s, sxx);
    assert Quad(1.0, b, syy, sxy, sxx) - Quad(1.0, s, syy, sxy, sxx) == Extra(b - s, sxx);
  }

  // ----- Correlation -----

  /** The correlation `linearRegression` returns. */
  function Correlation(x: seq<real>, y: seq<real>, sqrt: real -> real): real
    requires |x| == |y| > 0
  {
    var dx, dy := Deviations(x), Deviations(y);
    Coefficient(SumSquares(dx), Dot(dx, dy), SumSquares(dy), sqrt)
  }

  function Coefficient(sxx: real, sxy: real, syy: real, sqrt: real -> real): real {
    if sxx == 0.0 then 0.0
    else if syy == 0.0 then 1.0
    else
      var root := sqrt(sxx * syy);
      if root == 0.0 then 0.0 else sxy / root
  }

  lemma RootOfProduct(p: real, sqrt: real -> real, root: real)
    requires IsRoot(sqrt) && p > 0.0 && root == sqrt(p)
    ensures root > 0.0 && root * root == p
  {
    assert root * root == p;
    RootPositive(root, p);
  }

  /** With spread on both axes, the part of y's spread the best line leaves is one less the correlation squared. */
  lemma {:induction false} Explained(x: seq<real>, y: seq<real>, sqrt: real -> real)
    requires |x| == |y| > 0 && IsRoot(sqrt) && SumSquares(Deviations(x)) != 0.0 && SumSquares(Deviations(y)) != 0.0
    ensures var s, r := Slope(x, y), Correlation(x, y, sqrt);
            Residual(x, y, Intercept(x, y, s), s) == Left(SumSquares(Deviations(y)), r)
  {
    var dx, dy := Deviations(x), Deviations(y);
    hide Sum, SumSquares, Dot, Deviations, Mean, Residual, Quad, Intercept, Slope, Coefficient, IsRoot, Left;
    BestResidual(x, y);
    NormalEquation(x, y);
    SquaresNonNegative(dy);
    DotCommutes(dx, dy);
    CoefficientLeaves(SumSquares(dx), Dot(dx, dy), SumSquares(dy), sqrt, Slope(x, y));
  }

  function Left(syy: real, r: real): real {
    syy * (1.0 - r * r)
  }

  lemma CoefficientLeaves(sxx: real, sxy: real, syy: real, sqrt: real -> real, s: real)
    requires IsRoot(sqrt) && sxx > 0.0 && syy > 0.0 && s * sxx == sxy
    ensures Quad(1.0, s, syy, sxy, sxx) == Left(syy, Coefficient(sxx, sxy, syy, sqrt))
  {
    var p := sxx * syy;
    var root := sqrt(p);
    PositiveProduct(sxx, syy, p);
    RootOfProduct(p, sqrt, root);
    var r := sxy / root;
    assert Coefficient(sxx, sxy, syy, sqrt) == r;
    hide Coefficient, IsRoot;
    LeftOver(sxx, sxy, syy, s, root, r);
  }

  lemma LeftOver(sxx: real, sxy: real, syy: real, s: real, root: real, r: real)
    requires sxx != 0.0 && root != 0.0 && s * sxx == sxy && r == sxy / root && root * root == sxx * syy
    ensures Quad(1.0, s, syy, sxy, sxx) == Left(syy, r)
  {
    assert Quad(1.0, s, syy, sxy, sxx) == syy - s * sxy;
    assert r * root == sxy;
    var p, q := s * sxy, syy * (r * r);
    assert sxx * p == sxy * sxy;
    assert sxx * q == (sxx * syy) * (r * r) == (r * root) * (r * root);
    Cancel(sxx, p, q);
  }

  lemma Cancel(a: real, p: real, q: real)
    requires a != 0.0 && a * p == a * q
    ensures p == q
  {
  }

  /** The correlation lies between -1 and 1, and so the confidence between 0 and 100. */
  lemma {:induction false} CorrelationBounded(x: seq<real>, y: seq<real>, sqrt: real -> real)
    requires |x| == |y| > 0 && IsRoot(sqrt)
    ensures -1.0 <= Correlation(x, y, sqrt) <= 1.0
    ensures 0.0 <= Confidence(Correlation(x, y, sqrt)) <= 100.0
  {
    var dx, dy := Deviations(x), Deviations(y);
    hide Sum, SumSquares, Dot, Deviations, Coefficient, IsRoot;
    SquaresNonNegative(dx);
    SquaresNonNegative(dy);
    CauchySchwarz(dx, dy);
    CoefficientBounded(SumSquares(dx), Dot(dx, dy), SumSquares(dy), sqrt);
  }

  lemma CoefficientBounded(sxx: real, sxy: real, syy: real, sqrt: real -> real)
    requires IsRoot(sqrt) && sxx >= 0.0 && syy >= 0.0 && sxy * sxy <= sxx * syy
    ensures -1.0 <= Coefficient(sxx, sxy, syy, sqrt) <= 1.0
  {
    if sxx > 0.0 && syy > 0.0 {
      var p := sxx * syy;
      PositiveProduct(sxx, syy, p);
      RootOfProduct(p, sqrt, sqrt(p));
      Ratio(sxy, sqrt(p));
    }
  }

  lemma Ratio(a: real, root: real)
    requires root > 0.0 && a * a <= root * root
    ensures -1.0 <= a / root <= 1.0
  {
    var q := a / root;
    assert a == q * root;
    SquareOrder(Abs(a), root);
    if q > 1.0 { Times(q - 1.0, root); }
    if q < -1.0 { Times(-1.0 - q, root); }
  }

  function Confidence(correlation: real): real {
    Abs(correlation) * 100.0
  }

  /** Where y varies, correlation and slope have the same sign. */
  lemma {:induction false} CorrelationSign(x: seq<real>, y: seq<real>, sqrt: real -> real)
    requires |x| == |y| > 0 && IsRoot(sqrt) && SumSquares(Deviations(x)) != 0.0 && SumSquares(Deviations(y)) != 0.0
    ensures Correlation(x, y, sqrt) > 0.0 <==> Slope(x, y) > 0.0
    ensures Correlation(x, y, sqrt) < 0.0 <==> Slope(x, y) < 0.0
  {
    var dx, dy := Deviations(x), Deviations(y);
    hide Sum, SumSquares, Dot, Deviations;
    SquaresNonNegative(dx);
    SquaresNonNegative(dy);
    var p := SumSquares(dx) * SumSquares(dy);
    PositiveProduct(SumSquares(dx), SumSquares(dy), p);
    RootOfProduct(p, sqrt, sqrt(p));
    hide IsRoot;
    SameSign(Dot(dx, dy), SumSquares(dx));
    SameSign(Dot(dx, dy), sqrt(p));
  }

  lemma SameSign(a: real, b: real)
    requires b > 0.0
    ensures a / b > 0.0 <==> a > 0.0
    ensures a / b < 0.0 <==> a < 0.0
  {
    var q := a / b;
    assert q * b == a;
    if q > 0.0 { Times(q, b); }
    if q < 0.0 { Times(-q, b); }
  }

  /** Where y is level the correlation is 1; where all x agree there is neither slope nor correlation. */
  lemma DegenerateCases(x: seq<real>, y: seq<real>, sqrt: real -> real)
    requires |x| == |y| > 0
    ensures SumSquares(Deviations(x)) == 0.0 ==> Slope(x, y) == 0.0 && Correlation(x, y, sqrt) == 0.0
    ensures SumSquares(Deviations(x)) != 0.0 && SumSquares(Deviations(y)) == 0.0 ==> Correlation(x, y, sqrt) == 1.0
  {
    hide Sum, SumSquares, Dot, Deviations;
  }

  /** The confidence squared is the share of y's spread, in ten-thousandths, that the best line explains. */
  lemma {:induction false} ConfidenceShare(x: seq<real>, y: seq<real>, sqrt: real -> real)
    requires |x| == |y| > 0 && IsRoot(sqrt) && SumSquares(Deviations(x)) != 0.0 && SumSquares(Deviations(y)) != 0.0
    ensures var s, c := Slope(x, y), Confidence(Correlation(x, y, sqrt));
            10000.0 * Residual(x, y, Intercept(x, y, s), s) == SumSquares(Deviations(y)) * (10000.0 - c * c)
  {
    hide Sum, SumSquares, Dot, Deviations, Residual, Intercept, Slope, Correlation, IsRoot;
    Explained(x, y, sqrt);
    Share(SumSquares(Deviations(y)), Correlation(x, y, sqrt));
  }

  lemma Share(syy: real, r: real)
    ensures 10000.0 * Left(syy, r) == syy * (10000.0 - Confidence(r) * Confidence(r))
  {
    assert Confidence(r) * Confidence(r) == 10000.0 * (r * r);
  }

  /** Full confidence is reported exactly where every point lies on the best line. */
  lemma {:induction false} FullConfidence(x: seq<real>, y: seq<real>, sqrt: real -> real)
    requires |x| == |y| > 0 && IsRoot(sqrt) && SumSquares(Deviations(x)) != 0.0
    ensures var s := Slope(x, y);
            Confidence(Correlation(x, y, sqrt)) == 100.0 <==> OnLine(x, y, Intercept(x, y, s), s)
  {
    var s, r := Slope(x, y), Correlation(x, y, sqrt);
    var a, syy := Intercept(x, y, s), SumSquares(Deviations(y));
    OnLineIff(x, y, a, s);
    hide Sum, SumSquares, Dot, Deviations, Residual, Intercept, Slope, OnLine, Left, IsRoot;
    if syy == 0.0 {
      FlatResidual(x, y);
    } else {
      Explained(x, y, sqrt);
      hide Correlation;
      NoneLeft(syy, r);
    }
  }

  lemma NoneLeft(syy: real, r: real)
    requires syy != 0.0
    ensures Left(syy, r) == 0.0 <==> Confidence(r) == 100.0
  {
    var rest := 1.0 - r * r;
    if Confidence(r) == 100.0 {
      assert r == 1.0 || r == -1.0;
    } else if Left(syy, r) == 0.0 {
      Cancel(syy, rest, 0.0);
      Roots(r);
    }
  }

  lemma Roots(r: real)
    requires 1.0 - r * r == 0.0
    ensures r == 1.0 || r == -1.0
  {
    assert (1.0 - r) * (1.0 + r) == 0.0;
  }

  ghost predicate OnLine(x: seq<real>, y: seq<real>, a: real, b: real)
    requires |x| == |y|
  {
    forall i :: 0 <= i < |x| ==> y[i] == a + b * x[i]
  }

  lemma {:induction false} OnLineIff(x: seq<real>, y: seq<real>, a: real, b: real)
    requires |x| == |y|
    ensures Residual(x, y, a, b) == 0.0 <==> OnLine(x, y, a, b)
  {
    var o := Offsets(x, y, a, b);
    if OnLine(x, y, a, b) {
      AllZeroDot(o, o);
    } else {
      var i :| 0 <= i < |x| && y[i] != a + b * x[i];
      SquaresPositive(o, i);
    }
  }

  /** Where y does not vary the best line is level and fits exactly. */
  lemma {:induction false} FlatResidual(x: seq<real>, y: seq<real>)
    requires |x| == |y| > 0 && SumSquares(Deviations(y)) == 0.0
    ensures var s := Slope(x, y); Residual(x, y, Intercept(x, y, s), s) == 0.0
  {
    var dx, dy := Deviations(x), Deviations(y);
    hide Sum, SumSquares, Dot, Deviations, Residual, Intercept, Slope, Quad;
    BestResidual(x, y);
    NormalEquation(x, y);
    ZeroDot(dx, dy);
    DotCommutes(dx, dy);
    Level(SumSquares(dx), Slope(x, y));
  }

  lemma Level(sxx: real, s: real)
    requires s * sxx == 0.0
    ensures Quad(1.0, s, 0.0, 0.0, sxx) == 0.0
  {
    assert s * s * sxx == s * (s * sxx);
  }

  // ----- Samples taken at equal steps -----

  /** The x values of a trend: the samples' positions. */
  function Positions(n: nat): (r: seq<real>)
    ensures |r| == n
  {
    seq(n, i => i as real)
  }

  /** Two positions already differ, so a trend never takes the branch of equal x values. */
  lemma {:induction false} PositionsSpread(n: nat)
    requires n >= 2
    ensures SumSquares(Deviations(Positions(n))) > 0.0
  {
    var d := Deviations(Positions(n));
    hide Mean;
    assert d[1] - d[0] == 1.0;
    hide SumSquares;
    if d[0] != 0.0 { SquaresPositive(d, 0); } else { SquaresPositive(d, 1); }
  }

  /** On points that lie on a line the slope found is that line's. */
  lemma {:induction false} SlopeOfLine(x: seq<real>, y: seq<real>, a: real, b: real)
    requires |x| == |y| > 0 && SumSquares(Deviations(x)) != 0.0 && OnLine(x, y, a, b)
    ensures Slope(x, y) == b
  {
    var dx, dy := Deviations(x), Deviations(y);
    hide Sum, SumSquares, Dot, Deviations, Residual, Quad, Slope, Extra, Intercept, OnLine, Gap;
    NormalEquation(x, y);
    LineQuad(x, y, a, b);
    BestResidual(x, y);
    BestNonNegative(x, y);
    SquaresNonNegative(dx);
    UniqueSlope(SumSquares(dy), Dot(dy, dx), SumSquares(dx), Slope(x, y), b);
  }

  /** On a line the part of the residual that a slope decides is not above 0. */
  lemma LineQuad(x: seq<real>, y: seq<real>, a: real, b: real)
    requires |x| == |y| > 0 && OnLine(x, y, a, b)
    ensures var dx, dy := Deviations(x), Deviations(y);
            Quad(1.0, b, SumSquares(dy), Dot(dy, dx), SumSquares(dx)) <= 0.0
  {
    hide Sum, SumSquares, Dot, Deviations, Residual, Quad, Extra, Intercept, OnLine, Gap;
    OnLineIff(x, y, a, b);
    ResidualSplit(x, y, a, b);
    ExtraNotNegative(Gap(x, y, a, b), |x| as real);
  }

  lemma BestNonNegative(x: seq<real>, y: seq<real>)
    requires |x| == |y| > 0
    ensures Residual(x, y, Intercept(x, y, Slope(x, y)), Slope(x, y)) >= 0.0
  {
    hide SumSquares, Slope, Intercept;
    SquaresNonNegative(Offsets(x, y, Intercept(x, y, Slope(x, y)), Slope(x, y)));
  }

  lemma UniqueSlope(syy: real, sxy: real, sxx: real, s: real, b: real)
    requires sxx > 0.0 && s * sxx == sxy
    requires Quad(1.0, b, syy, sxy, sxx) <= 0.0 <= Quad(1.0, s, syy, sxy, sxx)
    ensures s == b
  {
    var square := (b - s) * (b - s);
    assert Quad(1.0, b, syy, sxy, sxx) - Quad(1.0, s, syy, sxy, sxx) == square * sxx;
    if s != b {
      SquarePositive(b - s, square);
      PositiveProduct(square, sxx, square * sxx);
    }
  }

  /** The forecast of a trend. */
  function Prediction(y: seq<real>): real
    requires y != []
  {
    y[|y| - 1] + Slope(Positions(|y|), y) * |y| as real
  }

  /** On a straight trend the forecast is the line's value n steps past the last of the n samples. */
  lemma {:induction false} PredictionOnLine(y: seq<real>, a: real, b: real)
    requires |y| >= 2 && OnLine(Positions(|y|), y, a, b)
    ensures Prediction(y) == a + b * (2 * |y| - 1) as real
  {
    var n, x := |y|, Positions(|y|);
    PositionsSpread(n);
    SlopeOfLine(x, y, a, b);
    hide Slope;
    assert x[n - 1] == (n - 1) as real;
    assert y[n - 1] == a + b * x[n - 1];
    Ahead(a, b, n as real);
  }

  lemma Ahead(a: real, b: real, n: real)
    ensures a + b * (n - 1.0) + b * n == a + b * (2.0 * n - 1.0)
  {
  }

}
