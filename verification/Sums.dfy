/** Sums of samples over the reals, and the inequalities the statistics rest on. */
module Sums {

  function Sum(s: seq<real>): real {
    if s == [] then 0.0 else s[0] + Sum(s[1..])
  }

  /** The sum of products of two equally long samples. */
  function Dot(x: seq<real>, y: seq<real>): real
    requires |x| == |y|
  {
    if x == [] then 0.0 else x[0] * y[0] + Dot(x[1..], y[1..])
  }

  function SumSquares(s: seq<real>): real {
    Dot(s, s)
  }

  lemma {:induction false} SumAppend(s: seq<real>, v: real)
    ensures Sum(s + [v]) == Sum(s) + v
  {
    if s == [] {
      assert s + [v] == [v];
    } else {
      assert (s + [v])[1..] == s[1..] + [v];
      SumAppend(s[1..], v);
    }
  }

  lemma {:induction false} DotAppend(x: seq<real>, y: seq<real>, a: real, b: real)
    requires |x| == |y|
    ensures Dot(x + [a], y + [b]) == Dot(x, y) + a * b
  {
    if x == [] {
      assert x + [a] == [a] && y + [b] == [b];
    } else {
      assert (x + [a])[1..] == x[1..] + [a] && (y + [b])[1..] == y[1..] + [b];
      DotAppend(x[1..], y[1..], a, b);
    }
  }

  /** Each value less a constant. */
  function Shift(s: seq<real>, c: real): (r: seq<real>)
    ensures |r| == |s|
  {
    seq(|s|, i requires 0 <= i < |s| => s[i] - c)
  }

  lemma ShiftTail(s: seq<real>, c: real)
    requires s != []
    ensures Shift(s, c)[0] == s[0] - c && Shift(s, c)[1..] == Shift(s[1..], c)
  {
  }

  lemma {:induction false} SumShift(s: seq<real>, c: real)
    ensures Sum(Shift(s, c)) == Sum(s) - |s| as real * c
  {
    if s != [] {
      ShiftTail(s, c);
      SumShift(s[1..], c);
    }
  }

  lemma {:induction false} SquaresNonNegative(s: seq<real>)
    ensures SumSquares(s) >= 0.0
  {
    if s != [] { SquaresNonNegative(s[1..]); }
  }

  lemma PositiveProduct(a: real, b: real, product: real)
    requires a > 0.0 && b > 0.0 && product == a * b
    ensures product > 0.0
  {
  }

  lemma SquarePositive(v: real, square: real)
    requires v != 0.0 && square == v * v
    ensures square > 0.0
  {
    if v > 0.0 {
      PositiveProduct(v, v, square);
    } else {
      PositiveProduct(-v, -v, square);
    }
  }

  lemma {:induction false} SquaresPositive(s: seq<real>, i: nat)
    requires i < |s| && s[i] != 0.0
    ensures SumSquares(s) > 0.0
  {
    SquaresNonNegative(s[1..]);
    if i == 0 {
      SquarePositive(s[0], s[0] * s[0]);
    } else {
      SquaresPositive(s[1..], i - 1);
    }
  }

  /** The sum of squares of a combination, expanded. */
  function Blend(x: seq<real>, y: seq<real>, a: real, b: real): (r: seq<real>)
    requires |x| == |y|
    ensures |r| == |x|
  {
    if x == [] then [] else [a * x[0] - b * y[0]] + Blend(x[1..], y[1..], a, b)
  }

  /** The square of a * x - b * y from x * x, x * y and y * y. */
  function Quad(a: real, b: real, xx: real, xy: real, yy: real): real {
    a * a * xx - 2.0 * a * b * xy + b * b * yy
  }

  lemma {:induction false} BlendSquares(x: seq<real>, y: seq<real>, a: real, b: real)
    requires |x| == |y|
    ensures SumSquares(Blend(x, y, a, b)) == Quad(a, b, SumSquares(x), Dot(x, y), SumSquares(y))
  {
    if x != [] {
      hide Quad;
      BlendSquares(x[1..], y[1..], a, b);
      Square(a, x[0], b, y[0]);
      Gather(a, b, x[0] * x[0], x[0] * y[0], y[0] * y[0],
             SumSquares(x[1..]), Dot(x[1..], y[1..]), SumSquares(y[1..]));
    }
  }

  lemma Square(a: real, x: real, b: real, y: real)
    ensures (a * x - b * y) * (a * x - b * y) == Quad(a, b, x * x, x * y, y * y)
  {
  }

  lemma Gather(a: real, b: real, p: real, q: real, r: real, s: real, t: real, u: real)
    ensures Quad(a, b, p, q, r) + Quad(a, b, s, t, u) == Quad(a, b, p + s, q + t, r + u)
  {
  }

  /** The Cauchy-Schwarz inequality. */
  lemma CauchySchwarz(x: seq<real>, y: seq<real>)
    requires |x| == |y|
    ensures Dot(x, y) * Dot(x, y) <= SumSquares(x) * SumSquares(y)
  {
    hide SumSquares, Dot;
    SquaresNonNegative(y);
    if SumSquares(y) == 0.0 {
      ZeroDot(x, y);
    } else {
      BlendNonNegative(x, y, SumSquares(x), Dot(x, y), SumSquares(y));
      Discriminant(SumSquares(x), Dot(x, y), SumSquares(y));
    }
  }

  lemma BlendNonNegative(x: seq<real>, y: seq<real>, xx: real, xy: real, yy: real)
    requires |x| == |y| && xx == SumSquares(x) && xy == Dot(x, y) && yy == SumSquares(y)
    ensures Quad(yy, xy, xx, xy, yy) >= 0.0
  {
    hide SumSquares, Dot, Quad;
    BlendSquares(x, y, yy, xy);
    SquaresNonNegative(Blend(x, y, yy, xy));
  }

  lemma Discriminant(xx: real, xy: real, yy: real)
    requires yy > 0.0 && Quad(yy, xy, xx, xy, yy) >= 0.0
    ensures xy * xy <= xx * yy
  {
    var d := xx * yy - xy * xy;
    assert Quad(yy, xy, xx, xy, yy) == yy * d;
    PositiveFactor(yy, d);
  }

  lemma PositiveFactor(a: real, b: real)
    requires a > 0.0 && a * b >= 0.0
    ensures b >= 0.0
  {
  }

  lemma {:induction false} ZeroDot(x: seq<real>, y: seq<real>)
    requires |x| == |y| && SumSquares(y) == 0.0
    ensures Dot(x, y) == 0.0
  {
    forall i | 0 <= i < |y| ensures y[i] == 0.0 {
      if y[i] != 0.0 { SquaresPositive(y, i); }
    }
    AllZeroDot(x, y);
  }

  lemma {:induction false} AllZeroDot(x: seq<real>, y: seq<real>)
    requires |x| == |y| && forall i :: 0 <= i < |y| ==> y[i] == 0.0
    ensures Dot(x, y) == 0.0
  {
    if x != [] { AllZeroDot(x[1..], y[1..]); }
  }

  function Ones(n: nat): (r: seq<real>) {
    seq(n, _ => 1.0)
  }

  lemma {:induction false} DotOnes(s: seq<real>)
    ensures Dot(s, Ones(|s|)) == Sum(s) && SumSquares(Ones(|s|)) == |s| as real
  {
    if s != [] {
      assert Ones(|s|)[1..] == Ones(|s[1..]|);
      DotOnes(s[1..]);
    }
  }

  /** The square of a sum is at most the count times the sum of squares. */
  lemma MeanSquare(s: seq<real>)
    ensures Sum(s) * Sum(s) <= |s| as real * SumSquares(s)
  {
    DotOnes(s);
    CauchySchwarz(s, Ones(|s|));
  }
}
