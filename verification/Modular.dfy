/** Division with remainder, in the few forms the other modules need. */
module Modular {

  lemma MulMonotone(n: int, a: int, b: int)
    requires 0 <= n && a <= b
    ensures n * a <= n * b
  {
    assert 0 <= n * (b - a);
  }

  lemma SmallMultiple(n: int, k: int)
    requires -n < n * k < n
    ensures k == 0
  {
    if k > 0 {
      MulMonotone(n, 1, k);
    } else if k < 0 {
      MulMonotone(n, k, -1);
    }
  }

  /** A quotient and a remainder in range are the quotient and the remainder. */
  lemma DivModUnique(x: int, n: int, q: int, r: int)
    requires 0 <= r < n && x == n * q + r
    ensures x / n == q && x % n == r
  {
    var k := x / n - q;
    assert n * k == n * (x / n) - n * q;
    SmallMultiple(n, k);
  }

  /** Moving an index one place on a ring moves its unbounded counter one place. */
  lemma ModStep(a: int, n: int)
    requires n > 0
    ensures (a % n + 1) % n == (a + 1) % n
  {
    var q, r := a / n, a % n;
    assert a == n * q + r;
    if r == n - 1 {
      assert a + 1 == n * (q + 1);
      DivModUnique(a + 1, n, q + 1, 0);
      DivModUnique(n, n, 1, 0);
    } else {
      DivModUnique(a + 1, n, q, r + 1);
      DivModUnique(r + 1, n, 0, r + 1);
    }
  }

  /** Two counters less than a lap apart fall on the same slot only when equal. */
  lemma ModInjective(a: int, b: int, n: int)
    requires n > 0 && -n < a - b < n
    ensures a % n == b % n <==> a == b
  {
    if a % n == b % n {
      var k := a / n - b / n;
      assert n * k == n * (a / n) - n * (b / n);
      SmallMultiple(n, k);
    }
  }

  lemma ModLap(a: int, n: int)
    requires n > 0
    ensures (a + n) % n == a % n
  {
    assert a + n == n * (a / n + 1) + a % n;
    DivModUnique(a + n, n, a / n + 1, a % n);
  }

  /** The distance of two counters less than a lap apart, from their slots alone. */
  lemma RingDistance(h: int, t: int, n: int)
    requires n > 0 && 0 <= t - h < n
    ensures (if t % n >= h % n then t % n - h % n else n - h % n + t % n) == t - h
  {
    var q, a, d := h / n, h % n, t - h;
    if a + d < n {
      DivModUnique(t, n, q, a + d);
    } else {
      assert t == n * (q + 1) + (a + d - n);
      DivModUnique(t, n, q + 1, a + d - n);
    }
  }

  lemma ModAdd(a: int, d: int, n: int)
    requires n > 0
    ensures (a % n + d) % n == (a + d) % n
  {
    var q, r := (a % n + d) / n, (a % n + d) % n;
    assert a == n * (a / n) + a % n;
    assert a + d == n * (a / n + q) + r;
    DivModUnique(a + d, n, a / n + q, r);
  }

  lemma DivDiv(x: int, a: int, b: int)
    requires 0 <= x && a > 0 && b > 0
    ensures 0 < a * b && x / a / b == x / (a * b)
  {
    var q, r := x / a, x % a;
    var q', r' := q / b, q % b;
    assert a * r' + r < a * b by { MulMonotone(a, r' + 1, b); }
    assert a * r' >= 0;
    assert x == (a * b) * q' + (a * r' + r) by {
      assert x == a * (b * q' + r') + r;
    }
    DivModUnique(x, a * b, q', a * r' + r);
  }

  lemma DivSmaller(x: int, n: int)
    requires x >= n >= 2
    ensures 0 < x / n < x
  {
    var q, r := x / n, x % n;
    if q <= 0 { MulMonotone(n, q, 0); }
    if q >= x { MulMonotone(n, x, q); MulMonotone(x, 2, n); }
  }

  lemma DivBounds(x: int, n: int, p: int, q: int)
    requires n > 0 && p <= x / n < q
    ensures n * p <= x < n * q
  {
    var y := x / n;
    MulMonotone(n, p, y);
    MulMonotone(n, y + 1, q);
    assert n * (y + 1) == n * y + n;
  }
}
