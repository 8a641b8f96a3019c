/** Percentiles as ranks: which value of a sample stands at a position of its sorted order. */
module Percentile {
  import opened Sorting

  /** How many values lie below a bound, or at it too. */
  function Count(s: seq<real>, bound: real, strict: bool): (n: nat)
    ensures n <= |s|
  {
    if s == [] then 0 else (if Counts(s[0], bound, strict) then 1 else 0) + Count(s[1..], bound, strict)
  }

  predicate Counts(v: real, bound: real, strict: bool) {
    v < bound || (!strict && v == bound)
  }

  /** The value has at most k values below it and more than k at or below it. */
  ghost predicate IsRanked(s: seq<real>, k: nat, v: real) {
    Count(s, v, true) <= k < Count(s, v, false)
  }

  lemma {:induction false} CountConcat(a: seq<real>, b: seq<real>, bound: real, strict: bool)
    ensures Count(a + b, bound, strict) == Count(a, bound, strict) + Count(b, bound, strict)
  {
    if a == [] {
      assert a + b == b;
    } else {
      assert (a + b)[1..] == a[1..] + b;
      CountConcat(a[1..], b, bound, strict);
    }
  }

  lemma {:induction false} CountAll(s: seq<real>, bound: real, strict: bool)
    requires forall i :: 0 <= i < |s| ==> Counts(s[i], bound, strict)
    ensures Count(s, bound, strict) == |s|
  {
    if s != [] { CountAll(s[1..], bound, strict); }
  }

  lemma {:induction false} CountNone(s: seq<real>, bound: real, strict: bool)
    requires forall i :: 0 <= i < |s| ==> !Counts(s[i], bound, strict)
    ensures Count(s, bound, strict) == 0
  {
    if s != [] { CountNone(s[1..], bound, strict); }
  }

  /** Rearranging does not change a count. */
  lemma {:induction false} CountPermuted(a: seq<real>, b: seq<real>, bound: real, strict: bool)
    requires multiset(a) == multiset(b)
    ensures Count(a, bound, strict) == Count(b, bound, strict)
    decreases |a|
  {
    if a == [] {
      assert |multiset(b)| == 0;
      assert b == [];
    } else {
      var j := Twin(a, b);
      CountWithout(b, j, bound, strict);
      CountPermuted(a[1..], b[..j] + b[j + 1..], bound, strict);
    }
  }

  /** Where a rearrangement has the first value, and what is left of both. */
  lemma Twin(a: seq<real>, b: seq<real>) returns (j: nat)
    requires a != [] && multiset(a) == multiset(b)
    ensures j < |b| && b[j] == a[0] && multiset(a[1..]) == multiset(b[..j] + b[j + 1..])
  {
    assert a[0] in multiset(b);
    j :| 0 <= j < |b| && b[j] == a[0];
    WithoutFirst(a);
    WithoutOne(b, j);
  }

  lemma WithoutFirst(s: seq<real>)
    requires s != []
    ensures multiset(s[1..]) == multiset(s) - multiset{s[0]}
  {
    assert s == [s[0]] + s[1..];
  }

  lemma WithoutOne(s: seq<real>, j: nat)
    requires j < |s|
    ensures multiset(s[..j] + s[j + 1..]) == multiset(s) - multiset{s[j]}
  {
    assert s == s[..j] + [s[j]] + s[j + 1..];
  }

  lemma {:induction false} CountWithout(s: seq<real>, j: nat, bound: real, strict: bool)
    requires j < |s|
    ensures Count(s, bound, strict) ==
            (if Counts(s[j], bound, strict) then 1 else 0) + Count(s[..j] + s[j + 1..], bound, strict)
  {
    var front, back := s[..j], s[j + 1..];
    assert s == front + ([s[j]] + back);
    CountConcat(front, back, bound, strict);
    CountConcat(front, [s[j]] + back, bound, strict);
  }

  /** In sorted order the value at position k is ranked k. */
  lemma {:induction false} SortedRanked(s: seq<real>, k: nat)
    requires SortedBy(s, (v: real) => v) && k < |s|
    ensures IsRanked(s, k, s[k])
  {
    var v := s[k];
    assert s == s[..k] + s[k..] && s == s[..k + 1] + s[k + 1..];
    CountConcat(s[..k], s[k..], v, true);
    CountNone(s[k..], v, true);
    CountConcat(s[..k + 1], s[k + 1..], v, false);
    CountAll(s[..k + 1], v, false);
  }

  lemma {:induction false} CountMonotone(s: seq<real>, low: real, high: real)
    requires low < high
    ensures Count(s, low, false) <= Count(s, high, true)
  {
    if s != [] { CountMonotone(s[1..], low, high); }
  }

  /** A rank has one value, and a higher rank no lower one. */
  lemma RankedInOrder(s: seq<real>, k: nat, v: real, l: nat, w: real)
    requires IsRanked(s, k, v) && IsRanked(s, l, w) && k <= l
    ensures v <= w
  {
    if w < v { CountMonotone(s, w, v); }
  }

  /** The position `Percentile` looks at, with Go's conversion to an integer, which cuts toward zero. */
  function Position(n: nat, p: real): (k: nat)
    requires n > 0
    ensures k < n
  {
    var index := Index(n, p);
    if index < 0 then 0 else if index >= n then n - 1 else index
  }

  function Index(n: nat, p: real): int {
    Truncate(Way(n, p) / 100.0)
  }

  /** A hundred times how far from the first the position is. */
  function Way(n: nat, p: real): real {
    (n - 1) as real * p
  }

  function Truncate(v: real): int {
    if v >= 0.0 then v.Floor else -((-v).Floor)
  }

  lemma WayBounds(m: real, p: real)
    requires m >= 0.0
    ensures p < 0.0 ==> m * p <= 0.0
    ensures p >= 100.0 ==> m * p >= 100.0 * m
    ensures 0.0 <= p <= 100.0 ==> 0.0 <= m * p <= 100.0 * m
  {
    if p < 0.0 {
      Scaled(m, p, 0.0);
    } else if p >= 100.0 {
      Scaled(m, 100.0, p);
    } else {
      Scaled(m, p, 100.0);
    }
  }

  lemma WayIs(n: nat, p: real)
    requires n > 0
    ensures Way(n, p) == (n - 1) as real * p
    ensures p < 0.0 ==> Way(n, p) <= 0.0
    ensures p >= 100.0 ==> Way(n, p) >= 100.0 * (n - 1) as real
    ensures 0.0 <= p <= 100.0 ==> 0.0 <= Way(n, p) <= 100.0 * (n - 1) as real
  {
    WayBounds((n - 1) as real, p);
  }

  /** The position `way` hundredths along, of `m + 1`. */
  lemma CutAndClamp(m: nat, way: real, k: nat)
    requires var index := Truncate(way / 100.0); k == if index < 0 then 0 else if index >= m + 1 then m else index
    ensures way <= 0.0 ==> k == 0
    ensures way >= 100.0 * m as real ==> k == m
    ensures 0.0 <= way <= 100.0 * m as real ==> 100.0 * k as real <= way < 100.0 * (k + 1) as real
  {
    var v := way / 100.0;
    assert 100.0 * v == way;
  }

  lemma PositionAlong(n: nat, p: real)
    requires n > 0
    ensures var way, k := Way(n, p), Position(n, p);
            && (way <= 0.0 ==> k == 0)
            && (way >= 100.0 * (n - 1) as real ==> k == n - 1)
            && (0.0 <= way <= 100.0 * (n - 1) as real ==> 100.0 * k as real <= way < 100.0 * (k + 1) as real)
  {
    hide Truncate, Way;
    CutAndClamp(n - 1, Way(n, p), Position(n, p));
  }

  /** What the position means: the whole part of p percent of the way from the first to the last. */
  lemma PositionMeans(n: nat, p: real)
    requires n > 0
    ensures p < 0.0 ==> Position(n, p) == 0
    ensures p >= 100.0 ==> Position(n, p) == n - 1
    ensures 0.0 <= p <= 100.0 ==>
              100.0 * Position(n, p) as real <= (n - 1) as real * p < 100.0 * (Position(n, p) + 1) as real
  {
    hide Position, Way;
    WayIs(n, p);
    PositionAlong(n, p);
  }

  /** How many samples lie below the answer, and at or below it, in terms of the percentage. */
  ghost predicate IsPercentile(s: seq<real>, p: real, v: real)
    requires s != []
  {
    && v in s
    && (p < 0.0 ==> Count(s, v, true) == 0)
    && (p >= 100.0 ==> Count(s, v, false) == |s|)
    && (0.0 <= p <= 100.0 ==>
          100.0 * Count(s, v, true) as real <= (|s| - 1) as real * p < 100.0 * Count(s, v, false) as real)
  }

  lemma RankedIsPercentile(s: seq<real>, p: real, v: real)
    requires s != [] && v in s && IsRanked(s, Position(|s|, p), v)
    ensures IsPercentile(s, p, v)
  {
    PositionMeans(|s|, p);
    hide Position, Count;
    var k, below, upTo := Position(|s|, p), Count(s, v, true), Count(s, v, false);
    assert 100.0 * below as real <= 100.0 * k as real && 100.0 * (k + 1) as real <= 100.0 * upTo as real;
  }

  lemma PositionMonotone(n: nat, p: real, q: real)
    requires n > 0 && p <= q
    ensures Position(n, p) <= Position(n, q)
  {
    var a, b := (n - 1) as real * p / 100.0, (n - 1) as real * q / 100.0;
    Scaled((n - 1) as real, p, q);
    assert a <= b;
  }

  lemma Scaled(m: real, p: real, q: real)
    requires m >= 0.0 && p <= q
    ensures m * p <= m * q
  {
  }

  /** A higher percentile of the same values is never smaller. */
  lemma PercentilesInOrder(s: seq<real>, p: real, v: real, q: real, w: real)
    requires s != [] && p <= q
    requires IsRanked(s, Position(|s|, p), v) && IsRanked(s, Position(|s|, q), w)
    ensures v <= w
  {
    PositionMonotone(|s|, p, q);
    RankedInOrder(s, Position(|s|, p), v, Position(|s|, q), w);
  }

  lemma PermutedRanked(sorted: seq<real>, s: seq<real>, k: nat)
    requires SortedBy(sorted, (v: real) => v) && multiset(sorted) == multiset(s) && k < |sorted|
    ensures sorted[k] in s && IsRanked(s, k, sorted[k])
  {
    SortedRanked(sorted, k);
    hide SortedBy, Count;
    CountPermuted(sorted, s, sorted[k], true);
    CountPermuted(sorted, s, sorted[k], false);
    assert sorted[k] in multiset(sorted);
  }

  /** The percentile of some values: sorts a copy and picks a position. */
  method Pick(values: seq<real>, p: real) returns (r: real)
    requires values != []
    ensures r in values && IsRanked(values, Position(|values|, p), r)
    ensures IsPercentile(values, p, r)
  {
    hide SortedBy, IsRanked, Index, IsPercentile;
    var sorted := SortBy(values, (v: real) => v);
    assert |sorted| == |multiset(sorted)| == |values|;
    var index := Index(|sorted|, p);
    if index < 0 {
      index := 0;
    }
    if index >= |sorted| {
      index := |sorted| - 1;
    }
    r := sorted[index];
    PermutedRanked(sorted, values, index);
    RankedIsPercentile(values, p, r);
  }
}
