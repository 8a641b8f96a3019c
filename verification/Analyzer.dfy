/**
 The analyzer's two verdicts on a host's samples, computed with loops as the service does:
 the trend of a metric and whether its last value is an anomaly.
 */
module Analyzer {
  import opened Sums
  import opened Statistics
  import opened Regression

  datatype Metric = Metric(name: string, value: real)

  datatype Sample = Sample(timestamp: int, metrics: seq<Metric>)

  datatype Result<T> = Ok(value: T) | Insufficient

  datatype Direction = Up | Down | Stable

  datatype Trend = Trend(direction: Direction, slope: real, correlation: real, prediction: real, confidence: real)

  datatype Verdict = Verdict(isAnomaly: bool, score: real)

  // ----- Choosing the samples -----

  /** Where a sample first has a value under a name, or the number of its metrics. */
  function First(metrics: seq<Metric>, name: string): (k: nat)
    ensures k <= |metrics|
    ensures k < |metrics| ==> metrics[k].name == name
    ensures forall j :: 0 <= j < k ==> metrics[j].name != name
  {
    if metrics == [] || metrics[0].name == name then 0 else 1 + First(metrics[1..], name)
  }

  predicate Has(d: Sample, name: string) {
    First(d.metrics, name) < |d.metrics|
  }

  predicate Within(d: Sample, start: int, end: int) {
    start < d.timestamp < end
  }

  /** The samples that have a value under a name, in their order. */
  function Having(data: seq<Sample>, name: string): (r: seq<Sample>)
    ensures |r| <= |data| && AllHave(r, name)
  {
    if data == [] then []
    else
      var front, d := data[..|data| - 1], data[|data| - 1];
      Having(front, name) + (if Has(d, name) then [d] else [])
  }

  ghost predicate AllHave(data: seq<Sample>, name: string) {
    forall i :: 0 <= i < |data| ==> Has(data[i], name)
  }

  /** The samples strictly between two times, in their order. */
  function InRange(data: seq<Sample>, start: int, end: int): (r: seq<Sample>)
    ensures |r| <= |data|
  {
    if data == [] then []
    else
      var front, d := data[..|data| - 1], data[|data| - 1];
      InRange(front, start, end) + (if Within(d, start, end) then [d] else [])
  }

  function Reading(d: Sample, name: string): real
    requires Has(d, name)
  {
    d.metrics[First(d.metrics, name)].value
  }

  /** The values a metric took over the chosen samples. */
  function Series(data: seq<Sample>, name: string): (r: seq<real>)
    requires AllHave(data, name)
    ensures |r| == |data|
  {
    seq(|data|, i requires 0 <= i < |data| && Has(data[i], name) => Reading(data[i], name))
  }

  /** The samples kept are those within the range. */
  lemma {:induction false} InRangeMembers(data: seq<Sample>, start: int, end: int, d: Sample)
    ensures d in InRange(data, start, end) <==> d in data && Within(d, start, end)
  {
    if data != [] {
      InRangeMembers(data[..|data| - 1], start, end, d);
      hide InRange;
      assert data == data[..|data| - 1] + [data[|data| - 1]];
    }
  }

  /** Choosing goes sample by sample: order and repetitions stay. */
  lemma {:induction false} InRangeConcat(a: seq<Sample>, b: seq<Sample>, start: int, end: int)
    ensures InRange(a + b, start, end) == InRange(a, start, end) + InRange(b, start, end)
    decreases |b|
  {
    if b == [] {
      assert a + b == a;
    } else {
      var front, last := b[..|b| - 1], b[|b| - 1];
      assert (a + b)[..|a + b| - 1] == a + front && (a + b)[|a + b| - 1] == last;
      InRangeConcat(a, front, start, end);
      hide Within;
    }
  }

  /** Filtering keeps the order and the repetitions of the samples. */
  lemma {:induction false} HavingConcat(a: seq<Sample>, b: seq<Sample>, name: string)
    ensures Having(a + b, name) == Having(a, name) + Having(b, name)
    decreases |b|
  {
    if b == [] {
      assert a + b == a;
    } else {
      var front, last := b[..|b| - 1], b[|b| - 1];
      assert (a + b)[..|a + b| - 1] == a + front && (a + b)[|a + b| - 1] == last;
      HavingConcat(a, front, name);
      hide Has, AllHave;
    }
  }

  /** The i-th value of a series is the first metric of the name in the i-th sample. */
  lemma SeriesAt(data: seq<Sample>, name: string, i: nat, k: nat)
    requires AllHave(data, name) && i < |data| && k < |data[i].metrics| && data[i].metrics[k].name == name
    requires forall j :: 0 <= j < k ==> data[i].metrics[j].name != name
    ensures Series(data, name)[i] == data[i].metrics[k].value
  {
    FirstUnique(data[i].metrics, name, k);
  }

  lemma {:induction false} HavingMembers(data: seq<Sample>, name: string, d: Sample)
    ensures d in Having(data, name) <==> d in data && Has(d, name)
  {
    if data != [] {
      HavingMembers(data[..|data| - 1], name, d);
      hide Having, AllHave;
      assert data == data[..|data| - 1] + [data[|data| - 1]];
    }
  }

  method GetDataInRange(data: seq<Sample>, start: int, end: int) returns (r: seq<Sample>)
    ensures r == InRange(data, start, end)
    ensures forall d :: d in r <==> d in data && start < d.timestamp < end
  {
    r := [];
    for i := 0 to |data|
      invariant r == InRange(data[..i], start, end)
    {
      assert data[..i + 1][..i] == data[..i];
      if data[i].timestamp > start && data[i].timestamp < end {
        r := r + [data[i]];
      }
    }
    assert data[..|data|] == data;
    hide InRange;
    forall d ensures d in r <==> d in data && start < d.timestamp < end {
      InRangeMembers(data, start, end, d);
    }
  }

  /** The scan for the first metric of a name. */
  method Scan(metrics: seq<Metric>, name: string) returns (k: nat)
    ensures k == First(metrics, name)
  {
    k := 0;
    while k < |metrics| && metrics[k].name != name
      invariant k <= |metrics|
      invariant forall j :: 0 <= j < k ==> metrics[j].name != name
    {
      k := k + 1;
    }
    FirstUnique(metrics, name, k);
  }

  lemma FirstUnique(metrics: seq<Metric>, name: string, k: nat)
    requires k <= |metrics| && (k < |metrics| ==> metrics[k].name == name)
    requires forall j :: 0 <= j < k ==> metrics[j].name != name
    ensures k == First(metrics, name)
  {
    hide First;
    var f := First(metrics, name);
    assert f >= k;
  }

  lemma HasMeans(d: Sample, name: string)
    ensures Has(d, name) <==> exists m :: m in d.metrics && m.name == name
  {
    var k := First(d.metrics, name);
    if k < |d.metrics| {
      assert d.metrics[k] in d.metrics;
    }
  }

  method FilterMetricData(data: seq<Sample>, name: string) returns (r: seq<Sample>)
    ensures r == Having(data, name)
    ensures forall d :: d in r <==> d in data && exists m :: m in d.metrics && m.name == name
  {
    r := [];
    for i := 0 to |data|
      invariant r == Having(data[..i], name)
    {
      assert data[..i + 1][..i] == data[..i];
      var k := Scan(data[i].metrics, name);
      if k < |data[i].metrics| {
        r := r + [data[i]];
      }
    }
    assert data[..|data|] == data;
    hide Having, Has, AllHave;
    forall d ensures d in r <==> d in data && exists m :: m in d.metrics && m.name == name {
      HavingMembers(data, name, d);
      HasMeans(d, name);
    }
  }

  method Extract(data: seq<Sample>, name: string) returns (values: seq<real>)
    requires AllHave(data, name)
    ensures values == Series(data, name)
  {
    values := [];
    for i := 0 to |data|
      invariant |values| == i
      invariant forall j :: 0 <= j < i ==> values[j] == Series(data, name)[j]
    {
      var k := Scan(data[i].metrics, name);
      values := values + [data[i].metrics[k].value];
    }
  }

  /** The points of a trend: the positions of the chosen samples and the metric's values. */
  method ExtractPoints(data: seq<Sample>, name: string) returns (x: seq<real>, y: seq<real>)
    requires AllHave(data, name)
    ensures x == Positions(|data|) && y == Series(data, name)
  {
    x, y := [], [];
    for i := 0 to |data|
      invariant |x| == |y| == i
      invariant forall j :: 0 <= j < i ==> x[j] == j as real && y[j] == Series(data, name)[j]
    {
      x := x + [i as real];
      var k := Scan(data[i].metrics, name);
      y := y + [data[i].metrics[k].value];
    }
  }

  // ----- The statistics, in loops -----

  lemma {:induction false} SumTake(s: seq<real>, i: nat)
    requires i < |s|
    ensures Sum(s[..i + 1]) == Sum(s[..i]) + s[i]
  {
    SumAppend(s[..i], s[i]);
    assert s[..i + 1] == s[..i] + [s[i]];
  }

  lemma {:induction false} DotTake(x: seq<real>, y: seq<real>, i: nat)
    requires |x| == |y| && i < |x|
    ensures Dot(x[..i + 1], y[..i + 1]) == Dot(x[..i], y[..i]) + x[i] * y[i]
  {
    DotAppend(x[..i], y[..i], x[i], y[i]);
    assert x[..i + 1] == x[..i] + [x[i]] && y[..i + 1] == y[..i] + [y[i]];
  }

  method Total(s: seq<real>) returns (sum: real)
    ensures sum == Sum(s)
  {
    sum := 0.0;
    for i := 0 to |s|
      invariant sum == Sum(s[..i])
    {
      SumTake(s, i);
      sum := sum + s[i];
    }
    assert s[..|s|] == s;
  }

  method Moment(x: seq<real>, meanX: real, y: seq<real>, meanY: real) returns (sum: real)
    requires |x| == |y|
    ensures sum == Dot(Shift(x, meanX), Shift(y, meanY))
  {
    sum := 0.0;
    ghost var dx, dy := Shift(x, meanX), Shift(y, meanY);
    for i := 0 to |x|
      invariant sum == Dot(dx[..i], dy[..i])
    {
      DotTake(dx, dy, i);
      sum := sum + (x[i] - meanX) * (y[i] - meanY);
    }
    assert dx[..|x|] == dx && dy[..|x|] == dy;
  }

  method CalculateMeanStdDev(values: seq<real>, sqrt: real -> real) returns (mean: real, stdDev: real)
    ensures values == [] ==> mean == 0.0 && stdDev == 0.0
    ensures values != [] ==> mean == Mean(values) && stdDev == sqrt(Variance(values))
  {
    if |values| == 0 {
      return 0.0, 0.0;
    }
    var n := |values| as real;
    var sum := Total(values);
    mean := sum / n;
    var squares := Moment(values, mean, values, mean);
    stdDev := sqrt(squares / n);
  }

  method LinearRegression(x: seq<real>, y: seq<real>, sqrt: real -> real) returns (slope: real, correlation: real)
    requires |x| == |y| && IsRoot(sqrt)
    ensures |x| < 2 ==> slope == 0.0 && correlation == 0.0
    ensures |x| >= 2 ==> slope == Slope(x, y) && correlation == Correlation(x, y, sqrt)
  {
    if |x| < 2 {
      return 0.0, 0.0;
    }
    hide IsRoot, Sum, Dot, Shift, Coefficient;
    var n := |x| as real;
    var sumX := Total(x);
    var sumY := Total(y);
    var meanX, meanY := sumX / n, sumY / n;
    var sumXY := Moment(x, meanX, y, meanY);
    var sumX2 := Moment(x, meanX, x, meanX);
    var sumY2 := Moment(y, meanY, y, meanY);
    SquaresNonNegative(Deviations(x));
    SquaresNonNegative(Deviations(y));
    CoefficientCases(sumX2, sumXY, sumY2, sqrt);
    if sumX2 == 0.0 {
      return 0.0, 0.0;
    }
    slope := sumXY / sumX2;
    if sumY2 == 0.0 {
      correlation := 1.0;
    } else {
      var root := sqrt(sumX2 * sumY2);
      correlation := sumXY / root;
    }
  }

  /** The root the regression divides by is never zero. */
  lemma CoefficientCases(sxx: real, sxy: real, syy: real, sqrt: real -> real)
    requires IsRoot(sqrt) && sxx >= 0.0 && syy >= 0.0
    ensures var r := Coefficient(sxx, sxy, syy, sqrt);
            if sxx == 0.0 then r == 0.0
            else if syy == 0.0 then r == 1.0
            else sqrt(sxx * syy) != 0.0 && r == sxy / sqrt(sxx * syy)
  {
    if sxx > 0.0 && syy > 0.0 {
      var p := sxx * syy;
      PositiveProduct(sxx, syy, p);
      RootOfProduct(p, sqrt, sqrt(p));
    }
  }

  // ----- The two verdicts -----

  /** The chosen samples of a host. */
  function Chosen(data: seq<Sample>, start: int, end: int, name: string): (r: seq<Sample>)
    ensures AllHave(r, name)
  {
    Having(InRange(data, start, end), name)
  }

  function DirectionOf(slope: real): Direction {
    if Abs(slope) > 0.1 then (if slope > 0.0 then Up else Down) else Stable
  }

  /** The report on a series of values. */
  ghost predicate Reports(t: Trend, y: seq<real>, sqrt: real -> real)
    requires y != []
  {
    var x := Positions(|y|);
    && t.slope == Slope(x, y)
    && t.correlation == Correlation(x, y, sqrt)
    && t.prediction == Prediction(y) == y[|y| - 1] + t.slope * |y| as real
    && t.confidence == Confidence(t.correlation)
    && 0.0 <= t.confidence <= 100.0
    && (t.direction.Up? <==> 10.0 * t.slope > 1.0)
    && (t.direction.Down? <==> 10.0 * t.slope < -1.0)
  }

  method Summarize(x: seq<real>, y: seq<real>, sqrt: real -> real) returns (t: Trend)
    requires |y| >= 2 && x == Positions(|y|) && IsRoot(sqrt)
    ensures Reports(t, y, sqrt)
  {
    hide Slope, Correlation, Positions, IsRoot;
    CorrelationBounded(x, y, sqrt);
    var slope, correlation := LinearRegression(x, y, sqrt);
    var prediction := y[|y| - 1] + slope * |y| as real;
    t := Trend(DirectionOf(slope), slope, correlation, prediction, Confidence(correlation));
  }

  method AnalyzeTrend(data: seq<Sample>, start: int, end: int, name: string, sqrt: real -> real)
    returns (r: Result<Trend>)
    requires IsRoot(sqrt)
    ensures r.Insufficient? <==> |Chosen(data, start, end, name)| < 2
    ensures r.Ok? ==> Reports(r.value, Series(Chosen(data, start, end, name), name), sqrt)
  {
    hide IsRoot, Having, InRange, AllHave, Series, Reports;
    var inRange := GetDataInRange(data, start, end);
    if |inRange| < 2 {
      return Insufficient;
    }
    var filtered := FilterMetricData(inRange, name);
    if |filtered| < 2 {
      return Insufficient;
    }
    var x, y := ExtractPoints(filtered, name);
    var trend := Summarize(x, y, sqrt);
    r := Ok(trend);
  }

  /** The z-score test on the last of some values. */
  method Judge(values: seq<real>, sqrt: real -> real) returns (v: Verdict)
    requires values != []
    ensures v == Verdict(Anomalous(values, sqrt), Score(values, sqrt))
    ensures |values| <= 10 && IsRoot(sqrt) ==> !v.isAnomaly
  {
    if |values| <= 10 && IsRoot(sqrt) { TenNeverReport(values, sqrt); }
    hide Variance, Mean, IsRoot;
    var mean, stdDev := CalculateMeanStdDev(values, sqrt);
    if stdDev == 0.0 {
      return Verdict(false, 0.0);
    }
    var zScore := Abs(values[|values| - 1] - mean) / stdDev;
    v := Verdict(zScore > 3.0, zScore);
  }

  method DetectAnomaly(data: seq<Sample>, start: int, end: int, name: string, sqrt: real -> real)
    returns (r: Result<Verdict>)
    ensures r.Insufficient? <==> |Chosen(data, start, end, name)| < 10
    ensures r.Ok? ==> var s := Series(Chosen(data, start, end, name), name);
                      r.value == Verdict(Anomalous(s, sqrt), Score(s, sqrt))
    ensures r.Ok? && |Chosen(data, start, end, name)| == 10 && IsRoot(sqrt) ==> !r.value.isAnomaly
  {
    hide IsRoot, Having, InRange, AllHave, Series, Anomalous, Score;
    var inRange := GetDataInRange(data, start, end);
    if |inRange| < 10 {
      return Insufficient;
    }
    var filtered := FilterMetricData(inRange, name);
    if |filtered| < 10 {
      return Insufficient;
    }
    var values := Extract(filtered, name);
    var verdict := Judge(values, sqrt);
    r := Ok(verdict);
  }
}
