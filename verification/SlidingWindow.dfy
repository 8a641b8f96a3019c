/**
 The sliding window with running sums, in its fixed-size mode. Values are reals, times are
 integers, and the clock is a parameter of each call; it never runs backwards.
 */
module SlidingWindow {
  import opened Sums
  import Statistics
  import opened Percentile

  datatype Sample = Sample(value: real, time: int)

  function Values(h: seq<Sample>): (r: seq<real>)
    ensures |r| == |h|
  {
    seq(|h|, i requires 0 <= i < |h| => h[i].value)
  }

  function Times(h: seq<Sample>): (r: seq<int>)
    ensures |r| == |h|
  {
    seq(|h|, i requires 0 <= i < |h| => h[i].time)
  }

  ghost predicate InOrder(h: seq<Sample>, last: int) {
    && (forall i, j :: 0 <= i < j < |h| ==> h[i].time <= h[j].time)
    && (forall i :: 0 <= i < |h| ==> h[i].time <= last)
  }

  /** A sample still counts at `now`; a maximum age that is not positive never expires anything. */
  predicate Fresh(s: Sample, now: int, maxAge: int) {
    maxAge <= 0 || s.time >= now - maxAge
  }

  /** A sample exactly as old as allowed still counts, an older one does not. */
  lemma AgeLimit(s: Sample, now: int, maxAge: int)
    requires maxAge > 0
    ensures Fresh(s, now, maxAge) <==> now - s.time <= maxAge
  {
  }

  /**
   Of all samples ever added, the window holds exactly those from `start` on: the ones that are
   still fresh and among the last `size`.
   */
  ghost predicate IsStart(h: seq<Sample>, size: int, maxAge: int, now: int, start: nat) {
    start <= |h| && forall i :: 0 <= i < |h| ==> (start <= i <==> Fresh(h[i], now, maxAge) && |h| - i <= size)
  }

  /** There is only one such start. */
  lemma StartUnique(h: seq<Sample>, size: int, maxAge: int, now: int, a: nat, b: nat)
    requires IsStart(h, size, maxAge, now, a) && IsStart(h, size, maxAge, now, b)
    ensures a == b
  {
    assert a < |h| ==> Fresh(h[a], now, maxAge) && |h| - a <= size;
    assert b < |h| ==> Fresh(h[b], now, maxAge) && |h| - b <= size;
  }

  /** The variance from the running sums is the one from the deviations, and so never negative. */
  lemma RunningVariance(s: seq<real>)
    requires s != []
    ensures SumSquares(s) / |s| as real - Statistics.Mean(s) * Statistics.Mean(s) == Statistics.Variance(s) >= 0.0
  {
    hide Sum, SumSquares, Quad, Shift;
    Statistics.SquaresShift(s, Statistics.Mean(s));
    Statistics.VarianceNonNegative(s);
    Expanded(SumSquares(s), Sum(s), |s| as real, Statistics.Mean(s));
  }

  lemma Expanded(squares: real, sum: real, n: real, m: real)
    requires n > 0.0 && m == sum / n
    ensures Quad(1.0, m, squares, sum, n) / n == squares / n - m * m
  {
    var q := squares / n;
    assert sum == m * n && squares == q * n;
    assert Quad(1.0, m, squares, sum, n) == (q - m * m) * n;
  }

  // ----- How the start moves -----

  /** With nothing to expire, a later clock does not move the start. */
  lemma CleanStart(h: seq<Sample>, size: int, maxAge: int, last: int, now: int, start: nat)
    requires InOrder(h, last) && IsStart(h, size, maxAge, last, start) && now >= last
    ensures maxAge <= 0 || start == |h| ==> IsStart(h, size, maxAge, now, start)
    ensures InOrder(h, now)
  {
  }

  lemma CleanedStart(h: seq<Sample>, size: int, maxAge: int, last: int, now: int, start: nat, times: seq<int>, i: nat)
    requires InOrder(h, last) && IsStart(h, size, maxAge, last, start) && now >= last && maxAge > 0
    requires start <= |h| && times == Times(h[start..]) && i <= |times|
    requires forall j :: 0 <= j < i ==> times[j] < now - maxAge
    requires i < |times| ==> times[i] >= now - maxAge
    ensures IsStart(h, size, maxAge, now, start + i)
  {
    assert forall j :: start <= j < |h| ==> times[j - start] == h[j].time;
    forall j | 0 <= j < |h| ensures start + i <= j <==> Fresh(h[j], now, maxAge) && |h| - j <= size {
      if start <= j < start + i {
        assert times[j - start] < now - maxAge;
      }
      if start + i < j {
        assert h[start + i].time <= h[j].time;
      }
    }
  }

  lemma PushStart(h: seq<Sample>, size: int, maxAge: int, now: int, start: nat, s: Sample)
    requires InOrder(h, now) && IsStart(h, size, maxAge, now, start) && s.time == now && size >= 1
    ensures InOrder(h + [s], now)
    ensures IsStart(h + [s], size, maxAge, now, if |h| - start >= size then start + 1 else start)
  {
    var g := h + [s];
    var t := if |h| - start >= size then start + 1 else start;
    assert start < |h| ==> Fresh(h[start], now, maxAge);
    forall i | 0 <= i < |g| ensures t <= i <==> Fresh(g[i], now, maxAge) && |g| - i <= size {
      assert i < |h| ==> g[i] == h[i];
    }
  }

  lemma DropFront(h: seq<Sample>, start: nat, i: nat)
    requires start + i <= |h|
    ensures Values(h[start..])[i..] == Values(h[start + i..]) && Times(h[start..])[i..] == Times(h[start + i..])
  {
  }

  lemma AppendBack(h: seq<Sample>, start: nat, s: Sample)
    requires start <= |h|
    ensures Values((h + [s])[start..]) == Values(h[start..]) + [s.value]
    ensures Times((h + [s])[start..]) == Times(h[start..]) + [s.time]
  {
  }

  /** The slices that go on after the expired front are the fields of the new window. */
  lemma CleanedFields(h: seq<Sample>, size: int, maxAge: int, last: int, now: int, start: nat,
                      values: seq<real>, times: seq<int>, i: nat)
    requires InOrder(h, last) && IsStart(h, size, maxAge, last, start) && now >= last && maxAge > 0
    requires start <= |h| && values == Values(h[start..]) && times == Times(h[start..]) && i <= |times|
    requires forall j :: 0 <= j < i ==> times[j] < now - maxAge
    requires i < |times| ==> times[i] >= now - maxAge
    ensures start + i <= |h| && IsStart(h, size, maxAge, now, start + i)
    ensures values[i..] == Values(h[start + i..]) && times[i..] == Times(h[start + i..])
    ensures i == 0 ==> values[i..] == values && times[i..] == times
  {
    CleanedStart(h, size, maxAge, last, now, start, times, i);
    DropFront(h, start, i);
  }

  function Stamped(batch: seq<real>, now: int): seq<Sample> {
    seq(|batch|, i requires 0 <= i < |batch| => Sample(batch[i], now))
  }

  lemma StampNone(h: seq<Sample>, now: int)
    ensures h + Stamped([], now) == h
  {
  }

  lemma GrowBatch(h: seq<Sample>, batch: seq<real>, now: int, n: nat)
    requires n < |batch|
    ensures h + Stamped(batch[..n], now) + [Sample(batch[n], now)] == h + Stamped(batch[..n + 1], now)
  {
  }

  lemma TailSums(s: seq<real>, i: nat)
    requires i < |s|
    ensures Sum(s[i + 1..]) == Sum(s[i..]) - s[i]
    ensures SumSquares(s[i + 1..]) == SumSquares(s[i..]) - s[i] * s[i]
  {
    assert s[i..][1..] == s[i + 1..];
  }

  class Window {
    const size: int
    const maxAge: int
    var values: seq<real>
    var timestamps: seq<int>
    var sum: real
    var sumSquared: real
    var operations: nat
    /** All samples ever added, the time of the last call, and where the window starts. */
    ghost var history: seq<Sample>
    ghost var last: int
    ghost var start: nat

    ghost predicate Valid()
      reads this
    {
      && size >= 0
      && Holds() && IsStart(history, size, maxAge, last, start)
    }

    /** The fields agree with the samples from `start` on, and the sums with a fresh computation. */
    ghost predicate Holds()
      reads this
    {
      && InOrder(history, last) && start <= |history|
      && values == Values(history[start..]) && timestamps == Times(history[start..])
      && sum == Sum(values) && sumSquared == SumSquares(values)
    }

    /** A negative size panics when the slices are made. */
    constructor (size: int, maxAge: int, now: int)
      requires size >= 0
      ensures Valid() && history == [] && last == now && operations == 0
      ensures this.size == size && this.maxAge == maxAge
    {
      this.size, this.maxAge := size, maxAge;
      values, timestamps, sum, sumSquared, operations := [], [], 0.0, 0.0, 0;
      history, last, start := [], now, 0;
    }

    /** Drops what has expired at `now`; the counterpart of every call's first step. */
    method CleanExpired(now: int)
      requires Valid() && now >= last
      modifies this
      ensures Valid() && last == now && history == old(history) && operations == old(operations)
    {
      CleanStart(history, size, maxAge, last, now, start);
      hide Sum, SumSquares, InOrder, Values, Times, IsStart;
      if maxAge <= 0 || |values| == 0 {
        last := now;
        return;
      }
      var cutoff := now - maxAge;
      var i := Expire(cutoff);
      CleanedFields(history, size, maxAge, last, now, start, values, timestamps, i);
      if i > 0 {
        values := values[i..];
        timestamps := timestamps[i..];
      }
      start := start + i;
      last := now;
    }

    /** The loop: takes every expired value at the front out of the sums. */
    method Expire(cutoff: int) returns (i: nat)
      requires Holds()
      modifies this`sum, this`sumSquared
      ensures i <= |values| && sum == Sum(values[i..]) && sumSquared == SumSquares(values[i..])
      ensures forall j :: 0 <= j < i ==> timestamps[j] < cutoff
      ensures i < |values| ==> timestamps[i] >= cutoff
    {
      hide Sum, SumSquares, InOrder, Values, Times;
      i := 0;
      assert values[0..] == values;
      while i < |timestamps|
        invariant 0 <= i <= |values|
        invariant sum == Sum(values[i..]) && sumSquared == SumSquares(values[i..])
        invariant forall j :: 0 <= j < i ==> timestamps[j] < cutoff
      {
        if !(timestamps[i] < cutoff) {
          break;
        }
        TailSums(values, i);
        sum := sum - values[i];
        sumSquared := sumSquared - values[i] * values[i];
        i := i + 1;
      }
    }

    /** Makes room and appends, for a window just cleaned. */
    method Push(value: real, now: int)
      requires Valid() && now == last && size >= 1
      modifies this
      ensures Valid() && last == old(last) && operations == old(operations)
      ensures history == old(history) + [Sample(value, last)]
    {
      PushStart(history, size, maxAge, last, start, Sample(value, last));
      hide Sum, SumSquares, Dot, InOrder, Values, Times, IsStart;
      if |values| >= size {
        Shift();
      }
      Append(value, now);
    }

    /** Takes the oldest value out. */
    method Shift()
      requires Holds() && |values| > 0
      modifies this`values, this`timestamps, this`sum, this`sumSquared, this`start
      ensures Holds() && start == old(start) + 1
    {
      hide Sum, SumSquares, InOrder;
      DropFront(history, start, 1);
      TailSums(values, 0);
      assert values[0..] == values;
      hide Values, Times;
      sum := sum - values[0];
      sumSquared := sumSquared - values[0] * values[0];
      values := values[1..];
      timestamps := timestamps[1..];
      start := start + 1;
    }

    method Append(value: real, now: int)
      requires Holds() && now == last && InOrder(history + [Sample(value, now)], now)
      modifies this`values, this`timestamps, this`sum, this`sumSquared, this`history
      ensures Holds() && history == old(history) + [Sample(value, now)]
    {
      SumAppend(values, value);
      DotAppend(values, values, value, value);
      AppendBack(history, start, Sample(value, now));
      hide Sum, Dot, InOrder, Values, Times;
      history := history + [Sample(value, now)];
      values := values + [value];
      timestamps := timestamps + [now];
      sum := sum + value;
      sumSquared := sumSquared + value * value;
    }

    /** With size 0 the first add reads the oldest of no values and panics. */
    method Add(value: real, now: int)
      requires Valid() && now >= last && size >= 1
      modifies this
      ensures Valid() && last == now && operations == old(operations) + 1
      ensures history == old(history) + [Sample(value, now)]
    {
      operations := operations + 1;
      CleanExpired(now);
      Push(value, now);
    }

    method AddBatch(batch: seq<real>, now: int)
      requires Valid() && now >= last && (size >= 1 || batch == [])
      modifies this
      ensures Valid() && last == now && operations == old(operations) + |batch|
      ensures history == old(history) + Stamped(batch, now)
    {
      operations := operations + |batch|;
      CleanExpired(now);
      hide Valid, Stamped;
      assert batch[..0] == [] && history + Stamped([], now) == history by { StampNone(history, now); }
      for n := 0 to |batch|
        invariant Valid() && last == now && operations == old(operations) + |batch|
        invariant history == old(history) + Stamped(batch[..n], now)
      {
        Push(batch[n], now);
        GrowBatch(old(history), batch, now, n);
      }
      assert batch[..|batch|] == batch;
    }

    method Average(now: int) returns (r: real)
      requires Valid() && now >= last
      modifies this
      ensures Valid() && last == now && history == old(history)
      ensures var s := Values(history[start..]);
              r == if s == [] then 0.0 else Statistics.Mean(s)
    {
      CleanExpired(now);
      if |values| == 0 {
        return 0.0;
      }
      return sum / |values| as real;
    }

    method StandardDeviation(now: int, sqrt: real -> real) returns (r: real)
      requires Valid() && now >= last
      modifies this
      ensures Valid() && last == now && history == old(history)
      ensures var s := Values(history[start..]);
              r == if |s| < 2 then 0.0 else sqrt(Statistics.Variance(s))
    {
      CleanExpired(now);
      hide Sum, SumSquares, InOrder, Values, Times, IsStart;
      var count := |values|;
      if count < 2 {
        return 0.0;
      }
      RunningVariance(values);
      var mean := sum / count as real;
      assert mean == Statistics.Mean(values);
      hide Statistics.Mean, Statistics.Variance;
      var variance := sumSquared / count as real - mean * mean;
      assert variance == Statistics.Variance(values);
      if variance < 0.0 {
        variance := 0.0;
      }
      r := sqrt(variance);
    }

    method Percentile(p: real, now: int) returns (r: real)
      requires Valid() && now >= last
      modifies this
      ensures Valid() && last == now && history == old(history)
      ensures var s := Values(history[start..]);
              if s == [] then r == 0.0 else r in s && IsRanked(s, Position(|s|, p), r) && IsPercentile(s, p, r)
    {
      CleanExpired(now);
      hide Sum, SumSquares, InOrder, Values, Times, IsStart, IsRanked, IsPercentile;
      if |values| == 0 {
        return 0.0;
      }
      r := Pick(values, p);
    }
  }
}
