/**
 Whole runs of a top-K processor, seen through what it tracks: when the tracked hosts are
 the K largest of all hosts reported so far.
 */
module TopKRuns {
  import opened Heap
  import opened TopK

  /** The processor's tracked hosts and K; `latest` is each host's last reported value, tracked or not. */
  datatype View = View(tracked: map<string, Record>, k: int, latest: map<string, real>)

  datatype Event =
    | Report(host: string, value: real, now: int)
    | Batch(items: seq<(string, real)>, now: int)
    | Resize(k: int)

  /** The last reported values after some more reports. */
  function LatestAfter(latest: map<string, real>, items: seq<(string, real)>): map<string, real> {
    if items == [] then latest
    else
      var last := items[|items| - 1];
      LatestAfter(latest, items[..|items| - 1])[last.0 := last.1]
  }

  /** `trace[i]` is what is tracked before the i-th item of a batch. */
  ghost predicate Traced(trace: seq<map<string, Record>>, items: seq<(string, real)>, now: int, k: int) {
    && |trace| == |items| + 1
    && forall i :: 0 <= i < |items| ==> Observed(trace[i], trace[i + 1], k, items[i].0, Record(items[i].1, now, 1))
  }

  /** One call on an open processor whose time to live is `ttl`. */
  ghost predicate Step(a: View, e: Event, b: View, ttl: int) {
    match e
    case Report(host, value, now) =>
      && b.k == a.k
      && b.latest == a.latest[host := value]
      && exists c :: Cleaned(a.tracked, c, now - ttl) && Observed(c, b.tracked, a.k, host, Record(value, now, 1))
    case Batch(items, now) =>
      && b.k == a.k
      && b.latest == LatestAfter(a.latest, items)
      && exists trace :: Traced(trace, items, now, a.k) && Cleaned(a.tracked, trace[0], now - ttl) &&
                         b.tracked == trace[|items|]
    case Resize(k) =>
      b.latest == a.latest && if k <= 0 then b == a else b.k == k && Shrunk(a.tracked, b.tracked, k)
  }

  /** Nothing tracked is past its time to live when the event arrives. */
  ghost predicate NoExpiry(a: View, e: Event, ttl: int) {
    !e.Resize? ==> forall h :: h in a.tracked ==> a.tracked[h].timestamp >= e.now - ttl
  }

  /** The tracked hosts are min(K, hosts seen) hosts with their latest values, and no other host's is larger. */
  ghost predicate Exact(a: View) {
    && a.k > 0
    && a.tracked.Keys <= a.latest.Keys
    && (forall h :: h in a.tracked ==> a.tracked[h].value == a.latest[h])
    && |a.tracked| == (if |a.latest| <= a.k then |a.latest| else a.k)
    && (forall t, u :: t in a.tracked && u in a.latest && u !in a.tracked ==> a.latest[u] <= a.tracked[t].value)
  }

  /** What the reported value must respect: a tracked host may not fall below a host that was turned away. */
  ghost predicate Admissible(a: View, host: string, value: real) {
    host in a.tracked ==> forall u :: u in a.latest && u !in a.tracked ==> a.latest[u] <= value
  }

  lemma NothingCleaned(c: map<string, Record>, d: map<string, Record>, cutoff: int)
    requires Cleaned(c, d, cutoff) && forall h :: h in c ==> c[h].timestamp >= cutoff
    ensures d == c
  {
    assert forall h :: h in c ==> h in d;
  }

  /** A report keeps the result exact if and only if it is admissible. */
  lemma ReportExact(a: View, e: Event, b: View, ttl: int)
    requires Exact(a) && e.Report? && Step(a, e, b, ttl) && NoExpiry(a, e, ttl)
    ensures Exact(b) <==> Admissible(a, e.host, e.value)
  {
    var c :| Cleaned(a.tracked, c, e.now - ttl) && Observed(c, b.tracked, a.k, e.host, Record(e.value, e.now, 1));
    NothingCleaned(a.tracked, c, e.now - ttl);
    hide Cleaned, NoExpiry, Step;
    ObservedExact(a, e, b);
  }

  lemma ObservedExact(a: View, e: Event, b: View)
    requires Exact(a) && e.Report? && b.k == a.k && b.latest == a.latest[e.host := e.value]
    requires Observed(a.tracked, b.tracked, a.k, e.host, Record(e.value, e.now, 1))
    ensures Exact(b) <==> Admissible(a, e.host, e.value)
  {
    if e.host in a.tracked {
      UpdateExact(a, e, b);
    } else {
      NewHostExact(a, e, b);
    }
  }

  lemma UpdateExact(a: View, e: Event, b: View)
    requires Exact(a) && e.Report? && b.k == a.k && b.latest == a.latest[e.host := e.value] && e.host in a.tracked
    requires Observed(a.tracked, b.tracked, a.k, e.host, Record(e.value, e.now, 1))
    ensures Exact(b) <==> Admissible(a, e.host, e.value)
  {
    assert b.tracked.Keys == a.tracked.Keys && b.latest.Keys == a.latest.Keys;
    assert |b.tracked| == |a.tracked| && |b.latest| == |a.latest|;
    if !Admissible(a, e.host, e.value) {
      var u :| u in a.latest && u !in a.tracked && !(a.latest[u] <= e.value);
      assert b.latest[u] > b.tracked[e.host].value;
    }
  }

  lemma RoomExact(a: View, e: Event, b: View)
    requires Exact(a) && e.Report? && e.host !in a.tracked && |a.tracked| < a.k
    requires b == View(a.tracked[e.host := Record(e.value, e.now, 1)], a.k, a.latest[e.host := e.value])
    ensures Exact(b)
  {
    SubsetEqual(a.tracked.Keys, a.latest.Keys);
    assert b.tracked.Keys == a.tracked.Keys + {e.host} == b.latest.Keys;
    assert |b.tracked| == |a.tracked| + 1;
  }

  lemma ReplaceExact(a: View, e: Event, b: View, v: string)
    requires Exact(a) && e.Report? && e.host !in a.tracked && |a.tracked| == a.k
    requires Least(a.tracked, v) && a.tracked[v].value < e.value
    requires b == View((a.tracked - {v})[e.host := Record(e.value, e.now, 1)], a.k, a.latest[e.host := e.value])
    ensures Exact(b)
  {
    assert b.latest.Keys == a.latest.Keys + {e.host};
    assert b.tracked.Keys == a.tracked.Keys - {v} + {e.host};
    assert |b.tracked| == |a.tracked|;
    forall t, u | t in b.tracked && u in b.latest && u !in b.tracked
      ensures b.latest[u] <= b.tracked[t].value
    {
      assert a.latest[u] <= a.tracked[v].value;
    }
  }

  lemma DiscardExact(a: View, e: Event, b: View)
    requires Exact(a) && e.Report? && e.host !in a.tracked && |a.tracked| == a.k
    requires !exists v :: Least(a.tracked, v) && a.tracked[v].value < e.value
    requires b == a.(latest := a.latest[e.host := e.value])
    ensures Exact(b)
  {
    assert b.latest.Keys == a.latest.Keys + {e.host};
    var m := LeastExists(a.tracked);
    assert e.value <= a.tracked[m].value;
  }

  lemma NewHostExact(a: View, e: Event, b: View)
    requires Exact(a) && e.Report? && b.k == a.k && b.latest == a.latest[e.host := e.value] && e.host !in a.tracked
    requires Observed(a.tracked, b.tracked, a.k, e.host, Record(e.value, e.now, 1))
    ensures Exact(b)
  {
    assert |a.tracked| <= a.k;
    hide Exact, Least;
    if |a.tracked| < a.k {
      RoomExact(a, e, b);
    } else if v :| Least(a.tracked, v) && a.tracked[v].value < e.value {
      var w :| Least(a.tracked, w) && b.tracked == (a.tracked - {w})[e.host := Record(e.value, e.now, 1)];
      LeastEqual(a.tracked, v, w);
      ReplaceExact(a, e, b, w);
    } else {
      DiscardExact(a, e, b);
    }
  }

  lemma LeastEqual(c: map<string, Record>, v: string, w: string)
    requires Least(c, v) && Least(c, w)
    ensures c[v].value == c[w].value
  {
  }

  lemma {:induction false} LeastExists(c: map<string, Record>) returns (m: string)
    requires c != map[]
    ensures Least(c, m)
    decreases |c|
  {
    var h :| h in c;
    var d := c - {h};
    assert forall g :: g in c ==> g == h || g in d;
    if d == map[] {
      return h;
    }
    assert d.Keys == c.Keys - {h};
    var m' := LeastExists(d);
    m := if c[h].value <= c[m'].value then h else m';
  }

  /** A new K keeps the result exact if and only if it is no larger, or every host seen is tracked anyway. */
  lemma ResizeExact(a: View, e: Event, b: View, ttl: int)
    requires Exact(a) && e.Resize? && Step(a, e, b, ttl)
    ensures Exact(b) <==> e.k <= a.k || |a.latest| <= a.k
  {
    if 0 < e.k {
      forall t, u | t in b.tracked && u in b.latest && u !in b.tracked
        ensures b.latest[u] <= b.tracked[t].value
      {
        if u in a.tracked { assert a.tracked[u].value <= b.tracked[t].value; }
      }
    }
  }

  // ----- Batches -----

  /** The processor before the i-th item of a batch. */
  ghost function Midway(a: View, trace: seq<map<string, Record>>, items: seq<(string, real)>, i: nat): View
    requires i <= |items| < |trace|
  {
    View(trace[i], a.k, LatestAfter(a.latest, items[..i]))
  }

  /** A batch whose items are admissible, each in its turn, keeps the result exact all along. */
  lemma {:induction false} BatchMidway(a: View, trace: seq<map<string, Record>>, items: seq<(string, real)>,
                                       now: int, i: nat)
    requires Exact(a) && Traced(trace, items, now, a.k) && trace[0] == a.tracked && i <= |items|
    requires forall j :: 0 <= j < i ==> Admissible(Midway(a, trace, items, j), items[j].0, items[j].1)
    ensures Exact(Midway(a, trace, items, i))
    decreases i
  {
    if i == 0 {
      assert items[..0] == [];
    } else {
      BatchMidway(a, trace, items, now, i - 1);
      var m, n := Midway(a, trace, items, i - 1), Midway(a, trace, items, i);
      assert items[..i][..i - 1] == items[..i - 1];
      hide Exact, Admissible, Observed;
      ObservedExact(m, Report(items[i - 1].0, items[i - 1].1, now), n);
    }
  }

  /** No item of a batch reports less than the host's last value, in the batch or before it. */
  ghost predicate Rising(latest: map<string, real>, items: seq<(string, real)>) {
    forall i :: 0 <= i < |items| ==>
      var before := LatestAfter(latest, items[..i]);
      items[i].0 in before ==> before[items[i].0] <= items[i].1
  }

  lemma {:induction false} RisingMidway(a: View, trace: seq<map<string, Record>>, items: seq<(string, real)>,
                                        now: int, i: nat)
    requires Exact(a) && Traced(trace, items, now, a.k) && trace[0] == a.tracked
    requires i <= |items| && Rising(a.latest, items)
    ensures Exact(Midway(a, trace, items, i))
    ensures i < |items| ==> Admissible(Midway(a, trace, items, i), items[i].0, items[i].1)
    decreases i
  {
    if i > 0 {
      forall j | 0 <= j < i ensures Admissible(Midway(a, trace, items, j), items[j].0, items[j].1) {
        RisingMidway(a, trace, items, now, j);
      }
    }
    BatchMidway(a, trace, items, now, i);
    hide Traced;
  }

  lemma BatchExact(a: View, e: Event, b: View, ttl: int)
    requires Exact(a) && e.Batch? && Step(a, e, b, ttl) && NoExpiry(a, e, ttl) && Rising(a.latest, e.items)
    ensures Exact(b)
  {
    var trace :| Traced(trace, e.items, e.now, a.k) && Cleaned(a.tracked, trace[0], e.now - ttl) &&
                 b.tracked == trace[|e.items|];
    NothingCleaned(a.tracked, trace[0], e.now - ttl);
    hide Cleaned, NoExpiry, Exact, Rising;
    RisingMidway(a, trace, e.items, e.now, |e.items|);
    assert e.items[..|e.items|] == e.items;
  }

  // ----- Runs -----

  /** A run and its states: no expiry, K never raised, and no host ever reports a lower value than before. */
  ghost predicate Run(views: seq<View>, events: seq<Event>, ttl: int) {
    && |views| == |events| + 1
    && (forall i :: 0 <= i < |events| ==> Step(views[i], events[i], views[i + 1], ttl))
  }

  ghost predicate Tame(views: seq<View>, events: seq<Event>, ttl: int)
    requires |views| == |events| + 1
  {
    forall i :: 0 <= i < |events| ==> TameStep(views[i], events[i], ttl)
  }

  ghost predicate TameStep(a: View, e: Event, ttl: int) {
    && NoExpiry(a, e, ttl)
    && (e.Resize? ==> e.k <= a.k)
    && (e.Report? && e.host in a.latest ==> a.latest[e.host] <= e.value)
    && (e.Batch? ==> Rising(a.latest, e.items))
  }

  lemma TameExact(a: View, e: Event, b: View, ttl: int)
    requires Exact(a) && Step(a, e, b, ttl) && TameStep(a, e, ttl)
    ensures Exact(b)
  {
    match e
    case Report(_, _, _) => ReportExact(a, e, b, ttl);
    case Batch(_, _) => BatchExact(a, e, b, ttl);
    case Resize(_) => ResizeExact(a, e, b, ttl);
  }

  /** Along every tame run from an empty processor the tracked hosts are exactly the K largest. */
  lemma {:induction false} TopKTheorem(views: seq<View>, events: seq<Event>, ttl: int, n: nat)
    requires Run(views, events, ttl) && Tame(views, events, ttl)
    requires views[0].k > 0 && views[0].tracked == map[] && views[0].latest == map[]
    requires n < |views|
    ensures Exact(views[n])
    decreases n
  {
    if n > 0 {
      TopKTheorem(views, events, ttl, n - 1);
      TameExact(views[n - 1], events[n - 1], views[n], ttl);
    }
  }
}
