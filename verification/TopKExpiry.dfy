/**
 What cleaning leaves behind. It looks only at the top of a heap ordered by value, so an
 expired host stays as long as a fresh one lies below it.
 */
module TopKExpiry {
  import opened Heap
  import opened TopK
  import opened TopKRuns

  ghost predicate Expired(c: map<string, Record>, cutoff: int, h: string) {
    h in c && c[h].timestamp < cutoff
  }

  ghost predicate StillFresh(c: map<string, Record>, cutoff: int, h: string) {
    h in c && c[h].timestamp >= cutoff
  }

  /** A fresh host lies below this one, or at most level with it. */
  ghost predicate Shielded(c: map<string, Record>, cutoff: int, h: string, strictly: bool) {
    && h in c
    && exists g :: StillFresh(c, cutoff, g) && (c[g].value < c[h].value || (!strictly && c[g].value == c[h].value))
  }

  /** A host stays if it is fresh or a fresh host lies strictly below it, and only if one lies at most level. */
  lemma WhatStays(c: map<string, Record>, d: map<string, Record>, cutoff: int, h: string)
    requires Cleaned(c, d, cutoff) && h in c
    ensures StillFresh(c, cutoff, h) || Shielded(c, cutoff, h, true) ==> h in d
    ensures h in d ==> StillFresh(c, cutoff, h) || Shielded(c, cutoff, h, false)
  {
    if Shielded(c, cutoff, h, true) {
      var g :| StillFresh(c, cutoff, g) && c[g].value < c[h].value;
      assert g in d;
    }
    if h in d {
      var m :| Least(d, m) && d[m].timestamp >= cutoff;
      assert StillFresh(c, cutoff, m) && c[m].value <= c[h].value;
    }
  }

  /** No expired host has the value of a fresh one. */
  ghost predicate NoTies(c: map<string, Record>, cutoff: int) {
    forall h, g :: Expired(c, cutoff, h) && StillFresh(c, cutoff, g) ==> c[h].value != c[g].value
  }

  /** Every expired host lies below every fresh one. */
  ghost predicate ExpiredBelow(c: map<string, Record>, cutoff: int) {
    forall h, g :: Expired(c, cutoff, h) && StillFresh(c, cutoff, g) ==> c[h].value < c[g].value
  }

  ghost predicate NoneLeft(d: map<string, Record>, cutoff: int) {
    forall h :: !Expired(d, cutoff, h)
  }

  /** Ties apart, cleaning leaves nothing expired if and only if every expired host lies below every fresh one. */
  lemma NoneLeftIff(c: map<string, Record>, d: map<string, Record>, cutoff: int)
    requires Cleaned(c, d, cutoff)
    ensures ExpiredBelow(c, cutoff) ==> NoneLeft(d, cutoff)
    ensures NoTies(c, cutoff) ==> (NoneLeft(d, cutoff) <==> ExpiredBelow(c, cutoff))
  {
    forall h | h in c
      ensures StillFresh(c, cutoff, h) || Shielded(c, cutoff, h, true) ==> h in d
      ensures h in d ==> StillFresh(c, cutoff, h) || Shielded(c, cutoff, h, false)
    {
      WhatStays(c, d, cutoff, h);
    }
    assert forall h :: h in d ==> h in c && d[h] == c[h];
    hide Cleaned;
    if !ExpiredBelow(c, cutoff) && NoTies(c, cutoff) {
      var h, g :| Expired(c, cutoff, h) && StillFresh(c, cutoff, g) && !(c[h].value < c[g].value);
      assert Shielded(c, cutoff, h, true);
      assert Expired(d, cutoff, h);
    }
  }

  /** What stays if a tie spares the expired host. */
  function Spared(c: map<string, Record>, cutoff: int): map<string, Record> {
    map h | h in c && (c[h].timestamp >= cutoff ||
                       exists g :: g in c && c[g].timestamp >= cutoff && c[g].value <= c[h].value) :: c[h]
  }

  function FreshPart(c: map<string, Record>, cutoff: int): map<string, Record> {
    map h | h in c && c[h].timestamp >= cutoff :: c[h]
  }

  lemma SparedIsCleaning(c: map<string, Record>, cutoff: int, g: string)
    requires StillFresh(c, cutoff, g)
    ensures Cleaned(c, Spared(c, cutoff), cutoff)
  {
    var d, f := Spared(c, cutoff), FreshPart(c, cutoff);
    assert g in f;
    var m := LeastExists(f);
    forall h | h in d ensures d[m].value <= d[h].value {
      if c[h].timestamp < cutoff {
        var x :| x in c && c[x].timestamp >= cutoff && c[x].value <= c[h].value;
        assert x in f;
      } else {
        assert h in f;
      }
    }
    assert Least(d, m) && d[m].timestamp >= cutoff;
  }

  /** Cleaning is bound to leave nothing expired if and only if every expired host lies below every fresh one. */
  lemma NoneLeftAlwaysIff(c: map<string, Record>, cutoff: int)
    ensures (forall d :: Cleaned(c, d, cutoff) ==> NoneLeft(d, cutoff)) <==> ExpiredBelow(c, cutoff)
  {
    if ExpiredBelow(c, cutoff) {
      forall d | Cleaned(c, d, cutoff) ensures NoneLeft(d, cutoff) {
        NoneLeftIff(c, d, cutoff);
      }
    } else {
      var h, g :| Expired(c, cutoff, h) && StillFresh(c, cutoff, g) && !(c[h].value < c[g].value);
      SparedIsCleaning(c, cutoff, g);
      hide Cleaned;
      assert Expired(Spared(c, cutoff), cutoff, h);
    }
  }

  /** What one report does when nothing tracked has expired and there is room. */
  lemma FreshReport(a: View, host: string, value: real, now: int, b: View, ttl: int)
    requires Step(a, Report(host, value, now), b, ttl)
    requires NoExpiry(a, Report(host, value, now), ttl) && |a.tracked| < a.k
    ensures b.k == a.k
    ensures b.tracked ==
            a.tracked[host := Record(value, now, if host in a.tracked then a.tracked[host].updates + 1 else 1)]
  {
    hide Observed, Cleaned;
    var c :| Cleaned(a.tracked, c, now - ttl) && Observed(c, b.tracked, a.k, host, Record(value, now, 1));
    NothingCleaned(a.tracked, c, now - ttl);
    ObservedWithRoom(c, b.tracked, a.k, host, Record(value, now, 1));
  }

  lemma ObservedWithRoom(c: map<string, Record>, d: map<string, Record>, k: int, host: string, rec: Record)
    requires Observed(c, d, k, host, rec) && |c| < k
    ensures d == c[host := if host in c then rec.(updates := c[host].updates + 1) else rec]
  {
  }

  /**
   A run that shows it: a small host reported again in time hides a larger one, which is still tracked
   after the call that finds it expired.
   */
  lemma ExpiredHostStays(a: View, b: View, c: View, d: View, e: View, ttl: nat, low: string, high: string)
    requires a.tracked == map[] && a.k >= 3 && ttl >= 1 && low != high
    requires Step(a, Report(high, 2.0, 0), b, ttl) && Step(b, Report(low, 1.0, 0), c, ttl)
    requires Step(c, Report(low, 1.0, ttl), d, ttl) && Step(d, Report(low, 1.0, ttl + 1), e, ttl)
    ensures Expired(e.tracked, 1, high)
  {
    hide Step, Shielded;
    TwoFreshHosts(a, b, c, ttl, low, high);
    assert c.tracked.Keys == {high, low};
    FreshReport(c, low, 1.0, ttl, d, ttl);
    HighShielded(d.tracked, ttl, low, high);
    HiddenStays(d, low, 1.0, ttl + 1, e, ttl, high);
  }

  lemma TwoFreshHosts(a: View, b: View, c: View, ttl: nat, low: string, high: string)
    requires a.tracked == map[] && a.k >= 3
    requires Step(a, Report(high, 2.0, 0), b, ttl) && Step(b, Report(low, 1.0, 0), c, ttl) && low != high
    ensures c.tracked == map[high := Record(2.0, 0, 1), low := Record(1.0, 0, 1)] && c.k == a.k
  {
    hide Step;
    FreshReport(a, high, 2.0, 0, b, ttl);
    assert b.tracked.Keys == {high};
    FreshReport(b, low, 1.0, 0, c, ttl);
  }

  lemma HighShielded(c: map<string, Record>, ttl: nat, low: string, high: string)
    requires ttl >= 1 && low != high && low in c && high in c
    requires c[low] == Record(1.0, ttl, 2) && c[high] == Record(2.0, 0, 1)
    ensures Shielded(c, 1, high, true) && StillFresh(c, 1, low) && Expired(c, 1, high)
  {
    assert StillFresh(c, 1, low) && c[low].value < c[high].value;
  }

  /** A hidden host survives a report of another that is tracked and fresh. */
  lemma HiddenStays(a: View, host: string, value: real, now: int, b: View, ttl: int, h: string)
    requires Step(a, Report(host, value, now), b, ttl) && h != host
    requires StillFresh(a.tracked, now - ttl, host) && Shielded(a.tracked, now - ttl, h, true)
    ensures h in b.tracked && b.tracked[h] == a.tracked[h]
  {
    var c :| Cleaned(a.tracked, c, now - ttl) && Observed(c, b.tracked, a.k, host, Record(value, now, 1));
    hide Step, Shielded;
    WhatStays(a.tracked, c, now - ttl, h);
    WhatStays(a.tracked, c, now - ttl, host);
    KeptRecord(a.tracked, c, now - ttl, h);
    hide Cleaned, Pruned, Least;
  }

  lemma KeptRecord(c: map<string, Record>, d: map<string, Record>, cutoff: int, h: string)
    requires Pruned(c, d, cutoff) && h in d
    ensures h in c && d[h] == c[h]
  {
  }

  /** On a tie either outcome is a cleaning; the heap's layout decides. */
  lemma TieLeftOpen(a: string, b: string, now: nat, ttl: nat)
    requires a != b && now > ttl
    ensures var c := map[a := Record(1.0, now, 1), b := Record(1.0, 0, 1)];
            Cleaned(c, c, now - ttl) && Cleaned(c, c - {b}, now - ttl)
  {
    var c := map[a := Record(1.0, now, 1), b := Record(1.0, 0, 1)];
    assert Least(c, a) && Least(c - {b}, a);
  }
}
