/**
 The replicated log of the broker: the mutable `Log` and, beside it, what each of its
 operations does to the sequence of entries. Saving to and loading from disk is left out.
 */
module RaftLog {
  import opened Wrappers

  datatype LogType = LogCommand | LogConfiguration | LogNoop

  datatype LogEntry = LogEntry(term: nat, index: nat, command: string, kind: LogType)

  /** The arguments of an AppendEntries call. */
  datatype Message = Message(prevIndex: nat, prevTerm: nat, entries: seq<LogEntry>)

  /** Entry `i` sits at index `i + 1`. */
  ghost predicate Indexed(log: seq<LogEntry>) {
    forall i :: 0 <= i < |log| ==> log[i].index == i + 1
  }

  /** A message's entries continue its previous index, as a leader numbers them. */
  ghost predicate WellIndexed(m: Message) {
    forall i :: 0 <= i < |m.entries| ==> m.entries[i].index == m.prevIndex + i + 1
  }

  /** The index the last entry carries. */
  function Last(log: seq<LogEntry>): nat {
    if log == [] then 0 else log[|log| - 1].index
  }

  lemma LastIndexed(log: seq<LogEntry>)
    requires Indexed(log)
    ensures Last(log) == |log|
  {
  }

  /** The consistency check: the log holds the entry that precedes the message. */
  ghost predicate Accepts(log: seq<LogEntry>, m: Message) {
    m.prevIndex == 0 || (m.prevIndex <= |log| && log[m.prevIndex - 1].term == m.prevTerm)
  }

  /** How many leading entries of the message the log already holds, judged by term. */
  ghost function Agreeing(log: seq<LogEntry>, prev: nat, entries: seq<LogEntry>): (k: nat)
    requires prev <= |log|
    ensures k <= |entries| && prev + k <= |log|
    ensures forall i :: 0 <= i < k ==> log[prev + i].term == entries[i].term
    ensures k < |entries| && prev + k < |log| ==> log[prev + k].term != entries[k].term
    decreases |entries|
  {
    if entries == [] || prev == |log| || log[prev].term != entries[0].term then 0
    else 1 + Agreeing(log, prev + 1, entries[1..])
  }

  /** The log after an accepted message: untouched if it holds every entry, else cut at the first one it lacks. */
  ghost function Merge(log: seq<LogEntry>, m: Message): seq<LogEntry>
    requires m.prevIndex <= |log|
  {
    var k := Agreeing(log, m.prevIndex, m.entries);
    if k == |m.entries| then log else log[..m.prevIndex + k] + m.entries[k..]
  }

  /** An entry the log lacks, not the last of the message, carries an index past its place. */
  ghost predicate Overnumbered(log: seq<LogEntry>, m: Message)
    requires m.prevIndex <= |log|
  {
    exists j :: TooHigh(m, j) && Agreeing(log, m.prevIndex, m.entries) <= j
  }

  ghost predicate TooHigh(m: Message, j: int) {
    0 <= j < |m.entries| - 1 && m.entries[j].index > m.prevIndex + j + 1
  }

  /** The entries a log takes over carry the index of their place. */
  ghost predicate Numbered(log: seq<LogEntry>, m: Message)
    requires m.prevIndex <= |log|
  {
    forall j :: Agreeing(log, m.prevIndex, m.entries) <= j < |m.entries| ==> m.entries[j].index == m.prevIndex + j + 1
  }

  /** The log after the first `i` entries of a message: as it was, or cut at the first entry it lacks. */
  ghost function Progress(log: seq<LogEntry>, m: Message, i: nat): seq<LogEntry>
    requires m.prevIndex <= |log| && i <= |m.entries|
  {
    var k := Agreeing(log, m.prevIndex, m.entries);
    if i <= k then log else log[..m.prevIndex + k] + m.entries[k..i]
  }

  lemma ProgressStep(log: seq<LogEntry>, m: Message, i: nat)
    requires m.prevIndex <= |log| && i < |m.entries|
    ensures var k, now, next := Agreeing(log, m.prevIndex, m.entries), Progress(log, m, i), Progress(log, m, i + 1);
            && (i < k ==> now == next == log && m.prevIndex + i < |log|)
            && (i < k ==> log[m.prevIndex + i].term == m.entries[i].term)
            && (i == k ==> now == log && next == log[..m.prevIndex + i] + [m.entries[i]])
            && (i > k ==> |now| == m.prevIndex + i && now[|now| - 1] == m.entries[i - 1])
            && (i > k ==> next == now + [m.entries[i]])
  {
    var k := Agreeing(log, m.prevIndex, m.entries);
    hide Agreeing;
    if i > k {
      assert m.entries[k..i + 1] == m.entries[k..i] + [m.entries[i]];
    } else if i == k {
      assert m.entries[k..k + 1] == [m.entries[k]];
    }
  }

  lemma ProgressAll(log: seq<LogEntry>, m: Message)
    requires m.prevIndex <= |log|
    ensures Progress(log, m, 0) == log && Progress(log, m, |m.entries|) == Merge(log, m)
  {
    assert m.entries[..|m.entries|] == m.entries;
  }

  /** An indexed log stays indexed exactly if the entries it takes over are numbered by their place. */
  lemma MergeIndexedIff(log: seq<LogEntry>, m: Message)
    requires Indexed(log) && m.prevIndex <= |log|
    ensures Indexed(Merge(log, m)) <==> Numbered(log, m)
    ensures WellIndexed(m) ==> Numbered(log, m) && !Overnumbered(log, m)
  {
    var k, r := Agreeing(log, m.prevIndex, m.entries), Merge(log, m);
    hide Agreeing;
    if k < |m.entries| {
      assert forall j :: k <= j < |m.entries| ==> r[m.prevIndex + j] == m.entries[j];
      assert forall i :: 0 <= i < m.prevIndex + k ==> r[i] == log[i];
      assert forall i :: m.prevIndex + k <= i < |r| ==> r[i] == m.entries[i - m.prevIndex];
    }
  }

  // ----- Any log, in order or not -----

  /** The check as the code makes it, which also asks the number of the last entry. */
  ghost predicate Passes(log: seq<LogEntry>, m: Message) {
    m.prevIndex == 0 || (m.prevIndex <= Last(log) && Accepts(log, m))
  }

  /** How the loop ends: through, or at an entry that is not there. */
  datatype Outcome = Done(log: seq<LogEntry>) | Broken(log: seq<LogEntry>)

  /** The passes of the loop from position `p` on. */
  function Handle(log: seq<LogEntry>, p: nat, news: seq<LogEntry>): Outcome
    decreases |news|
  {
    if news == [] then Done(log)
    else if p >= Last(log) then Handle(log + [news[0]], p + 1, news[1..])
    else if p >= |log| then Broken(log)
    else if log[p].term != news[0].term then Handle(log[..p] + [news[0]], p + 1, news[1..])
    else Handle(log, p + 1, news[1..])
  }

  lemma HandleOnce(log: seq<LogEntry>, p: nat, news: seq<LogEntry>, e: LogEntry, rest: seq<LogEntry>)
    requires news != [] && e == news[0] && rest == news[1..]
    ensures p >= Last(log) ==> Handle(log, p, news) == Handle(log + [e], p + 1, rest)
    ensures |log| <= p < Last(log) ==> Handle(log, p, news) == Broken(log)
    ensures p < Last(log) && p < |log| && log[p].term != e.term ==>
              Handle(log, p, news) == Handle(log[..p] + [e], p + 1, rest)
    ensures p < Last(log) && p < |log| && log[p].term == e.term ==> Handle(log, p, news) == Handle(log, p + 1, rest)
  {
  }

  /** The pass of entry `i` breaks. */
  ghost predicate BreaksAt(log: seq<LogEntry>, m: Message, i: nat)
    requires m.prevIndex <= |log|
  {
    TooHigh(m, i - 1) && Agreeing(log, m.prevIndex, m.entries) <= i - 1
  }

  /** What the next pass does, from the facts about the log before and after it. */
  lemma PassMoves(log: seq<LogEntry>, now: seq<LogEntry>, next: seq<LogEntry>, p: nat, news: seq<LogEntry>)
    requires news != []
    requires || (p < |log| == Last(log) && now == next == log && log[p].term == news[0].term)
             || (p < |log| == Last(log) && now == log && log[p].term != news[0].term && next == log[..p] + [news[0]])
             || (p >= Last(now) && next == now + [news[0]])
    ensures Handle(now, p, news) == Handle(next, p + 1, news[1..])
  {
    hide Handle;
    HandleOnce(now, p, news, news[0], news[1..]);
  }

  lemma HandleStep(log: seq<LogEntry>, m: Message, i: nat)
    requires Indexed(log) && m.prevIndex <= |log| && i < |m.entries|
    ensures var now, p := Progress(log, m, i), m.prevIndex + i;
            if BreaksAt(log, m, i) then Handle(now, p, m.entries[i..]) == Broken(now)
            else Handle(now, p, m.entries[i..]) == Handle(Progress(log, m, i + 1), p + 1, m.entries[i + 1..])
  {
    var k := Agreeing(log, m.prevIndex, m.entries);
    var now, p, rest := Progress(log, m, i), m.prevIndex + i, m.entries[i..];
    hide Agreeing, Progress, Indexed, Handle;
    ProgressStep(log, m, i);
    LastIndexed(log);
    assert rest[0] == m.entries[i] && rest[1..] == m.entries[i + 1..];
    if i > k && p < Last(now) {
      HandleOnce(now, p, rest, rest[0], rest[1..]);
    } else {
      assert p == |log| ==> log[..p] == log;
      PassMoves(log, now, Progress(log, m, i + 1), p, rest);
    }
  }

  /** How the loop ends on a log in order: through with the merge, or broken because a number runs ahead. */
  ghost predicate EndsAs(log: seq<LogEntry>, m: Message, o: Outcome)
    requires m.prevIndex <= |log|
  {
    && (o.Done? <==> !Overnumbered(log, m))
    && (o.Done? ==> o.log == Merge(log, m))
    && (o.Broken? ==> exists i :: 0 <= i <= |m.entries| && o.log == Progress(log, m, i))
  }

  ghost predicate NoneHigh(log: seq<LogEntry>, m: Message, i: nat)
    requires m.prevIndex <= |log|
  {
    forall j :: Agreeing(log, m.prevIndex, m.entries) <= j < i - 1 ==> !TooHigh(m, j)
  }

  lemma EndsThrough(log: seq<LogEntry>, m: Message)
    requires m.prevIndex <= |log| && NoneHigh(log, m, |m.entries|)
    ensures EndsAs(log, m, Done(Progress(log, m, |m.entries|)))
  {
    hide Agreeing, Progress, Merge;
    ProgressAll(log, m);
  }

  lemma EndsBroken(log: seq<LogEntry>, m: Message, i: nat)
    requires m.prevIndex <= |log| && i < |m.entries| && BreaksAt(log, m, i)
    ensures EndsAs(log, m, Broken(Progress(log, m, i)))
  {
    hide Agreeing, Progress, Merge;
  }

  lemma {:induction false} HandleProgress(log: seq<LogEntry>, m: Message, i: nat)
    requires Indexed(log) && m.prevIndex <= |log| && i <= |m.entries| && NoneHigh(log, m, i)
    ensures EndsAs(log, m, Handle(Progress(log, m, i), m.prevIndex + i, m.entries[i..]))
    decreases |m.entries| - i
  {
    hide Agreeing, Progress, Indexed, EndsAs;
    if i == |m.entries| {
      assert m.entries[i..] == [];
      EndsThrough(log, m);
    } else {
      HandleStep(log, m, i);
      hide Handle;
      if BreaksAt(log, m, i) {
        EndsBroken(log, m, i);
      } else {
        assert NoneHigh(log, m, i + 1);
        HandleProgress(log, m, i + 1);
      }
    }
  }

  /** On a log in order the loop makes one cut and one append, or breaks where a number runs ahead. */
  lemma HandleIndexed(log: seq<LogEntry>, m: Message)
    requires Indexed(log) && m.prevIndex <= |log|
    ensures EndsAs(log, m, Handle(log, m.prevIndex, m.entries))
  {
    hide Handle, EndsAs, Progress, Agreeing, Indexed, Merge;
    HandleProgress(log, m, 0);
    ProgressAll(log, m);
    assert m.entries[0..] == m.entries;
  }

  /** The entries from `start` to `end`, both included and both cut to what exists. */
  ghost function Slice(log: seq<LogEntry>, start: nat, end: nat): seq<LogEntry> {
    var lo := if start == 0 then 0 else start - 1;
    var hi := if end > |log| then |log| else end;
    if lo <= hi then log[lo..hi] else []
  }

  lemma SliceStep(log: seq<LogEntry>, start: nat, i: nat)
    requires i >= 1 && start <= i
    ensures Slice(log, start, i) == Slice(log, start, i - 1) + if i <= |log| then [log[i - 1]] else []
  {
    var lo := if start == 0 then 0 else start - 1;
    if i <= |log| { assert log[lo..i] == log[lo..i - 1] + [log[i - 1]]; }
  }

  lemma SliceNone(log: seq<LogEntry>, start: nat)
    ensures start > 0 ==> Slice(log, start, start - 1) == []
    ensures Slice(log, 0, 0) == []
  {
  }

  /** Of a log in order, a slice is the entries numbered from `start` to `end`, in order. */
  lemma SliceNumbers(log: seq<LogEntry>, start: nat, end: nat)
    requires Indexed(log)
    ensures var r, first := Slice(log, start, end), if start == 0 then 1 else start;
            && (forall i :: 0 <= i < |r| ==> r[i].index == first + i && r[i] in log)
            && (forall e :: e in log && start <= e.index <= end ==> e in r)
            && (forall e :: e in r ==> start <= e.index <= end)
  {
    var r, lo := Slice(log, start, end), if start == 0 then 0 else start - 1;
    forall e | e in log && start <= e.index <= end ensures e in r {
      var i :| 0 <= i < |log| && log[i] == e;
      assert r[i - lo] == e;
    }
  }

  /** On a log in order the clipping to the last number is the clipping to the length. */
  lemma ClippedSlice(log: seq<LogEntry>, start: nat, end: nat)
    requires Indexed(log)
    ensures Last(log) == |log|
    ensures Slice(log, start, if end > |log| then |log| else end) == Slice(log, start, end)
    ensures start > |log| ==> Slice(log, start, end) == []
  {
    LastIndexed(log);
  }

  /** The answer to AppendEntries. */
  datatype Reply = Rejected | Accepted(last: nat) | Panicked

  class Log {
    var entries: seq<LogEntry>
    var commitIndex: nat
    var lastApplied: nat

    constructor ()
      ensures entries == [] && commitIndex == 0 && lastApplied == 0
    {
      entries, commitIndex, lastApplied := [], 0, 0;
    }

    function LastIndex(): (r: nat)
      reads this
      ensures r == Last(entries)
      ensures Indexed(entries) ==> r == |entries|
    {
      if |entries| == 0 then 0 else entries[|entries| - 1].index
    }

    function GetEntry(index: nat): (r: Option<LogEntry>)
      reads this
      ensures Indexed(entries) ==> (r.Some? <==> 1 <= index <= |entries|)
      ensures r.Some? ==> r.value in entries && (Indexed(entries) ==> r.value.index == index)
    {
      if index == 0 || index > LastIndex() then None
      else if index - 1 >= |entries| then None
      else Some(entries[index - 1])
    }

    method Append(entry: LogEntry) returns (index: nat)
      modifies this`entries
      ensures index == old(Last(entries)) + 1
      ensures entries == old(entries) + [entry.(index := index)]
      ensures old(Indexed(entries)) ==> Indexed(entries) && index == old(|entries|) + 1
    {
      var e := entry;
      if |entries| > 0 {
        e := e.(index := entries[|entries| - 1].index + 1);
      } else {
        e := e.(index := 1);
      }
      entries := entries + [e];
      return e.index;
    }

    /**
     On a log in order: rejected unless the previous entry matches, and a message whose entries run ahead
     of their places makes the loop read an entry that is not there. On any log: the loop's passes.
     */
    method AppendEntries(m: Message) returns (r: Reply)
      modifies this`entries
      ensures r.Rejected? <==> !old(Passes(entries, m))
      ensures r.Rejected? ==> entries == old(entries)
      ensures !r.Rejected? ==>
                entries == old(Handle(entries, m.prevIndex, m.entries)).log &&
                (r.Accepted? <==> old(Handle(entries, m.prevIndex, m.entries)).Done?)
      ensures r.Accepted? ==> r.last == Last(entries)
      ensures old(Indexed(entries)) ==>
                && (r.Rejected? <==> !old(Accepts(entries, m)))
                && (r.Panicked? <==> old(Accepts(entries, m) && Overnumbered(entries, m)))
                && (r.Accepted? ==> entries == old(Merge(entries, m)))
                && (r.Accepted? ==> (Indexed(entries) <==> old(Numbered(entries, m))))
                && (WellIndexed(m) ==> !r.Panicked? && Indexed(entries) && (r.Accepted? ==> r.last == |entries|))
    {
      if m.prevIndex > 0 {
        var prev := GetEntry(m.prevIndex);
        if prev.None? || prev.value.term != m.prevTerm {
          return Rejected;
        }
      }
      if Indexed(entries) {
        HandleIndexed(entries, m);
        MergeIndexedIff(entries, m);
      }
      hide Merge, Overnumbered, Numbered;
      if |m.entries| == 0 {
        return Accepted(LastIndex());
      }
      var done := Absorb(m.prevIndex, m.entries);
      return if done then Accepted(LastIndex()) else Panicked;
    }

    /** The loop of AppendEntries; it stops where it would read an entry that is not there. */
    method Absorb(prev: nat, news: seq<LogEntry>) returns (done: bool)
      modifies this`entries
      ensures (if done then Done(entries) else Broken(entries)) == old(Handle(entries, prev, news))
    {
      for i := 0 to |news|
        invariant Handle(entries, prev + i, news[i..]) == old(Handle(entries, prev, news))
      {
        assert news[i..][1..] == news[i + 1..];
        var index := prev + i + 1;
        if index <= LastIndex() {
          var existing := GetEntry(index);
          if existing.None? {
            return false;
          }
          if existing.value.term != news[i].term {
            entries := entries[..index - 1];
            entries := entries + [news[i]];
          }
        } else {
          entries := entries + [news[i]];
        }
      }
      return true;
    }

    /** None stands for the panic of a negative capacity, wrapped around, in `make`. */
    method GetEntries(start: nat, end: nat) returns (r: Option<seq<LogEntry>>)
      ensures var stop := if end > Last(entries) then Last(entries) else end;
              && (r.None? <==> start <= Last(entries) && start > stop + 1)
              && (r.Some? ==> r.value == if start > Last(entries) then [] else Slice(entries, start, stop))
      ensures Indexed(entries) ==> (r.None? <==> start <= |entries| && start > end + 1)
      ensures Indexed(entries) && r.Some? ==> r.value == Slice(entries, start, end)
    {
      hide Slice, Indexed, Last;
      if Indexed(entries) { ClippedSlice(entries, start, end); }
      if start > LastIndex() {
        return Some([]);
      }
      var stop := if end > LastIndex() then LastIndex() else end;
      if stop + 1 < start {
        return None;
      }
      var out := Gather(start, stop);
      return Some(out);
    }

    /** The loop of GetEntries. */
    method Gather(start: nat, stop: nat) returns (out: seq<LogEntry>)
      requires start <= stop + 1 && stop <= Last(entries)
      ensures out == Slice(entries, start, stop)
    {
      hide Slice, Indexed, Last;
      out := [];
      SliceNone(entries, start);
      for i := start to stop + 1
        invariant out == if i == 0 then [] else Slice(entries, start, i - 1)
      {
        if i > 0 { SliceStep(entries, start, i); }
        var entry := GetEntry(i);
        assert entry == if 1 <= i <= |entries| then Some(entries[i - 1]) else None;
        if entry.Some? {
          out := out + [entry.value];
        }
      }
    }

    method SetCommitIndex(index: nat)
      modifies this`commitIndex
      ensures commitIndex == if index > Last(entries) then Last(entries) else index
    {
      commitIndex := if index > LastIndex() then LastIndex() else index;
    }

    /** Past the length, but not past the last number, the program reslices into old memory. */
    method Truncate(index: nat)
      requires index < Last(entries) ==> index <= |entries|
      modifies this`entries
      ensures entries == if index >= old(Last(entries)) then old(entries) else old(entries)[..index]
      ensures old(Indexed(entries)) ==>
                Indexed(entries) && entries == if index >= |old(entries)| then old(entries) else old(entries)[..index]
    {
      if index >= LastIndex() {
        return;
      }
      entries := entries[..index];
    }
  }

  // ----- What AppendEntries promises -----

  /** No entry that agrees is removed: what the log shares with the message stays, and nothing else blocks it. */
  lemma MergeKeepsAgreeing(log: seq<LogEntry>, m: Message)
    requires Accepts(log, m)
    ensures forall i :: 0 <= i < m.prevIndex + Agreeing(log, m.prevIndex, m.entries) ==>
              i < |Merge(log, m)| && Merge(log, m)[i] == log[i]
    ensures m.prevIndex + |m.entries| <= |Merge(log, m)|
    ensures forall i :: 0 <= i < |m.entries| ==> Merge(log, m)[m.prevIndex + i].term == m.entries[i].term
  {
    var k := Agreeing(log, m.prevIndex, m.entries);
    if k < |m.entries| {
      forall i | 0 <= i < |m.entries|
        ensures Merge(log, m)[m.prevIndex + i].term == m.entries[i].term
      {
        if k <= i { assert Merge(log, m)[m.prevIndex + i] == m.entries[i]; }
      }
    }
  }

  /** A log that agrees with every entry of a message is left exactly as it is. */
  lemma MergeNoop(log: seq<LogEntry>, m: Message)
    requires m.prevIndex + |m.entries| <= |log|
    requires forall i :: 0 <= i < |m.entries| ==> log[m.prevIndex + i].term == m.entries[i].term
    ensures Merge(log, m) == log
  {
    assert Agreeing(log, m.prevIndex, m.entries) == |m.entries|;
  }

  /** Handling the same message twice is the same as handling it once. */
  lemma MergeIdempotent(log: seq<LogEntry>, m: Message)
    requires Accepts(log, m)
    ensures Accepts(Merge(log, m), m)
    ensures Merge(Merge(log, m), m) == Merge(log, m)
  {
    MergeKeepsAgreeing(log, m);
    MergeNoop(Merge(log, m), m);
  }
}
