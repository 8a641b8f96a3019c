/**
 A cluster whose nodes keep the logs of `RaftLog` and exchange AppendEntries messages
 that the network may delay, reorder, repeat or lose. Elections are reduced to their
 promise: a term has at most one leader, and a node that handles a message, truncates
 or restarts no longer leads.
 */
module LogMatching {
  import opened Wrappers
  import opened RaftLog

  /** A message in the network. `source` is the part of the sender's log it was cut from; no receiver reads it. */
  datatype Packet = Packet(message: Message, source: seq<LogEntry>)

  /** `leads[n]` is the term node `n` leads; `terms` are the terms that have had a leader. */
  datatype Cluster = Cluster(logs: seq<seq<LogEntry>>, leads: seq<Option<nat>>, terms: set<nat>, network: set<Packet>)

  datatype Action =
    | Elect(node: nat, term: nat)
    | Propose(node: nat, command: string, kind: LogType)
    | Send(node: nat, prev: nat, count: nat)
    | Deliver(node: nat, packet: Packet)
    | Cut(node: nat, index: nat)
    | Restart(node: nat)

  function Init(nodes: nat): Cluster {
    Cluster(seq(nodes, _ => []), seq(nodes, _ => None), {}, {})
  }

  function CutMessage(log: seq<LogEntry>, prev: nat, count: nat): Packet
    requires prev + count <= |log|
  {
    Packet(Message(prev, if prev == 0 then 0 else log[prev - 1].term, log[prev..prev + count]), log[..prev + count])
  }

  /** One step; an action that is not enabled changes nothing. */
  ghost function Step(c: Cluster, a: Action): (r: Cluster)
    requires |c.leads| == |c.logs|
    ensures |r.leads| == |r.logs| == |c.logs|
  {
    if a.node >= |c.logs| then c else
    var n, log := a.node, c.logs[a.node];
    match a
    case Elect(_, term) =>
      if term in c.terms then c else c.(leads := c.leads[n := Some(term)], terms := c.terms + {term})
    case Propose(_, command, kind) =>
      if c.leads[n].None? then c
      else c.(logs := c.logs[n := log + [LogEntry(c.leads[n].value, |log| + 1, command, kind)]])
    case Send(_, prev, count) =>
      if prev + count > |log| then c else c.(network := c.network + {CutMessage(log, prev, count)})
    case Deliver(_, p) =>
      if p !in c.network then c
      else c.(logs := c.logs[n := if Accepts(log, p.message) then Merge(log, p.message) else log],
              leads := c.leads[n := None])
    case Cut(_, index) =>
      c.(logs := c.logs[n := if index >= |log| then log else log[..index]], leads := c.leads[n := None])
    case Restart(_) => c.(leads := c.leads[n := None])
  }

  ghost function Run(c: Cluster, actions: seq<Action>): (r: Cluster)
    requires |c.leads| == |c.logs|
    ensures |r.leads| == |r.logs|
    decreases |actions|
  {
    if actions == [] then c else Run(Step(c, actions[0]), actions[1..])
  }

  /** A cluster some run reaches from empty logs. */
  ghost predicate Reachable(c: Cluster) {
    exists nodes: nat, actions: seq<Action> :: c == Run(Init(nodes), actions)
  }

  // ----- The invariant -----

  /** Equal terms at an index mean equal logs up to that index. */
  ghost predicate Match(a: seq<LogEntry>, b: seq<LogEntry>) {
    forall i :: 0 <= i < |a| && i < |b| && a[i].term == b[i].term ==> a[..i + 1] == b[..i + 1]
  }

  /** Every log that a node holds or that a message was cut from. */
  ghost function Known(c: Cluster): set<seq<LogEntry>> {
    (set l | l in c.logs) + (set p | p in c.network :: p.source)
  }

  ghost predicate AllMatch(known: set<seq<LogEntry>>) {
    forall a, b :: a in known && b in known ==> Match(a, b)
  }

  /** All terms below belong to `terms`, and every entry carries its own index. */
  ghost predicate Labelled(known: set<seq<LogEntry>>, terms: set<nat>) {
    forall l: seq<LogEntry> :: l in known ==> Indexed(l) && forall i :: 0 <= i < |l| ==> l[i].term in terms
  }

  /** A leader's log reaches past every entry of the term it leads. */
  ghost predicate Covers(log: seq<LogEntry>, term: nat, known: set<seq<LogEntry>>) {
    forall l: seq<LogEntry>, i :: l in known && 0 <= i < |l| && l[i].term == term ==> i < |log|
  }

  ghost predicate Leaders(c: Cluster) {
    && |c.leads| == |c.logs|
    && (forall n :: 0 <= n < |c.logs| && c.leads[n].Some? ==>
          c.leads[n].value in c.terms && Covers(c.logs[n], c.leads[n].value, Known(c)))
    && (forall m, n :: 0 <= m < n < |c.logs| && c.leads[m].Some? ==> c.leads[m] != c.leads[n])
  }

  ghost predicate Faithful(p: Packet) {
    && p.message.prevIndex + |p.message.entries| == |p.source|
    && p == CutMessage(p.source, p.message.prevIndex, |p.message.entries|)
  }

  ghost predicate Inv(c: Cluster) {
    && Leaders(c)
    && AllMatch(Known(c))
    && Labelled(Known(c), c.terms)
    && forall p :: p in c.network ==> Faithful(p)
  }

  // ----- Every step keeps it -----

  /** Every log below is a prefix of one above. */
  ghost predicate PrefixesOf(lower: set<seq<LogEntry>>, upper: set<seq<LogEntry>>) {
    forall l :: l in lower ==> exists u :: u in upper && l <= u
  }

  lemma PrefixMatch(a: seq<LogEntry>, b: seq<LogEntry>, a': seq<LogEntry>, b': seq<LogEntry>)
    requires Match(a', b') && a <= a' && b <= b'
    ensures Match(a, b)
  {
    forall i | 0 <= i < |a| && i < |b| && a[i].term == b[i].term
      ensures a[..i + 1] == b[..i + 1]
    {
      assert a[..i + 1] == a'[..i + 1] && b[..i + 1] == b'[..i + 1];
    }
  }

  /** A step that only cuts logs down creates no conflict. */
  lemma PrefixesKeep(lower: set<seq<LogEntry>>, upper: set<seq<LogEntry>>, terms: set<nat>)
    requires PrefixesOf(lower, upper) && AllMatch(upper) && Labelled(upper, terms)
    ensures AllMatch(lower) && Labelled(lower, terms)
    ensures forall log, term :: Covers(log, term, upper) ==> Covers(log, term, lower)
  {
    forall a, b | a in lower && b in lower ensures Match(a, b) {
      var a' :| a' in upper && a <= a';
      var b' :| b' in upper && b <= b';
      PrefixMatch(a, b, a', b');
    }
  }

  /** A matching log that agrees with the last of the first `e` entries agrees with all of them. */
  lemma AgreedPrefix(log: seq<LogEntry>, source: seq<LogEntry>, e: nat)
    requires Match(log, source) && e <= |log| && e <= |source|
    requires e == 0 || log[e - 1].term == source[e - 1].term
    ensures log[..e] == source[..e]
  {
    if e > 0 { assert log[..e - 1 + 1] == source[..e - 1 + 1]; }
  }

  /** Under Log Matching the check on one entry decides the whole prefix. */
  lemma AcceptsIsPrefix(log: seq<LogEntry>, p: Packet)
    requires Faithful(p) && Match(log, p.source)
    ensures Accepts(log, p.message) <==> p.source[..p.message.prevIndex] <= log
  {
    if Accepts(log, p.message) {
      AgreedPrefix(log, p.source, p.message.prevIndex);
    }
  }

  /** An accepting log shares with the source all that the message counts as agreed. */
  lemma AcceptedPrefix(log: seq<LogEntry>, p: Packet, k: nat)
    requires Faithful(p) && Match(log, p.source) && Accepts(log, p.message)
    requires k == Agreeing(log, p.message.prevIndex, p.message.entries)
    ensures log[..p.message.prevIndex + k] == p.source[..p.message.prevIndex + k]
    ensures p.source == p.source[..p.message.prevIndex + k] + p.message.entries[k..]
  {
    hide Agreeing, Match;
    var m, s := p.message, p.source;
    assert m.entries == s[m.prevIndex..];
    if k > 0 {
      assert log[m.prevIndex + k - 1].term == m.entries[k - 1].term == s[m.prevIndex + k - 1].term;
    }
    AgreedPrefix(log, s, m.prevIndex + k);
  }

  lemma MergedPrefix(log: seq<LogEntry>, p: Packet)
    requires Faithful(p) && Match(log, p.source) && Accepts(log, p.message)
    ensures p.message.prevIndex <= |log|
    ensures var r := Merge(log, p.message); p.source <= r && (r == log || r == p.source)
  {
    hide Agreeing, Match;
    var k := Agreeing(log, p.message.prevIndex, p.message.entries);
    AcceptedPrefix(log, p, k);
    hide Faithful;
    if k == |p.message.entries| {
      assert p.message.entries[k..] == [];
    }
  }

  /** What an accepted packet leaves: the log as it was, or the sender's log up to the end of the message. */
  lemma MergeIsPrefix(log: seq<LogEntry>, p: Packet)
    requires Faithful(p) && Match(log, p.source)
    ensures Accepts(log, p.message) <==> p.source[..p.message.prevIndex] <= log
    ensures Accepts(log, p.message) ==>
              var r := Merge(log, p.message);
              p.source <= r && (r == log || r == p.source) && (p.source <= log ==> r == log)
  {
    AcceptsIsPrefix(log, p);
    if Accepts(log, p.message) {
      MergedPrefix(log, p);
      hide Merge, Match, Accepts;
      if p.source <= log { HoldsSource(log, p); }
    }
  }

  lemma HoldsSource(log: seq<LogEntry>, p: Packet)
    requires Faithful(p) && p.source <= log
    ensures Merge(log, p.message) == log
  {
    hide Merge;
    var m := p.message;
    assert forall i :: 0 <= i < |m.entries| ==> log[m.prevIndex + i] == m.entries[i];
    MergeNoop(log, m);
  }

  lemma KnownLogs(c: Cluster)
    ensures forall n :: 0 <= n < |c.logs| ==> c.logs[n] in Known(c)
    ensures forall p :: p in c.network ==> p.source in Known(c)
  {
  }

  /** Replacing one node's log makes at most that one log new. */
  lemma KnownAfter(c: Cluster, n: nat, log: seq<LogEntry>, r: Cluster)
    requires n < |c.logs| && r.logs == c.logs[n := log] && r.network == c.network
    ensures Known(r) <= Known(c) + {log}
  {
    forall l | l in Known(r) ensures l in Known(c) + {log} {
      if l in r.logs {
        var i :| 0 <= i < |r.logs| && r.logs[i] == l;
        assert i != n ==> l == c.logs[i];
      }
    }
  }

  /** A new entry of a leader cannot share index and term with an entry known before. */
  lemma GrownMatches(log: seq<LogEntry>, e: LogEntry, l: seq<LogEntry>)
    requires Match(log, l) && (|log| < |l| ==> l[|log|].term != e.term)
    ensures Match(log + [e], l) && Match(l, log + [e])
  {
    var grown := log + [e];
    forall i | 0 <= i < |grown| && i < |l| && grown[i].term == l[i].term
      ensures grown[..i + 1] == l[..i + 1]
    {
      assert grown[..i + 1] == log[..i + 1];
    }
  }

  lemma AllMatchWith(known: set<seq<LogEntry>>, log: seq<LogEntry>)
    requires AllMatch(known) && log in known
    ensures forall l :: l in known ==> Match(log, l)
  {
  }

  lemma AddMatching(known: set<seq<LogEntry>>, grown: seq<LogEntry>, more: set<seq<LogEntry>>)
    requires AllMatch(known) && more <= known + {grown}
    requires forall l :: l in known ==> Match(grown, l) && Match(l, grown)
    ensures AllMatch(more)
  {
    assert Match(grown, grown);
    hide Match;
  }

  lemma AddLabelled(known: set<seq<LogEntry>>, log: seq<LogEntry>, e: LogEntry,
                    more: set<seq<LogEntry>>, terms: set<nat>)
    requires Labelled(known, terms) && log in known && more <= known + {log + [e]}
    requires e.index == |log| + 1 && e.term in terms
    ensures Labelled(more, terms)
  {
    assert Indexed(log);
  }

  lemma ProposeKeepsInv(c: Cluster, a: Action)
    requires Inv(c) && a.Propose? && a.node < |c.logs| && c.leads[a.node].Some?
    ensures Inv(Step(c, a))
  {
    var n, log, term := a.node, c.logs[a.node], c.leads[a.node].value;
    var e := LogEntry(term, |log| + 1, a.command, a.kind);
    var r, grown := Step(c, a), log + [e];
    KnownLogs(c);
    KnownAfter(c, n, grown, r);
    hide Known, Match, Labelled, AllMatch;
    assert Covers(log, term, Known(c));
    AllMatchWith(Known(c), log);
    forall l | l in Known(c) ensures Match(grown, l) && Match(l, grown) {
      GrownMatches(log, e, l);
    }
    AddMatching(Known(c), grown, Known(r));
    AddLabelled(Known(c), log, e, Known(r), c.terms);
    GrownLeaders(c, n, grown, r);
  }

  lemma GrownLeaders(c: Cluster, n: nat, grown: seq<LogEntry>, r: Cluster)
    requires Leaders(c) && n < |c.logs| && c.leads[n].Some?
    requires r == c.(logs := c.logs[n := grown]) && Known(r) <= Known(c) + {grown}
    requires |grown| == |c.logs[n]| + 1 && c.logs[n] <= grown && grown[|c.logs[n]|].term == c.leads[n].value
    ensures Leaders(r)
  {
    KnownLogs(c);
    forall m | 0 <= m < |r.logs| && r.leads[m].Some?
      ensures Covers(r.logs[m], r.leads[m].value, Known(r))
    {
      assert Covers(c.logs[m], c.leads[m].value, Known(c));
      assert c.logs[n] in Known(c);
      assert m != n ==> c.leads[m].value != c.leads[n].value;
    }
  }

  /** A step that leaves only prefixes of known logs, and disturbs no one who still leads, keeps the invariant. */
  lemma CutKeepsInv(c: Cluster, r: Cluster)
    requires Inv(c) && |r.logs| == |r.leads| == |c.logs| && r.terms == c.terms
    requires PrefixesOf(Known(r), Known(c))
    requires forall n :: 0 <= n < |c.logs| && r.leads[n].Some? ==> r.leads[n] == c.leads[n] && r.logs[n] == c.logs[n]
    requires forall p :: p in r.network ==> Faithful(p)
    ensures Inv(r)
  {
    PrefixesKeep(Known(r), Known(c), c.terms);
  }

  /** A node that takes a prefix of a known log as its own, and steps down. */
  lemma StepDownKeepsInv(c: Cluster, n: nat, log: seq<LogEntry>, u: seq<LogEntry>)
    requires Inv(c) && n < |c.logs| && u in Known(c) && log <= u
    ensures Inv(c.(logs := c.logs[n := log], leads := c.leads[n := None]))
  {
    var r := c.(logs := c.logs[n := log], leads := c.leads[n := None]);
    KnownAfter(c, n, log, r);
    forall l | l in Known(r) ensures exists v :: v in Known(c) && l <= v {
      assert l in Known(c) ==> l <= l;
    }
    CutKeepsInv(c, r);
  }

  lemma DeliverKeepsInv(c: Cluster, n: nat, p: Packet)
    requires Inv(c) && n < |c.logs| && p in c.network
    ensures Inv(Step(c, Deliver(n, p)))
  {
    KnownLogs(c);
    var log := c.logs[n];
    MergeIsPrefix(log, p);
    if Accepts(log, p.message) && Merge(log, p.message) != log {
      StepDownKeepsInv(c, n, p.source, p.source);
    } else {
      StepDownKeepsInv(c, n, log, log);
    }
  }

  lemma SendKeepsInv(c: Cluster, n: nat, prev: nat, count: nat)
    requires Inv(c) && n < |c.logs| && prev + count <= |c.logs[n]|
    ensures Inv(Step(c, Send(n, prev, count)))
  {
    var r, p := Step(c, Send(n, prev, count)), CutMessage(c.logs[n], prev, count);
    KnownLogs(c);
    forall l | l in Known(r) ensures exists v :: v in Known(c) && l <= v {
      if l in Known(c) {
        assert l <= l;
      } else {
        assert l == p.source && l <= c.logs[n];
      }
    }
    assert Faithful(p);
    CutKeepsInv(c, r);
  }

  lemma ElectKeepsInv(c: Cluster, n: nat, term: nat)
    requires Inv(c) && n < |c.logs| && term !in c.terms
    ensures Inv(Step(c, Elect(n, term)))
  {
    var r := Step(c, Elect(n, term));
    assert Known(r) == Known(c);
    assert Covers(r.logs[n], term, Known(r));
  }

  lemma StepKeepsInv(c: Cluster, a: Action)
    requires Inv(c)
    ensures Inv(Step(c, a))
  {
    if a.node < |c.logs| {
      var n, log := a.node, c.logs[a.node];
      KnownLogs(c);
      match a
      case Elect(_, term) => if term !in c.terms { ElectKeepsInv(c, n, term); }
      case Propose(_, _, _) => if c.leads[n].Some? { ProposeKeepsInv(c, a); }
      case Send(_, prev, count) => if prev + count <= |log| { SendKeepsInv(c, n, prev, count); }
      case Deliver(_, p) => if p in c.network { DeliverKeepsInv(c, n, p); }
      case Cut(_, index) => StepDownKeepsInv(c, n, if index >= |log| then log else log[..index], log);
      case Restart(_) =>
        StepDownKeepsInv(c, n, log, log);
        assert c.logs[n := log] == c.logs;
    }
  }

  lemma {:induction false} RunKeepsInv(c: Cluster, actions: seq<Action>)
    requires Inv(c)
    ensures Inv(Run(c, actions))
    decreases |actions|
  {
    if actions != [] {
      StepKeepsInv(c, actions[0]);
      RunKeepsInv(Step(c, actions[0]), actions[1..]);
    }
  }

  lemma ReachableInv(c: Cluster)
    requires Reachable(c)
    ensures Inv(c)
  {
    var nodes: nat, actions: seq<Action> :| c == Run(Init(nodes), actions);
    RunKeepsInv(Init(nodes), actions);
  }

  // ----- Theorems over every run -----

  /** Log Matching: two logs that hold an entry with the same index and term are identical up to it. */
  lemma LogMatchingTheorem(c: Cluster, m: nat, n: nat, i: nat)
    requires Reachable(c) && m < |c.logs| && n < |c.logs|
    requires i < |c.logs[m]| && i < |c.logs[n]| && c.logs[m][i].term == c.logs[n][i].term
    ensures c.logs[m][..i + 1] == c.logs[n][..i + 1]
    ensures c.logs[m][i].index == i + 1
  {
    ReachableInv(c);
    KnownLogs(c);
    assert Match(c.logs[m], c.logs[n]);
  }

  /**
   The check on one index and one term decides whether the follower holds the whole
   prefix; a delivery that passes it leaves the follower with everything the sender had.
   */
  lemma DeliveryReplicates(c: Cluster, n: nat, p: Packet)
    requires Reachable(c) && n < |c.logs| && p in c.network
    ensures var r := Step(c, Deliver(n, p)).logs[n];
            && p.message.prevIndex <= |p.source|
            && (Accepts(c.logs[n], p.message) <==> p.source[..p.message.prevIndex] <= c.logs[n])
            && (Accepts(c.logs[n], p.message) ==> p.source <= r && (r == c.logs[n] || r == p.source))
            && (!Accepts(c.logs[n], p.message) ==> r == c.logs[n])
  {
    ReachableInv(c);
    KnownLogs(c);
    MergeIsPrefix(c.logs[n], p);
  }

  lemma PrefixIsStale(c: Cluster, n: nat, q: Packet)
    requires Inv(c) && n < |c.logs| && q in c.network && q.source <= c.logs[n]
    ensures Accepts(c.logs[n], q.message) && Step(c, Deliver(n, q)).logs == c.logs
  {
    KnownLogs(c);
    MergeIsPrefix(c.logs[n], q);
  }

  /** Once a message is absorbed, an older message cut from the same log is accepted and changes nothing. */
  lemma StaleDelivery(c: Cluster, n: nat, p: Packet, q: Packet)
    requires Reachable(c) && n < |c.logs| && p in c.network && q in c.network
    requires Accepts(c.logs[n], p.message) && q.source <= p.source
    ensures var d := Step(c, Deliver(n, p));
            Accepts(d.logs[n], q.message) && Step(d, Deliver(n, q)).logs == d.logs
  {
    ReachableInv(c);
    var d := Step(c, Deliver(n, p));
    DeliveryReplicates(c, n, p);
    assert q.source <= d.logs[n];
    DeliverKeepsInv(c, n, p);
    PrefixIsStale(d, n, q);
  }
}
