/**
 A leader that handles a message and goes on leading. The log compares no terms with the
 receiver's own, so nothing in it makes such a node step down: here is exactly when that
 does harm.
 */
module StaleLeader {
  import opened Wrappers
  import opened RaftLog
  import opened LogMatching

  /** A step of a cluster in which handling a message does not end a node's lead. */
  ghost function StepOn(c: Cluster, a: Action): (r: Cluster)
    requires |c.leads| == |c.logs|
    ensures |r.leads| == |r.logs| == |c.logs|
  {
    if a.Deliver? then Step(c, a).(leads := c.leads) else Step(c, a)
  }

  ghost function RunOn(c: Cluster, actions: seq<Action>): (r: Cluster)
    requires |c.leads| == |c.logs|
    ensures |r.leads| == |r.logs| == |c.logs|
    decreases |actions|
  {
    if actions == [] then c else RunOn(StepOn(c, actions[0]), actions[1..])
  }

  type News = seq<(string, LogType)>

  function Proposals(n: nat, news: News): seq<Action> {
    if news == [] then [] else [Propose(n, news[0].0, news[0].1)] + Proposals(n, news[1..])
  }

  /** The entries a leader of term `t` makes of them, after `from` others. */
  function Entries(t: nat, from: nat, news: News): (r: seq<LogEntry>)
    ensures |r| == |news|
    ensures forall i :: 0 <= i < |r| ==> r[i].term == t && r[i].command == news[i].0
    decreases |news|
  {
    if news == [] then [] else [LogEntry(t, from + 1, news[0].0, news[0].1)] + Entries(t, from + 1, news[1..])
  }

  lemma ProposeOn(c: Cluster, n: nat, t: nat, a: Action)
    requires |c.leads| == |c.logs| && n < |c.logs| && c.leads[n] == Some(t) && a.Propose? && a.node == n
    ensures var e := LogEntry(t, |c.logs[n]| + 1, a.command, a.kind);
            StepOn(c, a) == c.(logs := c.logs[n := c.logs[n] + [e]])
  {
  }

  lemma GrowTwice(c: Cluster, n: nat, a: seq<LogEntry>, b: seq<LogEntry>)
    requires n < |c.logs|
    ensures var d := c.(logs := c.logs[n := c.logs[n] + a]);
            d.(logs := d.logs[n := d.logs[n] + b]) == c.(logs := c.logs[n := c.logs[n] + (a + b)])
  {
    assert c.logs[n] + a + b == c.logs[n] + (a + b);
  }

  lemma {:induction false} ProposalsGrow(c: Cluster, n: nat, t: nat, news: News)
    requires |c.leads| == |c.logs| && n < |c.logs| && c.leads[n] == Some(t)
    ensures RunOn(c, Proposals(n, news)) == c.(logs := c.logs[n := c.logs[n] + Entries(t, |c.logs[n]|, news)])
    decreases |news|
  {
    if news == [] {
      assert c.logs[n] + [] == c.logs[n] && c.logs[n := c.logs[n]] == c.logs;
    } else {
      var a, e := Propose(n, news[0].0, news[0].1), LogEntry(t, |c.logs[n]| + 1, news[0].0, news[0].1);
      var d := StepOn(c, a);
      ProposeOn(c, n, t, a);
      assert Proposals(n, news)[0] == a && Proposals(n, news)[1..] == Proposals(n, news[1..]);
      hide StepOn, Proposals;
      ProposalsGrow(d, n, t, news[1..]);
      var rest := Entries(t, |c.logs[n]| + 1, news[1..]);
      assert Entries(t, |c.logs[n]|, news) == [e] + rest;
      hide Entries;
      GrowTwice(c, n, [e], rest);
    }
  }

  /** Entries of a covered term, put after a log, meet no known entry of that term. */
  lemma CoveredMatch(known: set<seq<LogEntry>>, log: seq<LogEntry>, t: nat, es: seq<LogEntry>, l: seq<LogEntry>)
    requires AllMatch(known) && log in known && l in known && Covers(log, t, known)
    requires forall i :: 0 <= i < |es| ==> es[i].term == t
    ensures Match(log + es, l) && Match(l, log + es)
  {
    assert Match(log, l) && Match(l, log);
    forall i | 0 <= i < |log + es| && i < |l| && (log + es)[i].term == l[i].term
      ensures (log + es)[..i + 1] == l[..i + 1]
    {
      assert i < |log|;
      assert (log + es)[..i + 1] == log[..i + 1];
    }
  }

  /** However the leader of term `t` goes on appending, all logs match. */
  ghost predicate Harmless(c: Cluster, n: nat, news: News)
    requires |c.leads| == |c.logs|
  {
    AllMatch(Known(RunOn(c, Proposals(n, news))))
  }

  lemma CoveredIsHarmless(c: Cluster, n: nat, t: nat, news: News)
    requires |c.leads| == |c.logs| && n < |c.logs| && c.leads[n] == Some(t) && AllMatch(Known(c))
    requires Covers(c.logs[n], t, Known(c))
    ensures Harmless(c, n, news)
  {
    var log, r := c.logs[n], RunOn(c, Proposals(n, news));
    var es := Entries(t, |log|, news);
    ProposalsGrow(c, n, t, news);
    KnownLogs(c);
    KnownAfter(c, n, log + es, r);
    hide RunOn, Entries, Known, AllMatch, Match, Covers;
    forall l | l in Known(c) ensures Match(log + es, l) && Match(l, log + es) {
      CoveredMatch(Known(c), log, t, es, l);
    }
    AddMatching(Known(c), log + es, Known(r));
  }

  function Repeated(command: string, m: nat): (r: News)
    ensures |r| == m && forall i :: 0 <= i < m ==> r[i].0 == command
  {
    seq(m, _ => (command, LogCommand))
  }

  lemma UncoveredHarms(c: Cluster, n: nat, t: nat, l: seq<LogEntry>, i: nat)
    requires |c.leads| == |c.logs| && n < |c.logs| && c.leads[n] == Some(t)
    requires l in Known(c) && |c.logs[n]| <= i < |l| && l[i].term == t
    ensures !Harmless(c, n, Repeated(l[i].command + "!", i + 1 - |c.logs[n]|))
  {
    var log, news := c.logs[n], Repeated(l[i].command + "!", i + 1 - |c.logs[n]|);
    var grown, r := log + Entries(t, |log|, news), RunOn(c, Proposals(n, news));
    ProposalsGrow(c, n, t, news);
    assert r.logs[n] == grown && grown in Known(r);
    assert l in Known(r) by {
      if l in c.logs {
        var m :| 0 <= m < |c.logs| && c.logs[m] == l;
        assert m != n && r.logs[m] == l;
      }
    }
    hide Known, RunOn, Entries, Proposals;
    assert grown[i].command == l[i].command + "!" != l[i].command;
    assert grown[..i + 1][i] != l[..i + 1][i];
    assert !Match(grown, l);
  }

  /** A leader that handled a message may go on if and only if its log still covers every known entry of its term. */
  lemma GoOnIff(c: Cluster, n: nat, t: nat, p: Packet)
    requires Inv(c) && n < |c.logs| && c.leads[n] == Some(t) && p in c.network
    ensures var g := StepOn(c, Deliver(n, p));
            (forall news :: Harmless(g, n, news)) <==> Covers(g.logs[n], t, Known(g))
  {
    var g := StepOn(c, Deliver(n, p));
    DeliverKeepsInv(c, n, p);
    assert Known(g) == Known(Step(c, Deliver(n, p)));
    assert AllMatch(Known(g));
    hide Inv, Harmless, Known, AllMatch;
    if Covers(g.logs[n], t, Known(g)) {
      forall news ensures Harmless(g, n, news) {
        CoveredIsHarmless(g, n, t, news);
      }
    } else {
      var l: seq<LogEntry>, i :| l in Known(g) && 0 <= i < |l| && l[i].term == t && !(i < |g.logs[n]|);
      UncoveredHarms(g, n, t, l, i);
    }
  }

  /** A message cut from a prefix of the leader's own log never does harm. */
  lemma OwnPrefixIsHarmless(c: Cluster, n: nat, t: nat, p: Packet, news: News)
    requires Inv(c) && n < |c.logs| && c.leads[n] == Some(t) && p in c.network && p.source <= c.logs[n]
    ensures Harmless(StepOn(c, Deliver(n, p)), n, news)
  {
    PrefixIsStale(c, n, p);
    var g := StepOn(c, Deliver(n, p));
    assert g == c;
    CoveredIsHarmless(c, n, t, news);
  }

  // ----- A run in which it does -----

  lemma {:induction false} RunOnConcat(c: Cluster, a: seq<Action>, b: seq<Action>)
    requires |c.leads| == |c.logs|
    ensures RunOn(c, a + b) == RunOn(RunOn(c, a), b)
    decreases |a|
  {
    if a == [] {
      assert a + b == b;
    } else {
      assert (a + b)[1..] == a[1..] + b;
      RunOnConcat(StepOn(c, a[0]), a[1..], b);
    }
  }

  lemma RunOnTwo(c: Cluster, a: Action, b: Action)
    requires |c.leads| == |c.logs|
    ensures RunOn(c, [a, b]) == StepOn(StepOn(c, a), b)
  {
    var d := StepOn(c, a);
    assert [a, b][1..] == [b] && [b][1..] == [];
    assert RunOn(d, [b]) == RunOn(StepOn(d, b), []);
  }

  function Entry(t: nat, i: nat, command: string): LogEntry {
    LogEntry(t, i, command, LogCommand)
  }

  /** A node with an empty log is elected, appends two entries and sends the first `count`. */
  lemma LeadAndSend(c: Cluster, n: nat, t: nat, first: string, second: string, count: nat)
    requires |c.leads| == |c.logs| && n < |c.logs| && c.logs[n] == [] && t !in c.terms && count <= 2
    ensures var log := [Entry(t, 1, first), Entry(t, 2, second)];
            RunOn(c, Campaign(n, t, first, second, count)) ==
            Cluster(c.logs[n := log], c.leads[n := Some(t)], c.terms + {t},
                    c.network + {Packet(Message(0, 0, log[..count]), log[..count])})
  {
    var a, b := Elect(n, t), Propose(n, first, LogCommand);
    var d, e := Propose(n, second, LogCommand), Send(n, 0, count);
    RunOnConcat(c, [a, b], [d, e]);
    RunOnTwo(c, a, b);
    var mid := RunOn(c, [a, b]);
    RunOnTwo(mid, d, e);
    hide RunOn;
    var x, y := Entry(t, 1, first), Entry(t, 2, second);
    assert [] + [x] == [x] && [x] + [y] == [x, y];
    assert mid == c.(logs := c.logs[n := [x]], leads := c.leads[n := Some(t)], terms := c.terms + {t});
    var log, sent := [x, y], StepOn(mid, d);
    assert sent == mid.(logs := c.logs[n := log]);
    assert log[0..0 + count] == log[..count] == log[..0 + count];
  }

  function Campaign(n: nat, t: nat, first: string, second: string, count: nat): seq<Action> {
    [Elect(n, t), Propose(n, first, LogCommand)] + [Propose(n, second, LogCommand), Send(n, 0, count)]
  }

  /** A message from the start replaces a log of another term. */
  lemma Overwrites(log: seq<LogEntry>, news: seq<LogEntry>)
    requires log != [] && news != [] && log[0].term != news[0].term
    ensures Accepts(log, Message(0, 0, news)) && Merge(log, Message(0, 0, news)) == news
  {
    assert Agreeing(log, 0, news) == 0;
    assert log[..0] + news[0..] == news;
  }

  function OldLog(): seq<LogEntry> {
    [Entry(1, 1, "a"), Entry(1, 2, "b")]
  }

  function NewLog(): seq<LogEntry> {
    [Entry(2, 1, "x"), Entry(2, 2, "y")]
  }

  function OldPacket(): Packet {
    Packet(Message(0, 0, OldLog()), OldLog())
  }

  function NewPacket(): Packet {
    Packet(Message(0, 0, NewLog()[..1]), NewLog()[..1])
  }

  /** Both leaders have sent, and neither has heard of the other. */
  lemma TwoCampaigns()
    ensures RunOn(Init(2), Campaign(0, 1, "a", "b", 2) + Campaign(1, 2, "x", "y", 1)) ==
            Cluster([OldLog(), NewLog()], [Some(1), Some(2)], {1, 2}, {OldPacket(), NewPacket()})
  {
    var c, a, b := Init(2), Campaign(0, 1, "a", "b", 2), Campaign(1, 2, "x", "y", 1);
    RunOnConcat(c, a, b);
    LeadAndSend(c, 0, 1, "a", "b", 2);
    var d := RunOn(c, a);
    LeadAndSend(d, 1, 2, "x", "y", 1);
    hide RunOn, Campaign;
    assert OldLog()[..2] == OldLog();
    assert c.logs[0 := OldLog()][1 := NewLog()] == [OldLog(), NewLog()];
    assert c.leads[0 := Some(1)][1 := Some(2)] == [Some(1), Some(2)];
    assert {} + {1} + {2} == {1, 2};
    assert {} + {OldPacket()} + {NewPacket()} == {OldPacket(), NewPacket()};
  }

  lemma HandlesAndGoesOn(c: Cluster, n: nat, p: Packet)
    requires |c.leads| == |c.logs| && n < |c.logs| && p in c.network && Accepts(c.logs[n], p.message)
    requires p.message.prevIndex <= |c.logs[n]|
    ensures StepOn(c, Deliver(n, p)) == c.(logs := c.logs[n := Merge(c.logs[n], p.message)])
  {
    hide Merge, Accepts;
  }

  /** Each leader takes the other's message. */
  lemma Crossing(c: Cluster)
    requires c == Cluster([OldLog(), NewLog()], [Some(1), Some(2)], {1, 2}, {OldPacket(), NewPacket()})
    ensures RunOn(c, [Deliver(0, NewPacket()), Deliver(1, OldPacket())]) == c.(logs := [NewLog()[..1], OldLog()])
  {
    Overwrites(OldLog(), NewLog()[..1]);
    Overwrites(NewLog(), OldLog());
    RunOnTwo(c, Deliver(0, NewPacket()), Deliver(1, OldPacket()));
    hide RunOn, Merge, Accepts, OldLog, NewLog, StepOn;
    HandlesAndGoesOn(c, 0, NewPacket());
    var g := c.(logs := c.logs[0 := NewLog()[..1]]);
    assert g.logs == [NewLog()[..1], NewLog()];
    HandlesAndGoesOn(g, 1, OldPacket());
  }

  /** The first goes on in its term. */
  lemma GoesOn(c: Cluster)
    requires c.logs == [NewLog()[..1], OldLog()] && c.leads == [Some(1), Some(2)]
    ensures RunOn(c, [Propose(0, "c", LogCommand), Restart(1)]).logs == [NewLog()[..1] + [Entry(1, 2, "c")], OldLog()]
  {
    RunOnTwo(c, Propose(0, "c", LogCommand), Restart(1));
    hide RunOn;
    var g := StepOn(c, Propose(0, "c", LogCommand));
    assert g.logs == c.logs[0 := NewLog()[..1] + [Entry(1, 2, "c")]];
  }

  /**
   Two leaders overwrite each other and the first goes on: both nodes then hold an entry of index 2 and
   term 1, and their logs differ.
   */
  lemma StaleLeaderBreaksMatching() returns (actions: seq<Action>)
    ensures var r := RunOn(Init(2), actions);
            && |r.logs[0]| == |r.logs[1]| == 2 && r.logs[0][1].term == r.logs[1][1].term
            && r.logs[0][1].index == r.logs[1][1].index && r.logs[0][..2] != r.logs[1][..2]
  {
    var a := Campaign(0, 1, "a", "b", 2) + Campaign(1, 2, "x", "y", 1);
    var b, d := [Deliver(0, NewPacket()), Deliver(1, OldPacket())], [Propose(0, "c", LogCommand), Restart(1)];
    actions := a + (b + d);
    hide RunOn, Campaign;
    TwoCampaigns();
    RunOnConcat(Init(2), a, b + d);
    var c := Cluster([OldLog(), NewLog()], [Some(1), Some(2)], {1, 2}, {OldPacket(), NewPacket()});
    RunOnConcat(c, b, d);
    Crossing(c);
    GoesOn(RunOn(c, b));
    var x, y := NewLog()[..1] + [Entry(1, 2, "c")], OldLog();
    assert x[..2][0] != y[..2][0];
  }
}
