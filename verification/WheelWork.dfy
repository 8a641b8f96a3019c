/**
 Placement under any schedule: every pending task owes as many receipts as levels are left to
 its own, every receipt pays exactly one, and nothing else changes what is owed.
 */
module WheelWork {
  import opened TimeWheel
  import opened WheelPending
  import opened WheelChain
  import opened WheelJourney

  /** The receipts a pending task on level `l` still takes to be placed. */
  function Owes(delay: nat, base: nat, n: nat, l: nat): int
    requires base > 0 && n >= 2
  {
    Level(delay / base, n) - l + 1
  }

  function InChannel(chan: seq<Elem>, base: nat, n: nat, l: nat): int
    requires base > 0 && n >= 2
  {
    if chan == [] then 0 else Owes(chan[0].delay, base, n, l) + InChannel(chan[1..], base, n, l)
  }

  function OnLevels(levels: seq<Wheel>, base: nat, n: nat, l: nat): int
    requires base > 0 && n >= 2
    decreases |levels|
  {
    if levels == [] then 0 else InChannel(levels[0].chan, base, n, l) + OnLevels(levels[1..], base, n, l + 1)
  }

  /** The receipts it takes to place all that is pending. */
  ghost function Work(c: Chain): int
    requires c.base > 0 && c.n >= 2
  {
    OnLevels(c.levels, c.base, c.n, 0)
  }

  lemma {:induction false} ChannelGrows(chan: seq<Elem>, e: Elem, base: nat, n: nat, l: nat)
    requires base > 0 && n >= 2
    ensures InChannel(chan + [e], base, n, l) == InChannel(chan, base, n, l) + Owes(e.delay, base, n, l)
    decreases |chan|
  {
    hide Owes;
    if chan == [] {
      assert chan + [e] == [e];
    } else {
      assert (chan + [e])[1..] == chan[1..] + [e];
      ChannelGrows(chan[1..], e, base, n, l);
    }
  }

  lemma {:induction false} LevelsUpdate(levels: seq<Wheel>, k: nat, w: Wheel, base: nat, n: nat, l: nat)
    requires base > 0 && n >= 2 && k < |levels|
    ensures OnLevels(levels[k := w], base, n, l) ==
            OnLevels(levels, base, n, l) - InChannel(levels[k].chan, base, n, l + k) + InChannel(w.chan, base, n, l + k)
    decreases k
  {
    hide InChannel;
    if k > 0 {
      assert levels[k := w][1..] == levels[1..][k - 1 := w];
      LevelsUpdate(levels[1..], k - 1, w, base, n, l + 1);
    }
  }

  lemma {:induction false} LevelsGrow(levels: seq<Wheel>, w: Wheel, base: nat, n: nat, l: nat)
    requires base > 0 && n >= 2
    ensures OnLevels(levels + [w], base, n, l) ==
            OnLevels(levels, base, n, l) + InChannel(w.chan, base, n, l + |levels|)
    decreases |levels|
  {
    hide InChannel;
    if levels == [] {
      assert levels + [w] == [w];
    } else {
      assert (levels + [w])[1..] == levels[1..] + [w];
      LevelsGrow(levels[1..], w, base, n, l + 1);
    }
  }

  lemma {:induction false} SameChannels(a: seq<Wheel>, b: seq<Wheel>, base: nat, n: nat, l: nat)
    requires base > 0 && n >= 2 && |a| == |b| && forall i :: 0 <= i < |a| ==> a[i].chan == b[i].chan
    ensures OnLevels(a, base, n, l) == OnLevels(b, base, n, l)
    decreases |a|
  {
    hide InChannel;
    if a != [] { SameChannels(a[1..], b[1..], base, n, l + 1); }
  }

  // ----- One step -----

  /** What an action adds to the work. */
  function Owed(a: Action, base: nat, n: nat): int
    requires base > 0 && n >= 2
  {
    if a.AddTask? && a.delay >= 0 then Owes(a.delay, base, n, 0) else 0
  }

  /** Whether an action is a receipt that takes a task. */
  ghost function Takes(c: Chain, a: Action): nat {
    if a.Receive? && a.level < |c.levels| && c.levels[a.level].chan != [] then 1 else 0
  }

  lemma NextChannel(c: Chain, l: nat)
    requires Shape(c) && l < |c.levels|
    ensures if l + 1 < |c.levels| then NextWheel(c, l) == c.levels[l + 1] else NextWheel(c, l).chan == []
  {
    hide Inv, Pow;
  }

  lemma UnlinkChannel(w: Wheel, key: string)
    ensures Unlink(w, key).chan == w.chan
  {
  }

  /** The head of the channel pays one receipt, whether it is placed or handed on. */
  lemma ReceiveWork(c: Chain, l: nat)
    requires ChainInv(c) && c.n >= 2 && l < |c.levels| && c.levels[l].chan != []
    ensures Work(ReceiveStep(c, l)) == Work(c) - 1
  {
    var w, base, n := c.levels[l], c.base, c.n;
    var e := w.chan[0];
    LevelInv(c, l);
    assert Good(w, base, n, l);
    OverflowIsHigher(w, base, n, l);
    hide Inv, Good, AtLevel, Pow, Level;
    assert InChannel(w.chan, base, n, l) == Owes(e.delay, base, n, l) + InChannel(w.chan[1..], base, n, l);
    if Overflows(w) {
      HandOverWork(c, l);
    } else {
      assert Place(w).chan == w.chan[1..];
      assert Owes(e.delay, base, n, l) == 1;
      hide InChannel, OnLevels, Place, Owes;
      LevelsUpdate(c.levels, l, Place(w), base, n, 0);
    }
  }

  lemma PopWork(w: Wheel, base: nat, n: nat, l: nat)
    requires base > 0 && n >= 2 && w.chan != []
    ensures InChannel(w.chan, base, n, l) ==
            Owes(w.chan[0].delay, base, n, l + 1) + 1 + InChannel(Pop(w).chan, base, n, l)
  {
  }

  lemma EnqueueWork(w: Wheel, key: string, delay: nat, base: nat, n: nat, l: nat)
    requires base > 0 && n >= 2
    ensures InChannel(Enqueue(w, key, delay).chan, base, n, l) ==
            InChannel(w.chan, base, n, l) + Owes(delay, base, n, l)
  {
    var e := Elem(w.nextId, key, delay, 0, false, 0);
    assert Enqueue(w, key, delay).chan == w.chan + [e];
    ChannelGrows(w.chan, e, base, n, l);
  }

  lemma HandOverWork(c: Chain, l: nat)
    requires ChainInv(c) && c.n >= 2 && l < |c.levels| && c.levels[l].chan != []
    ensures var e := c.levels[l].chan[0];
            var target := Enqueue(NextWheel(c, l), e.key, e.delay);
            OnLevels(Put(c.levels[l := Pop(c.levels[l])], l + 1, target), c.base, c.n, 0) == Work(c) - 1
  {
    hide ChainInv, InChannel, OnLevels, Owes, NextWheel, Enqueue, Pop;
    ChainBase(c);
    var w, base, n, next := c.levels[l], c.base, c.n, NextWheel(c, l);
    var e := w.chan[0];
    var popped, target := c.levels[l := Pop(w)], Enqueue(next, e.key, e.delay);
    NextChannel(c, l);
    PopWork(w, base, n, l);
    EnqueueWork(next, e.key, e.delay, base, n, l + 1);
    EmptyChannel(base, n, l + 1);
    LevelsUpdate(c.levels, l, Pop(w), base, n, 0);
    if l + 1 < |c.levels| {
      LevelsUpdate(popped, l + 1, target, base, n, 0);
    } else {
      LevelsGrow(popped, target, base, n, 0);
    }
  }

  /** An add raises the work by the task's level and one, a receipt lowers it by one, and nothing else changes it. */
  lemma StepWork(c: Chain, a: Action)
    requires ChainInv(c) && c.n >= 2
    ensures Work(Step(c, a)) == Work(c) + Owed(a, c.base, c.n) - Takes(c, a)
  {
    match a
    case AddTask(delay, key) =>
      if delay >= 0 {
        hide ChainInv, InChannel, OnLevels, Owes, Enqueue;
        EnqueueWork(c.levels[0], key, delay, c.base, c.n, 0);
        LevelsUpdate(c.levels, 0, Enqueue(c.levels[0], key, delay), c.base, c.n, 0);
      }
    case RemoveTask(key) =>
      hide Inv, AtLevel, OnLevels, Unlink, Pow;
      forall l | 0 <= l < |c.levels| ensures Unlink(c.levels[l], key).chan == c.levels[l].chan {
        UnlinkChannel(c.levels[l], key);
      }
      SameChannels(Step(c, a).levels, c.levels, c.base, c.n, 0);
    case Receive(l) =>
      hide Inv, AtLevel, OnLevels, ReceiveStep, Pow;
      if l < |c.levels| && c.levels[l].chan != [] { ReceiveWork(c, l); }
    case TickAt(l) =>
      if l < |c.levels| {
        LevelInv(c, l);
        assert Tick(c.levels[l]).chan == c.levels[l].chan;
        hide ChainInv, InChannel, OnLevels, Tick;
        LevelsUpdate(c.levels, l, Tick(c.levels[l]), c.base, c.n, 0);
      }
  }

  // ----- Whole runs -----

  lemma {:induction false} ChannelWork(chan: seq<Elem>, base: nat, n: nat, l: nat)
    requires base > 0 && n >= 2 && forall i :: 0 <= i < |chan| ==> Ahead(chan[i].delay, base, n, l)
    ensures InChannel(chan, base, n, l) >= |chan|
    decreases |chan|
  {
    if chan != [] { ChannelWork(chan[1..], base, n, l); }
  }

  lemma {:induction false} LevelsWork(levels: seq<Wheel>, base: nat, n: nat, l: nat)
    requires base > 0 && n >= 2 && forall i :: 0 <= i < |levels| ==> AtLevel(levels[i], base, n, l + i)
    ensures OnLevels(levels, base, n, l) >= 0
    ensures OnLevels(levels, base, n, l) == 0 <==> forall i :: 0 <= i < |levels| ==> levels[i].chan == []
    decreases |levels|
  {
    if levels != [] {
      var rest := levels[1..];
      assert AtLevel(levels[0], base, n, l + 0);
      ChannelWork(levels[0].chan, base, n, l);
      assert forall i :: 0 <= i < |rest| ==> rest[i] == levels[i + 1];
      forall i | 0 <= i < |rest| ensures AtLevel(rest[i], base, n, l + 1 + i) {
        assert AtLevel(levels[i + 1], base, n, l + (i + 1));
      }
      hide AtLevel, InChannel;
      LevelsWork(rest, base, n, l + 1);
      if forall i :: 0 <= i < |rest| ==> rest[i].chan == [] {
        assert forall i :: 1 <= i < |levels| ==> levels[i] == rest[i - 1];
      }
      assert InChannel([], base, n, l) == 0 by { EmptyChannel(base, n, l); }
    }
  }

  lemma EmptyChannel(base: nat, n: nat, l: nat)
    requires base > 0 && n >= 2
    ensures InChannel([], base, n, l) == 0
  {
  }

  /** Nothing is owed exactly when nothing is pending. */
  lemma WorkDone(c: Chain)
    requires ChainInv(c) && c.n >= 2
    ensures Work(c) >= 0 && (Work(c) == 0 <==> Quiet(c, |c.levels|))
  {
    assert forall i :: 0 <= i < |c.levels| ==> AtLevel(c.levels[i], c.base, c.n, 0 + i);
    LevelsWork(c.levels, c.base, c.n, 0);
  }

  /** What some actions add to the work. */
  function OwedBy(actions: seq<Action>, base: nat, n: nat): int
    requires base > 0 && n >= 2
  {
    if actions == [] then 0
    else OwedBy(actions[..|actions| - 1], base, n) + Owed(actions[|actions| - 1], base, n)
  }

  /** How many of the first `k` actions of a run take a task from a channel. */
  ghost function Taken(states: seq<Chain>, actions: seq<Action>, k: nat): nat
    requires k <= |actions| < |states|
  {
    if k == 0 then 0 else Taken(states, actions, k - 1) + Takes(states[k - 1], actions[k - 1])
  }

  lemma {:induction false} WorkAlong(states: seq<Chain>, actions: seq<Action>, k: nat)
    requires IsRun(states, actions) && ChainInv(states[0]) && states[0].n >= 2 && k <= |actions|
    ensures ChainInv(states[k]) && states[k].base == states[0].base && states[k].n == states[0].n
    ensures Work(states[k]) + Taken(states, actions, k) ==
            Work(states[0]) + OwedBy(actions[..k], states[0].base, states[0].n)
    decreases k
  {
    if k > 0 {
      WorkAlong(states, actions, k - 1);
      hide Work, Owed, Takes, ChainInv, Shape;
      StepWork(states[k - 1], actions[k - 1]);
      StepKeepsInv(states[k - 1], actions[k - 1]);
      SameSizes(states[k - 1], actions[k - 1]);
      assert actions[..k][..k - 1] == actions[..k - 1];
    }
  }

  lemma SameSizes(c: Chain, a: Action)
    requires Shape(c)
    ensures Step(c, a).base == c.base && Step(c, a).n == c.n
  {
    hide Inv, Pow, Enqueue, Unlink, Tick, Place, Pop;
  }

  /**
   Under any schedule, with whatever is pending at the start and added on the way: no more receipts can
   take a task than are owed, and nothing is pending exactly when all of them have been made.
   */
  lemma AnySchedule(states: seq<Chain>, actions: seq<Action>, k: nat)
    requires IsRun(states, actions) && ChainInv(states[0]) && states[0].n >= 2 && k <= |actions|
    ensures var owed := Work(states[0]) + OwedBy(actions[..k], states[0].base, states[0].n);
            && Taken(states, actions, k) <= owed
            && (Taken(states, actions, k) == owed <==> Quiet(states[k], |states[k].levels|))
  {
    hide Work, ChainInv, Shape, Step, Quiet;
    WorkAlong(states, actions, k);
    WorkDone(states[k]);
  }
}
