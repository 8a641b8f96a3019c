/**
 The way of a task through the chain of wheels: no add is lost or doubled, every add ends on
 its level after as many hand-overs as the level says, and which older task it replaces.
 */
module WheelJourney {
  import opened TimeWheel
  import opened WheelPending
  import opened WheelChain

  // ----- Conservation -----

  /** What a task is to its caller. */
  datatype Task = Task(key: string, delay: nat)

  function Is(e: Elem, t: Task): nat {
    if e.key == t.key && e.delay == t.delay then 1 else 0
  }

  /** How often a task is in a channel. */
  function InChannel(chan: seq<Elem>, t: Task): nat {
    if chan == [] then 0 else Is(chan[0], t) + InChannel(chan[1..], t)
  }

  /** How often a task was placed under an identity below `k`. */
  function Placed(placed: map<nat, Elem>, k: nat, t: Task): nat {
    if k == 0 then 0 else Placed(placed, k - 1, t) + if k - 1 in placed then Is(placed[k - 1], t) else 0
  }

  /** How often a wheel was given a task and did not hand it on. */
  function Holds(w: Wheel, t: Task): nat {
    InChannel(w.chan, t) + Placed(w.placed, w.nextId, t)
  }

  function HoldsAll(levels: seq<Wheel>, t: Task): nat {
    if levels == [] then 0 else Holds(levels[0], t) + HoldsAll(levels[1..], t)
  }

  function AddedBy(a: Action, t: Task): nat {
    if a.AddTask? && a.key == t.key && a.delay == t.delay then 1 else 0
  }

  /** How often some actions add a task. */
  function Added(actions: seq<Action>, t: Task): nat {
    if actions == [] then 0 else Added(actions[..|actions| - 1], t) + AddedBy(actions[|actions| - 1], t)
  }

  lemma {:induction false} ChannelAppend(chan: seq<Elem>, e: Elem, t: Task)
    ensures InChannel(chan + [e], t) == InChannel(chan, t) + Is(e, t)
  {
    if chan == [] {
      assert chan + [e] == [e];
    } else {
      assert (chan + [e])[1..] == chan[1..] + [e];
      ChannelAppend(chan[1..], e, t);
    }
  }

  lemma {:induction false} PlacedSame(a: map<nat, Elem>, b: map<nat, Elem>, k: nat, t: Task)
    requires forall id :: 0 <= id < k ==> (id in a <==> id in b) && (id in a ==> a[id] == b[id])
    ensures Placed(a, k, t) == Placed(b, k, t)
  {
    if k > 0 { PlacedSame(a, b, k - 1, t); }
  }

  lemma {:induction false} PlacedMore(placed: map<nat, Elem>, e: Elem, k: nat, t: Task)
    requires e.id < k && e.id !in placed
    ensures Placed(placed[e.id := e], k, t) == Placed(placed, k, t) + Is(e, t)
  {
    if k == e.id + 1 {
      PlacedSame(placed, placed[e.id := e], e.id, t);
    } else {
      PlacedMore(placed, e, k - 1, t);
    }
  }

  lemma EnqueueHolds(w: Wheel, key: string, delay: nat, t: Task)
    requires Inv(w)
    ensures Holds(Enqueue(w, key, delay), t) == Holds(w, t) + if t == Task(key, delay) then 1 else 0
  {
    assert w.nextId !in w.placed;
    hide Inv, Mark;
    ChannelAppend(w.chan, Elem(w.nextId, key, delay, 0, false, 0), t);
  }

  lemma PlaceHolds(w: Wheel, t: Task)
    requires Inv(w) && w.chan != []
    ensures Holds(Place(w), t) == Holds(w, t)
  {
    var e := w.chan[0];
    assert e.id !in w.placed && e.id < w.nextId;
    hide Inv;
    var d := e.(circle := w.chan[0].delay / w.interval / |w.slots|, born := w.ticks);
    assert Place(w).placed == w.placed[e.id := d];
    PlacedMore(w.placed, d, w.nextId, t);
  }

  lemma {:induction false} HoldsUpdate(levels: seq<Wheel>, l: nat, w: Wheel, t: Task)
    requires l < |levels|
    ensures HoldsAll(levels[l := w], t) == HoldsAll(levels, t) - Holds(levels[l], t) + Holds(w, t)
    decreases l
  {
    hide Holds;
    if l > 0 {
      assert levels[l := w][1..] == levels[1..][l - 1 := w];
      HoldsUpdate(levels[1..], l - 1, w, t);
    }
  }

  lemma {:induction false} HoldsAppend(levels: seq<Wheel>, w: Wheel, t: Task)
    ensures HoldsAll(levels + [w], t) == HoldsAll(levels, t) + Holds(w, t)
  {
    hide Holds;
    if levels == [] {
      assert levels + [w] == [w];
    } else {
      assert (levels + [w])[1..] == levels[1..] + [w];
      HoldsAppend(levels[1..], w, t);
    }
  }

  lemma {:induction false} HoldsEach(a: seq<Wheel>, b: seq<Wheel>, t: Task)
    requires |a| == |b| && forall l :: 0 <= l < |a| ==> Holds(a[l], t) == Holds(b[l], t)
    ensures HoldsAll(a, t) == HoldsAll(b, t)
  {
    hide Holds;
    if a != [] { HoldsEach(a[1..], b[1..], t); }
  }

  lemma NewHolds(interval: int, n: int, t: Task)
    ensures New(interval, n).Some? ==> Holds(New(interval, n).value, t) == 0
  {
  }

  /** A receipt moves the task and keeps it. */
  lemma ReceiveHolds(c: Chain, l: nat, t: Task)
    requires Shape(c) && l < |c.levels| && c.levels[l].chan != []
    ensures HoldsAll(ReceiveStep(c, l).levels, t) == HoldsAll(c.levels, t)
  {
    var w := c.levels[l];
    assert Inv(w) && Shaped(w);
    hide Inv, Holds, HoldsAll, Pow, Place, Enqueue, Pop, Overflows, NextWheel;
    if Overflows(w) {
      HandOverHolds(c, l, t);
    } else {
      PlaceHolds(w, t);
      HoldsUpdate(c.levels, l, Place(w), t);
    }
  }

  lemma PopHolds(w: Wheel, t: Task)
    requires w.chan != []
    ensures Holds(w, t) == Holds(Pop(w), t) + Is(w.chan[0], t)
  {
  }

  lemma NextHolds(c: Chain, l: nat, t: Task)
    requires Shape(c) && l < |c.levels|
    ensures if l + 1 < |c.levels| then NextWheel(c, l) == c.levels[l + 1] else Holds(NextWheel(c, l), t) == 0
  {
    hide Inv, Pow;
    NewHolds(c.levels[l].interval * c.n, c.n, t);
  }

  lemma HandOverHolds(c: Chain, l: nat, t: Task)
    requires Shape(c) && l < |c.levels| && c.levels[l].chan != []
    ensures var e := c.levels[l].chan[0];
            HoldsAll(Put(c.levels[l := Pop(c.levels[l])], l + 1, Enqueue(NextWheel(c, l), e.key, e.delay)), t) ==
            HoldsAll(c.levels, t)
  {
    var w, next := c.levels[l], NextWheel(c, l);
    var e := w.chan[0];
    hide Inv, Holds, HoldsAll, Enqueue, Pop, Shape, NextWheel;
    PopHolds(w, t);
    NextHolds(c, l, t);
    EnqueueHolds(next, e.key, e.delay, t);
    HoldsUpdate(c.levels, l, Pop(w), t);
    var popped, target := c.levels[l := Pop(w)], Enqueue(next, e.key, e.delay);
    if l + 1 < |c.levels| {
      HoldsUpdate(popped, l + 1, target, t);
    } else {
      HoldsAppend(popped, target, t);
    }
  }

  lemma UnlinkHolds(w: Wheel, key: string, t: Task)
    ensures Holds(Unlink(w, key), t) == Holds(w, t)
  {
  }

  lemma TickHolds(w: Wheel, t: Task)
    requires Shaped(w)
    ensures Holds(Tick(w), t) == Holds(w, t)
  {
  }

  lemma StepHolds(c: Chain, a: Action, t: Task)
    requires Shape(c)
    ensures HoldsAll(Step(c, a).levels, t) == HoldsAll(c.levels, t) + AddedBy(a, t)
  {
    match a
    case AddTask(delay, key) =>
      if delay >= 0 {
        hide Inv, Holds, HoldsAll, Pow, Enqueue;
        EnqueueHolds(c.levels[0], key, delay, t);
        HoldsUpdate(c.levels, 0, Enqueue(c.levels[0], key, delay), t);
      }
    case RemoveTask(key) =>
      hide Inv, Holds, HoldsAll, Pow, Unlink;
      forall l | 0 <= l < |c.levels| ensures Holds(Unlink(c.levels[l], key), t) == Holds(c.levels[l], t) {
        UnlinkHolds(c.levels[l], key, t);
      }
      HoldsEach(Step(c, a).levels, c.levels, t);
    case Receive(l) =>
      hide Inv, Holds, HoldsAll, Pow, ReceiveStep;
      if l < |c.levels| && c.levels[l].chan != [] { ReceiveHolds(c, l, t); }
    case TickAt(l) =>
      if l < |c.levels| {
        assert Shaped(c.levels[l]);
        hide Inv, Holds, HoldsAll, Pow, Tick;
        TickHolds(c.levels[l], t);
        HoldsUpdate(c.levels, l, Tick(c.levels[l]), t);
      }
  }

  /** In every run a task is in the channels and among those ever placed as often as it was added. */
  lemma {:induction false} Conservation(states: seq<Chain>, actions: seq<Action>, base: nat, n: nat, k: nat, t: Task)
    requires base > 0 && n >= 1 && IsRun(states, actions) && states[0] == Init(base, n) && k < |states|
    ensures HoldsAll(states[k].levels, t) == Added(actions[..k], t)
    decreases k
  {
    hide Shape, Step, Holds;
    if k == 0 {
      NewHolds(base, n, t);
    } else {
      Conservation(states, actions, base, n, k - 1, t);
      hide HoldsAll;
      StepHolds(states[k - 1], actions[k - 1], t);
      assert actions[..k][..k - 1] == actions[..k - 1];
    }
  }

  // ----- Landing -----

  /** An add, and then one receipt on each of the first `k` levels. */
  ghost function Follow(c: Chain, key: string, delay: nat, k: nat): (r: Chain)
    requires ChainInv(c)
    ensures ChainInv(r)
  {
    if k == 0 then
      StepKeepsInv(c, AddTask(delay, key));
      Step(c, AddTask(delay, key))
    else
      var r := Follow(c, key, delay, k - 1);
      StepKeepsInv(r, Receive(k - 1));
      Step(r, Receive(k - 1))
  }

  /** Nothing is pending on the first `m` levels. */
  ghost predicate Quiet(c: Chain, m: nat) {
    forall l :: 0 <= l < |c.levels| && l < m ==> c.levels[l].chan == []
  }

  /** A wheel that only forgot its task of this key; channels aside. */
  ghost predicate Passed(w: Wheel, r: Wheel, key: string) {
    r == Unlink(w, key).(chan := r.chan, nextId := r.nextId)
  }

  ghost predicate AtHead(w: Wheel, key: string, delay: nat) {
    |w.chan| == 1 && w.chan[0].key == key && w.chan[0].delay == delay
  }

  /** After `k` receipts the task is alone in the channel of level `k`; every level it came by forgot its key. */
  ghost predicate Trail(c: Chain, r: Chain, key: string, delay: nat, k: nat) {
    && r.base == c.base && r.n == c.n && |r.levels| == (if k < |c.levels| then |c.levels| else k + 1)
    && AtHead(r.levels[k], key, delay) && Quiet(r, k)
    && (forall l :: 0 <= l <= k && l < |c.levels| ==> Passed(c.levels[l], r.levels[l], key))
    && (forall l :: k < l < |c.levels| ==> r.levels[l] == c.levels[l])
  }

  lemma EnqueuePasses(w: Wheel, key: string, delay: nat)
    requires w.chan == []
    ensures Passed(w, Enqueue(w, key, delay), key) && AtHead(Enqueue(w, key, delay), key, delay)
  {
  }

  lemma PopPasses(w: Wheel, r: Wheel, key: string, delay: nat)
    requires AtHead(r, key, delay)
    ensures Pop(r).chan == [] && (Passed(w, r, key) ==> Passed(w, Pop(r), key))
  {
  }

  lemma NextQuiet(c: Chain, r: Chain, key: string, delay: nat, k: nat)
    requires Shape(r) && Trail(c, r, key, delay, k) && Quiet(c, k + 2)
    ensures NextWheel(r, k).chan == [] && (k + 1 < |c.levels| ==> NextWheel(r, k) == c.levels[k + 1] == r.levels[k + 1])
  {
    hide Inv, Pow, Passed;
  }

  lemma HandsOver(r: Chain, k: nat, key: string, delay: nat)
    requires ChainInv(r) && k < |r.levels| && AtHead(r.levels[k], key, delay) && Ahead(delay, r.base, r.n, k + 1)
    ensures Step(r, Receive(k)) ==
            r.(levels := Put(r.levels[k := Pop(r.levels[k])], k + 1, Enqueue(NextWheel(r, k), key, delay)))
  {
    var w := r.levels[k];
    assert Shaped(w) && Good(w, r.base, r.n, k);
    hide Inv, Pow, Ahead, Belongs, AtLevel, Enqueue, Pop, Good, NextWheel;
    OverflowIsHigher(w, r.base, r.n, k);
  }

  /** One level further. */
  lemma TrailStep(c: Chain, r: Chain, key: string, delay: nat, k: nat)
    requires ChainInv(r) && Trail(c, r, key, delay, k) && Quiet(c, k + 2) && Ahead(delay, r.base, r.n, k + 1)
    ensures Trail(c, Step(r, Receive(k)), key, delay, k + 1)
  {
    hide Inv, Passed, Ahead, AtLevel, Enqueue, Pop, Shape, NextWheel, Step;
    HandsOver(r, k, key, delay);
    NextQuiet(c, r, key, delay, k);
    EnqueuePasses(NextWheel(r, k), key, delay);
    PopPasses(if k < |c.levels| then c.levels[k] else r.levels[k], r.levels[k], key, delay);
    hide ChainInv, AtHead;
  }

  lemma TrailStart(c: Chain, key: string, delay: nat)
    requires ChainInv(c) && Quiet(c, 1)
    ensures Trail(c, Step(c, AddTask(delay, key)), key, delay, 0)
  {
    assert c.levels[0].chan == [];
    hide Inv, AtLevel, Passed, Enqueue, Pow, AtHead;
    EnqueuePasses(c.levels[0], key, delay);
  }

  lemma {:induction false} Travel(c: Chain, key: string, delay: nat, k: nat)
    requires ChainInv(c) && Quiet(c, k + 1) && Ahead(delay, c.base, c.n, k)
    ensures Trail(c, Follow(c, key, delay, k), key, delay, k)
  {
    hide ChainInv, Trail, Step, Quiet, Ahead;
    ChainBase(c);
    if k == 0 {
      TrailStart(c, key, delay);
    } else {
      Before(c, delay, k);
      Travel(c, key, delay, k - 1);
      var r := Follow(c, key, delay, k - 1);
      TrailShape(c, r, key, delay, k - 1);
      TrailStep(c, r, key, delay, k - 1);
    }
  }

  lemma ChainBase(c: Chain)
    requires ChainInv(c)
    ensures c.base > 0 && c.n >= 1 && Shape(c)
  {
  }

  lemma Before(c: Chain, delay: nat, k: nat)
    requires c.base > 0 && k > 0 && Quiet(c, k + 1) && Ahead(delay, c.base, c.n, k)
    ensures Quiet(c, k) && Ahead(delay, c.base, c.n, k - 1)
  {
  }

  lemma TrailShape(c: Chain, r: Chain, key: string, delay: nat, k: nat)
    requires Trail(c, r, key, delay, k)
    ensures r.base == c.base && r.n == c.n && k < |r.levels| && r.levels[k].chan != []
  {
  }

  lemma PlacesHere(r: Chain, k: nat, key: string, delay: nat)
    requires ChainInv(r) && k < |r.levels| && AtHead(r.levels[k], key, delay) && Belongs(delay, r.base, r.n, k)
    ensures Shaped(r.levels[k]) && Step(r, Receive(k)) == r.(levels := r.levels[k := Place(r.levels[k])])
  {
    var w := r.levels[k];
    assert Shaped(w) && Good(w, r.base, r.n, k);
    hide Inv, Pow, Ahead, Belongs, AtLevel, Good, Place;
    OverflowIsHigher(w, r.base, r.n, k);
  }

  /** The task is live and indexed on its level, with its key and delay. */
  ghost predicate Rests(w: Wheel, key: string, delay: nat) {
    w.chan == [] && key in w.index && LiveUnder(w, key, w.index[key]) && w.placed[w.index[key]].delay == delay
  }

  lemma PlaceRests(w: Wheel, key: string, delay: nat)
    requires Inv(w) && AtHead(w, key, delay)
    ensures Rests(Place(w), key, delay)
  {
    var id := w.chan[0].id;
    assert id !in w.placed && id !in w.fired && id !in w.cancelled;
    hide Inv;
  }

  ghost function LevelOf(c: Chain, delay: nat): nat
    requires c.base > 0 && Lands(delay / c.base, c.n)
  {
    Level(delay / c.base, c.n)
  }

  /** Just before the last receipt the task is alone in the channel of its own level. */
  lemma Arrival(c: Chain, key: string, delay: nat)
    requires ChainInv(c) && Lands(delay / c.base, c.n) && Quiet(c, LevelOf(c, delay) + 1)
    ensures var l, r := LevelOf(c, delay), Follow(c, key, delay, LevelOf(c, delay));
            && Trail(c, r, key, delay, l) && Inv(r.levels[l])
            && Follow(c, key, delay, l + 1) == r.(levels := r.levels[l := Place(r.levels[l])])
  {
    var l := LevelOf(c, delay);
    assert Ahead(delay, c.base, c.n, l) && Belongs(delay, c.base, c.n, l);
    hide Level, Ahead, Belongs, Step, ChainInv, Quiet, Inv, Place, LevelOf;
    Travel(c, key, delay, l);
    var r := Follow(c, key, delay, l);
    PlacesHere(r, l, key, delay);
    LevelInv(r, l);
  }

  /**
   With nothing pending on the way, an add followed by one receipt on each level up to the task's own
   leaves it live and indexed there, and nothing pending on the way.
   */
  lemma Landing(c: Chain, key: string, delay: nat)
    requires ChainInv(c) && Lands(delay / c.base, c.n) && Quiet(c, LevelOf(c, delay) + 1)
    ensures var l, r := LevelOf(c, delay), Follow(c, key, delay, LevelOf(c, delay) + 1);
            && l < |r.levels| && Rests(r.levels[l], key, delay) && Quiet(r, l + 1)
            && forall k :: l < k < |r.levels| ==> k < |c.levels| && r.levels[k] == c.levels[k]
  {
    hide ChainInv, Follow, Rests, Place, LevelOf, Inv;
    ChainBase(c);
    Arrival(c, key, delay);
    var l := LevelOf(c, delay);
    var r := Follow(c, key, delay, l);
    InvShaped(r.levels[l]);
    PlaceRests(r.levels[l], key, delay);
    RestsQuiet(Place(r.levels[l]), key, delay);
    hide Passed;
  }

  lemma RestsQuiet(w: Wheel, key: string, delay: nat)
    requires Rests(w, key, delay)
    ensures w.chan == []
  {
  }

  /** Some number of receipts leaves nothing pending anywhere. */
  ghost predicate Ends(c: Chain, key: string, delay: nat, k: nat)
    requires ChainInv(c)
  {
    Quiet(Follow(c, key, delay, k), |Follow(c, key, delay, k).levels|)
  }

  /** Placement ends if and only if there are two slots or the delay is less than one interval. */
  lemma PlacementEnds(c: Chain, key: string, delay: nat)
    requires ChainInv(c) && Quiet(c, |c.levels|)
    ensures (exists k: nat :: Ends(c, key, delay, k)) <==> c.n >= 2 || delay / c.base == 0
  {
    ChainBase(c);
    assert Lands(delay / c.base, c.n) <==> c.n >= 2 || delay / c.base == 0;
    assert forall k: nat :: Quiet(c, k);
    hide ChainInv, Follow;
    if Lands(delay / c.base, c.n) {
      Landing(c, key, delay);
      hide Rests;
      var l := LevelOf(c, delay);
      assert Ends(c, key, delay, l + 1);
    } else {
      forall k: nat ensures !Ends(c, key, delay, k) {
        Travel(c, key, delay, k);
        TrailShape(c, Follow(c, key, delay, k), key, delay, k);
      }
    }
  }

  // ----- What an add replaces -----

  lemma PassedCancels(w: Wheel, r: Wheel, key: string, id: nat)
    requires Complete(w) && LiveUnder(w, key, id) && Passed(w, r, key)
    ensures id in r.cancelled
  {
  }

  /**
   Adding a key again, with nothing pending: the key's task on level l stays live if and only if l is
   above the level of the new one. Every level on the way forgets the key, no other does.
   */
  lemma ReAddReplaces(c: Chain, key: string, delay: nat, l: nat, id: nat)
    requires ChainInv(c) && AllExact(c) && Quiet(c, |c.levels|) && Lands(delay / c.base, c.n)
    requires l < |c.levels| && LiveUnder(c.levels[l], key, id)
    ensures var r := Follow(c, key, delay, LevelOf(c, delay) + 1);
            l < |r.levels| && (Live(r.levels[l], id) <==> l > LevelOf(c, delay))
  {
    assert Complete(c.levels[l]) && Quiet(c, LevelOf(c, delay) + 1);
    hide ChainInv, Follow, Place, LevelOf, Inv, Complete, Passed, Quiet, Exact;
    Arrival(c, key, delay);
    var k := LevelOf(c, delay);
    var r := Follow(c, key, delay, k);
    if l <= k { PassedCancels(c.levels[l], r.levels[l], key, id); }
    if l == k {
      InvShaped(r.levels[l]);
      PlaceEffect(r.levels[l]);
    }
  }

  /** Removing a key leaves no live task of it on any level and touches no other key. */
  lemma RemovedEverywhere(c: Chain, key: string, l: nat, other: string, id: nat)
    requires ChainInv(c) && AllExact(c) && l < |c.levels|
    ensures var w := Step(c, RemoveTask(key)).levels[l];
            LiveUnder(w, other, id) <==> other != key && LiveUnder(c.levels[l], other, id)
  {
    LevelInv(c, l);
    assert Complete(c.levels[l]) && Index(c.levels[l]);
    UnlinkComplete(c.levels[l], key);
    hide ChainInv, Inv, Mark;
  }
}
