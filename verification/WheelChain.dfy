/**
 The chain of wheels: a task too long for one wheel goes to the next, whose interval is a
 whole round of the first. Each level has a goroutine of its own, so ticks, hand-overs
 and calls come in any order; each of them is one step.
 */
module WheelChain {
  import opened Modular
  import opened TimeWheel
  import opened WheelPending

  // ----- Levels -----

  function Pow(n: nat, l: nat): (r: nat)
    requires n >= 1
    ensures r >= 1
  {
    if l == 0 then 1 else n * Pow(n, l - 1)
  }

  /** Wheels of `n` slots can take a delay of `x` base slots at all. */
  predicate Lands(x: nat, n: nat) {
    n >= 2 || x < n
  }

  /** How many times a delay of `x` base slots overflows wheels of `n` slots. */
  function Level(x: nat, n: nat): (l: nat)
    requires Lands(x, n)
    decreases x
  {
    if x < n then 0 else DivSmaller(x, n); 1 + Level(x / n, n)
  }

  /** The level is the `l` with n^l <= x < n^(l+1); delays below one round are on level 0. */
  lemma {:induction false} LevelBounds(x: nat, n: nat)
    requires n >= 2
    ensures x < Pow(n, Level(x, n) + 1)
    ensures Level(x, n) > 0 ==> Pow(n, Level(x, n)) <= x
    decreases x
  {
    if x >= n {
      DivSmaller(x, n);
      var y := x / n;
      LevelBounds(y, n);
      StepBounds(x, n, Level(y, n));
    } else {
      assert Pow(n, 1) == n * Pow(n, 0);
    }
  }

  lemma StepBounds(x: nat, n: nat, l: nat)
    requires n >= 2 && x >= n && x / n < Pow(n, l + 1) && (l > 0 ==> Pow(n, l) <= x / n)
    ensures Pow(n, l + 1) <= x < Pow(n, l + 2)
  {
    assert l == 0 ==> Pow(n, l) == 1;
    DivSmaller(x, n);
    DivBounds(x, n, Pow(n, l), Pow(n, l + 1));
  }

  lemma {:induction false} PowMonotone(n: nat, a: nat, b: nat)
    requires n >= 1 && a <= b
    ensures Pow(n, a) <= Pow(n, b)
    decreases b
  {
    if a < b {
      PowMonotone(n, a, b - 1);
      MulMonotone(Pow(n, b - 1), 1, n);
    }
  }

  lemma LevelUnique(x: nat, n: nat, l: nat)
    requires n >= 2 && x >= 1 && Pow(n, l) <= x < Pow(n, l + 1)
    ensures l == Level(x, n)
  {
    LevelBounds(x, n);
    var k := Level(x, n);
    if k < l { PowMonotone(n, k + 1, l); }
    if l < k { PowMonotone(n, l + 1, k); }
  }

  /** Dividing by the interval of level `l` divides the base slots by n^l. */
  lemma DelaySlots(delay: nat, base: nat, n: nat, l: nat)
    requires base > 0 && n >= 1
    ensures base * Pow(n, l) > 0 && delay / (base * Pow(n, l)) == delay / base / Pow(n, l)
  {
    DivDiv(delay, base, Pow(n, l));
  }

  /** A task handed down to level `l` fits there exactly when that is its level. */
  lemma {:induction false} FitsAtLevel(x: nat, n: nat, l: nat)
    requires n >= 2 && Level(x, n) >= l
    ensures x / Pow(n, l) < n <==> Level(x, n) == l
    decreases l
  {
    if l == 0 {
      DivModUnique(x, 1, x, 0);
    } else {
      FitsAtLevel(x / n, n, l - 1);
      DivDiv(x, n, Pow(n, l - 1));
    }
  }

  lemma {:induction false} PowOne(l: nat)
    ensures Pow(1, l) == 1
  {
    if l > 0 { PowOne(l - 1); }
  }

  // ----- Runs -----

  /** `base` is the interval of level 0 and `n` the number of slots of every wheel. */
  datatype Chain = Chain(base: nat, n: nat, levels: seq<Wheel>)

  datatype Action =
    | AddTask(delay: int, key: string)
    | RemoveTask(key: string)
    | Receive(level: nat)
    | TickAt(level: nat)

  ghost predicate Shape(c: Chain) {
    && c.base > 0 && c.n >= 1 && |c.levels| >= 1
    && forall l :: 0 <= l < |c.levels| ==>
         Inv(c.levels[l]) && |c.levels[l].slots| == c.n && c.levels[l].interval == c.base * Pow(c.n, l)
  }

  ghost function Init(base: nat, n: nat): (c: Chain)
    requires base > 0 && n >= 1
    ensures Shape(c)
  {
    NewInv(base, n);
    var w := New(base, n).value;
    assert base * Pow(n, 0) == base;
    Chain(base, n, [w])
  }

  /** The wheel a level hands its long tasks to, created on first use. */
  ghost function NextWheel(c: Chain, l: nat): (w: Wheel)
    requires Shape(c) && l < |c.levels|
    ensures Inv(w) && |w.slots| == c.n && w.interval == c.base * Pow(c.n, l + 1)
  {
    if l + 1 < |c.levels| then c.levels[l + 1]
    else
      assert c.levels[l].interval * c.n == c.base * Pow(c.n, l + 1);
      NewInv(c.levels[l].interval * c.n, c.n);
      New(c.levels[l].interval * c.n, c.n).value
  }

  /** `levels` with level `l` replaced, or added at the end. */
  function Put(levels: seq<Wheel>, l: nat, w: Wheel): (r: seq<Wheel>)
    requires l <= |levels|
    ensures |r| == if l < |levels| then |levels| else |levels| + 1
  {
    if l < |levels| then levels[l := w] else levels + [w]
  }

  ghost function ReceiveStep(c: Chain, l: nat): Chain
    requires Shape(c) && l < |c.levels| && c.levels[l].chan != []
  {
    var w := c.levels[l];
    var e := w.chan[0];
    if Overflows(w)
    then c.(levels := Put(c.levels[l := Pop(w)], l + 1, Enqueue(NextWheel(c, l), e.key, e.delay)))
    else c.(levels := c.levels[l := Place(w)])
  }

  ghost function Step(c: Chain, a: Action): Chain
    requires Shape(c)
  {
    match a
    case AddTask(delay, key) =>
      if delay < 0 then c else c.(levels := c.levels[0 := Enqueue(c.levels[0], key, delay)])
    case RemoveTask(key) =>
      c.(levels := seq(|c.levels|, l requires 0 <= l < |c.levels| => Unlink(c.levels[l], key)))
    case Receive(l) => if l >= |c.levels| || c.levels[l].chan == [] then c else ReceiveStep(c, l)
    case TickAt(l) => if l >= |c.levels| then c else c.(levels := c.levels[l := Tick(c.levels[l])])
  }

  /** Tasks wait in channels at or above their level, and are placed on it. */
  ghost predicate AtLevel(w: Wheel, base: nat, n: nat, l: nat)
    requires base > 0
  {
    && (forall i :: 0 <= i < |w.chan| ==> Ahead(w.chan[i].delay, base, n, l))
    && (forall id :: id in w.placed ==> Belongs(w.placed[id].delay, base, n, l))
  }

  /** No level before `l` takes the delay. */
  predicate Ahead(delay: nat, base: nat, n: nat, l: nat)
    requires base > 0
  {
    Lands(delay / base, n) ==> Level(delay / base, n) >= l
  }

  /** Level `l` is the one that takes the delay. */
  predicate Belongs(delay: nat, base: nat, n: nat, l: nat)
    requires base > 0
  {
    Lands(delay / base, n) && Level(delay / base, n) == l
  }

  ghost predicate ChainInv(c: Chain) {
    Shape(c) && forall l :: 0 <= l < |c.levels| ==> AtLevel(c.levels[l], c.base, c.n, l)
  }

  ghost predicate Good(w: Wheel, base: nat, n: nat, l: nat)
    requires base > 0 && n >= 1
  {
    Inv(w) && |w.slots| == n && w.interval == base * Pow(n, l) && AtLevel(w, base, n, l)
  }

  lemma UnlinkGood(w: Wheel, key: string, base: nat, n: nat, l: nat)
    requires base > 0 && n >= 1 && Good(w, base, n, l)
    ensures Good(Unlink(w, key), base, n, l)
  {
    UnlinkKeepsInv(w, key);
    hide Inv;
  }

  lemma EnqueueGood(w: Wheel, key: string, delay: nat, base: nat, n: nat, l: nat)
    requires base > 0 && n >= 1 && Good(w, base, n, l) && Ahead(delay, base, n, l)
    ensures Good(Enqueue(w, key, delay), base, n, l)
  {
    EnqueueKeepsInv(w, key, delay);
    hide Inv, Ahead, Belongs;
  }

  lemma TickGood(w: Wheel, base: nat, n: nat, l: nat)
    requires base > 0 && n >= 1 && Good(w, base, n, l)
    ensures Good(Tick(w), base, n, l)
  {
    TickKeepsInv(w);
    hide Inv, Ahead, Belongs;
  }

  /** The head of the channel overflows exactly when this is not its level. */
  lemma OverflowIsHigher(w: Wheel, base: nat, n: nat, l: nat)
    requires base > 0 && n >= 1 && Good(w, base, n, l) && w.chan != []
    ensures Overflows(w) <==> Ahead(w.chan[0].delay, base, n, l + 1)
    ensures !Overflows(w) <==> Belongs(w.chan[0].delay, base, n, l)
  {
    hide Inv;
    var x := w.chan[0].delay / base;
    DelaySlots(w.chan[0].delay, base, n, l);
    assert Ahead(w.chan[0].delay, base, n, l);
    if n == 1 {
      PowOne(l);
      DivModUnique(x, 1, x, 0);
    } else {
      FitsAtLevel(x, n, l);
    }
  }

  lemma PopGood(w: Wheel, base: nat, n: nat, l: nat)
    requires base > 0 && n >= 1 && Good(w, base, n, l) && w.chan != []
    ensures Good(Pop(w), base, n, l)
  {
    PopKeepsInv(w);
    hide Inv, Ahead, Belongs;
  }

  lemma PlaceGood(w: Wheel, base: nat, n: nat, l: nat)
    requires base > 0 && n >= 1 && Good(w, base, n, l) && w.chan != [] && !Overflows(w)
    ensures Good(Place(w), base, n, l)
  {
    PlaceKeepsInv(w);
    OverflowIsHigher(w, base, n, l);
    hide Inv, Ahead, Belongs;
  }

  /** Replacing one level by a good wheel keeps the chain. */
  lemma PutKeepsInv(c: Chain, l: nat, w: Wheel)
    requires ChainInv(c) && l <= |c.levels| && Good(w, c.base, c.n, l)
    ensures ChainInv(c.(levels := Put(c.levels, l, w)))
  {
    hide Inv, AtLevel, Pow;
  }

  lemma ReceiveKeepsInv(c: Chain, l: nat)
    requires ChainInv(c) && l < |c.levels| && c.levels[l].chan != []
    ensures ChainInv(ReceiveStep(c, l))
  {
    var w := c.levels[l];
    assert Shaped(w) && Good(w, c.base, c.n, l);
    hide Inv, Good, Ahead, Belongs, Pow, AtLevel;
    OverflowIsHigher(w, c.base, c.n, l);
    if Overflows(w) {
      PopGood(w, c.base, c.n, l);
      NextGood(c, l);
      EnqueueGood(NextWheel(c, l), w.chan[0].key, w.chan[0].delay, c.base, c.n, l + 1);
      var popped := c.(levels := c.levels[l := Pop(w)]);
      PutKeepsInv(c, l, Pop(w));
      PutKeepsInv(popped, l + 1, Enqueue(NextWheel(c, l), w.chan[0].key, w.chan[0].delay));
    } else {
      PlaceGood(w, c.base, c.n, l);
      PutKeepsInv(c, l, Place(w));
    }
  }

  lemma NextGood(c: Chain, l: nat)
    requires ChainInv(c) && l < |c.levels|
    ensures Good(NextWheel(c, l), c.base, c.n, l + 1)
  {
    hide Inv, Ahead, Belongs;
  }

  lemma StepKeepsInv(c: Chain, a: Action)
    requires ChainInv(c)
    ensures ChainInv(Step(c, a))
  {
    hide Inv, AtLevel, Pow;
    match a
    case AddTask(delay, key) =>
      if delay >= 0 {
        assert Good(c.levels[0], c.base, c.n, 0);
        EnqueueGood(c.levels[0], key, delay, c.base, c.n, 0);
      }
    case RemoveTask(key) =>
      forall l | 0 <= l < |c.levels| ensures Good(Unlink(c.levels[l], key), c.base, c.n, l) {
        UnlinkGood(c.levels[l], key, c.base, c.n, l);
      }
    case Receive(l) =>
      if l < |c.levels| && c.levels[l].chan != [] { ReceiveKeepsInv(c, l); }
    case TickAt(l) =>
      if l < |c.levels| {
        assert Good(c.levels[l], c.base, c.n, l);
        TickGood(c.levels[l], c.base, c.n, l);
      }
  }

  lemma LevelInv(c: Chain, l: nat)
    requires ChainInv(c) && l < |c.levels|
    ensures Inv(c.levels[l]) && Shaped(c.levels[l])
  {
  }

  ghost predicate IsRun(states: seq<Chain>, actions: seq<Action>) {
    && |states| == |actions| + 1
    && (forall i :: 0 <= i < |actions| ==> Shape(states[i]) && states[i + 1] == Step(states[i], actions[i]))
  }

  /** A chain some run reaches from a new wheel. */
  ghost predicate Reachable(c: Chain) {
    exists states, actions, base: nat, n: nat ::
      base > 0 && n >= 1 && IsRun(states, actions) && states[0] == Init(base, n) && states[|actions|] == c
  }

  lemma {:induction false} RunInv(states: seq<Chain>, actions: seq<Action>, k: nat)
    requires IsRun(states, actions) && ChainInv(states[0]) && k < |states|
    ensures ChainInv(states[k])
    decreases k
  {
    hide ChainInv, Shape;
    if k > 0 {
      RunInv(states, actions, k - 1);
      StepKeepsInv(states[k - 1], actions[k - 1]);
    }
  }

  lemma ReachableInv(c: Chain)
    requires Reachable(c)
    ensures ChainInv(c)
  {
    var states, actions, base: nat, n: nat :|
      base > 0 && n >= 1 && IsRun(states, actions) && states[0] == Init(base, n) && states[|actions|] == c;
    RunInv(states, actions, |actions|);
  }

  ghost predicate Fate(c: Chain, l: nat, id: nat) {
    && c.base > 0 && c.n >= 1 && l < |c.levels|
    && var w := c.levels[l];
       && id in w.placed && w.interval == c.base * Pow(c.n, l) > 0
       && var e := w.placed[id];
          && Belongs(e.delay, c.base, c.n, l)
          && (id in w.cancelled ==> id !in w.fired)
          && (id in w.fired ==> w.fired[id] == e.born + e.delay / w.interval)
          && Times(w.ran, id) == (if id in w.fired then 1 else 0)
          && (id !in w.cancelled ==> (id in w.fired <==> e.born + e.delay / w.interval < w.ticks))
  }

  /**
   Every placed task, in every run: it is on the one level its delay belongs to, and unless it is
   cancelled it runs, on tick floor(D/J) + 1 of that wheel after it was placed, J being the wheel's
   interval. It occurs once among the tasks that ran; a cancelled task never does.
   */
  lemma TaskFate(c: Chain, l: nat, id: nat)
    requires Reachable(c) && l < |c.levels| && id in c.levels[l].placed
    ensures Fate(c, l, id)
  {
    ReachableInv(c);
    hide Reachable;
    var w := c.levels[l];
    assert Inv(w) && AtLevel(w, c.base, c.n, l);
    assert Record(w) && Once(w);
  }

  /** Nothing runs that was not placed. */
  lemma RanWasPlaced(c: Chain, l: nat, id: nat)
    requires Reachable(c) && l < |c.levels| && id !in c.levels[l].placed
    ensures Times(c.levels[l].ran, id) == 0
  {
    ReachableInv(c);
    hide Reachable;
    assert Inv(c.levels[l]) && Record(c.levels[l]) && Once(c.levels[l]);
  }

  /** Ticks come `j` apart, tick `i` at `clock(i)`. */
  ghost predicate Regular(clock: int -> int, j: int) {
    forall i :: clock(i + 1) == clock(i) + j
  }

  /** A time between the last tick before the task was placed and the next one. */
  ghost predicate PlacedAt(w: Wheel, id: nat, clock: int -> int, t: int) {
    id in w.placed && clock(w.placed[id].born - 1) <= t < clock(w.placed[id].born)
  }

  /** Under regular ticking a task that has run waited more than D - J and at most D + J. */
  lemma WaitBounds(c: Chain, l: nat, id: nat, clock: int -> int, t: int)
    requires Reachable(c) && l < |c.levels| && id in c.levels[l].fired
    requires Regular(clock, c.levels[l].interval) && PlacedAt(c.levels[l], id, clock, t)
    ensures var w, delay := c.levels[l], c.levels[l].placed[id].delay;
            delay - w.interval < clock(w.fired[id]) - t <= delay + w.interval
  {
    hide Reachable, Regular;
    FiredOn(c, l, id);
    var w := c.levels[l];
    var e := w.placed[id];
    Waited(clock, w.interval, e.born, e.delay, w.fired[id], t);
  }

  lemma Waited(clock: int -> int, j: nat, born: nat, delay: nat, fired: nat, t: int)
    requires Regular(clock, j) && j > 0 && fired == born + delay / j && clock(born - 1) <= t < clock(born)
    ensures delay - j < clock(fired) - t <= delay + j
  {
    hide Regular;
    var d := delay / j;
    TickTime(clock, j, born, d);
    TickTime(clock, j, born - 1, 1);
    Waits(delay, j, d, clock(born - 1), clock(born), clock(fired), t);
  }

  lemma FiredOn(c: Chain, l: nat, id: nat)
    requires Reachable(c) && l < |c.levels| && id in c.levels[l].fired
    ensures var w := c.levels[l];
            w.interval > 0 && id in w.placed && w.fired[id] == w.placed[id].born + w.placed[id].delay / w.interval
  {
    ReachableInv(c);
    hide Reachable;
    assert Inv(c.levels[l]) && Record(c.levels[l]);
  }

  lemma Waits(delay: nat, j: nat, d: nat, before: int, at: int, fires: int, t: int)
    requires j > 0 && d == delay / j && at == before + 1 * j && fires == at + d * j && before <= t < at
    ensures delay - j < fires - t <= delay + j
  {
    assert delay == j * d + delay % j;
  }

  lemma {:induction false} TickTime(clock: int -> int, j: int, start: int, d: nat)
    requires Regular(clock, j)
    ensures clock(start + d) == clock(start) + d * j
    decreases d
  {
    if d > 0 {
      TickTime(clock, j, start, d - 1);
      assert clock(start + (d - 1) + 1) == clock(start + (d - 1)) + j;
      hide Regular;
      assert start + (d - 1) + 1 == start + d;
      assert d * j == (d - 1) * j + j;
    }
  }

  // ----- The index over whole runs -----

  /** No key is added to a wheel while an earlier add of it is still in that wheel's channel. */
  ghost predicate Calm(c: Chain, a: Action)
    requires Shape(c)
  {
    && (a.AddTask? ==> a.key !in Keys(c.levels[0].chan))
    && (a.Receive? && a.level < |c.levels| && c.levels[a.level].chan != [] && Overflows(c.levels[a.level]) ==>
          c.levels[a.level].chan[0].key !in Keys(NextWheel(c, a.level).chan))
  }

  ghost predicate AllExact(c: Chain) {
    forall l :: 0 <= l < |c.levels| ==> Exact(c.levels[l])
  }

  lemma NewExact(c: Chain, l: nat)
    requires Shape(c) && AllExact(c) && l < |c.levels|
    ensures Exact(NextWheel(c, l))
  {
    hide Inv, Pow;
  }

  lemma ReceiveKeepsExact(c: Chain, l: nat)
    requires Shape(c) && AllExact(c) && l < |c.levels| && c.levels[l].chan != [] && Calm(c, Receive(l))
    ensures AllExact(ReceiveStep(c, l))
  {
    var w := c.levels[l];
    assert Inv(w) && Shaped(w);
    hide Inv, Exact, Pow;
    if Overflows(w) {
      PopKeepsExact(w);
      NewExact(c, l);
      EnqueueKeepsExact(NextWheel(c, l), w.chan[0].key, w.chan[0].delay);
    } else {
      PlaceKeepsExact(w);
    }
  }

  lemma StepKeepsExact(c: Chain, a: Action)
    requires Shape(c) && AllExact(c) && Calm(c, a)
    ensures AllExact(Step(c, a))
  {
    hide Inv, Exact, Pow;
    match a
    case AddTask(delay, key) => if delay >= 0 { EnqueueKeepsExact(c.levels[0], key, delay); }
    case RemoveTask(key) =>
      forall l | 0 <= l < |c.levels| ensures Exact(Unlink(c.levels[l], key)) {
        UnlinkKeepsExact(c.levels[l], key);
      }
    case Receive(l) => if l < |c.levels| && c.levels[l].chan != [] { ReceiveKeepsExact(c, l); }
    case TickAt(l) => if l < |c.levels| { TickKeepsExact(c.levels[l]); }
  }

  lemma InitExact(base: nat, n: nat)
    requires base > 0 && n >= 1
    ensures AllExact(Init(base, n)) && ChainInv(Init(base, n))
  {
    hide Inv;
  }

  lemma {:induction false} CalmRun(states: seq<Chain>, actions: seq<Action>, base: nat, n: nat, k: nat)
    requires base > 0 && n >= 1 && IsRun(states, actions) && states[0] == Init(base, n)
    requires forall i :: 0 <= i < |actions| ==> Calm(states[i], actions[i])
    requires k < |states|
    ensures AllExact(states[k])
    decreases k
  {
    hide Shape, AllExact, Calm, Step, Init;
    if k == 0 {
      InitExact(base, n);
    } else {
      CalmRun(states, actions, base, n, k - 1);
      StepKeepsExact(states[k - 1], actions[k - 1]);
    }
  }

  /**
   Along a calm run every wheel's index is exactly the live tasks on it, each under its key, and so
   exactly the unflagged elements in its slots.
   */
  lemma IndexTheorem(states: seq<Chain>, actions: seq<Action>, base: nat, n: nat, k: nat, l: nat)
    requires base > 0 && n >= 1 && IsRun(states, actions) && states[0] == Init(base, n)
    requires forall i :: 0 <= i < |actions| ==> Calm(states[i], actions[i])
    requires k < |states| && l < |states[k].levels|
    ensures Exact(states[k].levels[l]) && IndexIsSlots(states[k].levels[l])
  {
    hide Calm, Step, Init, IndexIsSlots, Complete, Pending;
    InitExact(base, n);
    CalmRun(states, actions, base, n, k);
    RunInv(states, actions, k);
    ExactIsSlots(states[k].levels[l]);
  }
}
