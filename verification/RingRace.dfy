/**
 A second producer on the ring queue. While it stalls between its full test and its
 compare-and-swap the tail can come round to the index it read, and the swap then succeeds
 on a full queue.
 */
module RingRace {
  import opened Modular
  import opened Wrappers
  import opened RingQueue

  /** The queue with its first producer, and the point a second producer is at. */
  datatype Duo = Duo(queue: State, second: Producer)

  datatype DuoAction = First(action: Action) | Second(action: Action)

  predicate ShapedDuo(d: Duo) {
    Shaped(d.queue) && Shaped(d.queue.(prod := d.second))
  }

  /** One step; an action of the second producer is that of a producer in its place. */
  function StepDuo(d: Duo, a: DuoAction): (r: Duo)
    requires ShapedDuo(d)
    ensures ShapedDuo(r)
  {
    match a
    case First(action) => Duo(Step(d.queue, action), d.second)
    case Second(action) =>
      var q := Step(d.queue.(prod := d.second), action);
      Duo(q.(prod := d.queue.prod), q.prod)
  }

  function RunDuo(d: Duo, actions: seq<DuoAction>): (r: Duo)
    requires ShapedDuo(d)
    ensures ShapedDuo(r)
    decreases |actions|
  {
    if actions == [] then d
    else StepDuo(RunDuo(d, actions[..|actions| - 1]), actions[|actions| - 1])
  }

  /** A state that some interleaving of the three threads reaches. */
  ghost predicate ReachableDuo(d: Duo, capacity: nat) {
    && Init(capacity).Some?
    && exists actions :: d == RunDuo(Duo(Init(capacity).value, PIdle(0)), actions)
  }

  lemma DuoStep(d: Duo, capacity: nat, a: DuoAction)
    requires ReachableDuo(d, capacity)
    ensures ShapedDuo(d) && ReachableDuo(StepDuo(d, a), capacity)
  {
    var start := Duo(Init(capacity).value, PIdle(0));
    var actions :| d == RunDuo(start, actions);
    var more := actions + [a];
    assert more[..|more| - 1] == actions;
    assert StepDuo(d, a) == RunDuo(start, more);
  }

  lemma {:induction false} ReachableStep(s: State, a: Action)
    requires Reachable(s)
    ensures Shaped(s) && Reachable(Step(s, a))
  {
    var capacity, actions :| Init(capacity).Some? && s == Run(Init(capacity).value, actions);
    RunSnoc(Init(capacity).value, actions, a);
  }

  lemma {:induction false} RunSnoc(s: State, actions: seq<Action>, a: Action)
    requires Shaped(s)
    ensures Run(s, actions + [a]) == Step(Run(s, actions), a)
    decreases |actions|
  {
    if actions == [] {
      assert actions + [a] == [a] && [a][1..] == [];
      assert Run(Step(s, a), []) == Step(s, a);
    } else {
      assert (actions + [a])[1..] == actions[1..] + [a];
      RunSnoc(Step(s, actions[0]), actions[1..], a);
    }
  }

  /** The first producer and the consumer have only met each other, and the second producer stalls. */
  ghost predicate Stalled(s: State, p: Producer, capacity: nat) {
    Reachable(s) && ReachableDuo(Duo(s, p), capacity) && s.capacity == capacity
  }

  lemma StalledStep(s: State, p: Producer, capacity: nat, a: Action)
    requires Stalled(s, p, capacity)
    ensures Shaped(s) && Stalled(Step(s, a), p, capacity)
  {
    hide Reachable, ReachableDuo, Step;
    ReachableStep(s, a);
    DuoStep(Duo(s, p), capacity, First(a));
    SameCapacity(s, a);
  }

  lemma SameCapacity(s: State, a: Action)
    requires Shaped(s)
    ensures Step(s, a).capacity == s.capacity
  {
  }

  lemma {:induction false} StalledRepeat(s: State, p: Producer, capacity: nat, a: Action, n: nat)
    requires Stalled(s, p, capacity)
    ensures Shaped(s) && Stalled(Repeat(s, a, n), p, capacity)
    decreases n
  {
    hide Stalled;
    StalledStep(s, p, capacity, a);
    if n > 0 { StalledRepeat(Step(s, a), p, capacity, a, n - 1); }
  }

  ghost predicate Idle(s: State, enqueued: nat, dequeued: nat) {
    s.prod.PIdle? && s.cons.CIdle? && |s.enqueued| == enqueued && |s.dequeued| == dequeued
  }

  lemma AddOne(s: State, p: Producer, capacity: nat, e: nat, d: nat) returns (r: State)
    requires Stalled(s, p, capacity) && Idle(s, e, d) && e - d < capacity - 1
    ensures Stalled(r, p, capacity) && Idle(r, e + 1, d)
  {
    SoloEnqueue(s, 0, 0);
    StalledStep(s, p, capacity, CallEnqueue(0, 0));
    hide Stalled, Repeat, Step;
    var t := Step(s, CallEnqueue(0, 0));
    StalledRepeat(t, p, capacity, ProducerStep(false), 6);
    r := Repeat(t, ProducerStep(false), 6);
  }

  lemma TakeOne(s: State, p: Producer, capacity: nat, e: nat, d: nat) returns (r: State)
    requires Stalled(s, p, capacity) && Idle(s, e, d) && d < e
    ensures Stalled(r, p, capacity) && Idle(r, e, d + 1)
  {
    SoloDequeue(s);
    StalledStep(s, p, capacity, CallDequeue);
    hide Stalled, Repeat, Step;
    var t := Step(s, CallDequeue);
    StalledRepeat(t, p, capacity, ConsumerStep(false), 9);
    r := Repeat(t, ConsumerStep(false), 9);
  }

  lemma {:induction false} FillTo(s: State, p: Producer, capacity: nat, k: nat) returns (r: State)
    requires Stalled(s, p, capacity) && Idle(s, 0, 0) && k <= capacity - 1
    ensures Stalled(r, p, capacity) && Idle(r, k, 0)
    decreases k
  {
    hide Stalled;
    r := s;
    if k > 0 {
      r := FillTo(s, p, capacity, k - 1);
      r := AddOne(r, p, capacity, k - 1, 0);
    }
  }

  lemma StartReachable(capacity: nat)
    requires 1 <= capacity <= MAX_CONNECTIONS
    ensures var s := Init(capacity).value; ReachableDuo(Duo(s, PIdle(0)), capacity) && Reachable(s)
  {
    var s := Init(capacity).value;
    var d := Duo(s, PIdle(0));
    assert d == RunDuo(d, []) && s == Run(s, []);
  }

  /** The second producer passes its full test on the empty queue, and stalls before its swap. */
  lemma StallAtStart(capacity: nat, item: Item)
    requires 2 <= capacity <= MAX_CONNECTIONS && item.fd >= 0
    ensures Init(capacity).Some? && Idle(Init(capacity).value, 0, 0)
    ensures Stalled(Init(capacity).value, PCas(item, 0), capacity)
  {
    var s := Init(capacity).value;
    var d := Duo(s, PIdle(0));
    StartReachable(capacity);
    hide ReachableDuo, Reachable;
    DivModUnique(1, capacity, 0, 1);
    DuoStep(d, capacity, Second(CallEnqueue(item.fd, item.data)));
    var d1 := StepDuo(d, Second(CallEnqueue(item.fd, item.data)));
    assert d1 == Duo(s, PLoadTail(item));
    DuoStep(d1, capacity, Second(ProducerStep(false)));
    var d2 := StepDuo(d1, Second(ProducerStep(false)));
    assert d2 == Duo(s, PLoadHead(item, 0));
    DuoStep(d2, capacity, Second(ProducerStep(false)));
    assert StepDuo(d2, Second(ProducerStep(false))) == Duo(s, PCas(item, 0));
  }

  /** The tail has gone round once and the queue is full. */
  lemma FullRound(capacity: nat, item: Item) returns (s: State)
    requires 2 <= capacity <= MAX_CONNECTIONS && item.fd >= 0
    ensures Stalled(s, PCas(item, 0), capacity) && Idle(s, capacity, 1) && s.tail == 0 && s.head == 1
  {
    StallAtStart(capacity, item);
    var p := PCas(item, 0);
    s := FillTo(Init(capacity).value, p, capacity, capacity - 1);
    s := TakeOne(s, p, capacity, capacity - 1, 0);
    s := AddOne(s, p, capacity, capacity - 1, 1);
    ReachableInv(s);
    DivModUnique(capacity, capacity, 1, 0);
    DivModUnique(1, capacity, 0, 1);
    hide Stalled;
  }

  /** The late swap succeeds on the full queue and closes the one-slot gap. */
  lemma LateSwap(s: State, item: Item, capacity: nat) returns (d: Duo)
    requires Stalled(s, PCas(item, 0), capacity) && capacity >= 2 && Idle(s, capacity, 1) && s.tail == 0 && s.head == 1
    ensures ReachableDuo(d, capacity) && d.second == PIdle(0) && IsEmpty(d.queue) && Idle(d.queue, capacity + 1, 1)
  {
    var a := Second(ProducerStep(false));
    DivModUnique(1, capacity, 0, 1);
    var d0 := Duo(s, PCas(item, 0));
    DuoStep(d0, capacity, a);
    var d1 := StepDuo(d0, a);
    DuoStep(d1, capacity, a);
    var d2 := StepDuo(d1, a);
    DuoStep(d2, capacity, a);
    var d3 := StepDuo(d2, a);
    DuoStep(d3, capacity, a);
    d := StepDuo(d3, a);
    hide ReachableDuo, Reachable;
    assert d1.second == PWriteFd(item, 0) && d1.queue == s.(tail := 1);
    assert d2.second == PWriteData(item, 0) && d2.queue == d1.queue.(slots := d2.queue.slots);
    assert d3.second == PPublish(item, 0) && d3.queue == d1.queue.(slots := d3.queue.slots);
  }

  /**
   For every capacity three threads reach a state in which all are idle, `capacity` accepted items have
   not been handed out, and the queue is empty: a dequeue is refused.
   */
  lemma TwoProducersLoseItems(capacity: nat, item: Item) returns (d: Duo)
    requires 2 <= capacity <= MAX_CONNECTIONS && item.fd >= 0
    ensures ReachableDuo(d, capacity) && ShapedDuo(d) && d.second == PIdle(0)
    ensures Idle(d.queue, capacity + 1, 1) && Size(d.queue) == 0
    ensures Repeat(Step(d.queue, CallDequeue), ConsumerStep(false), 2).cons == CIdle(-1)
  {
    var s := FullRound(capacity, item);
    d := LateSwap(s, item, capacity);
    DuoStep(d, capacity, First(CallDequeue));
    hide ReachableDuo, Stalled;
    var t := Step(d.queue, CallDequeue);
    assert t == d.queue.(cons := CLoadHead);
    var u := Step(t, ConsumerStep(false));
    assert u == t.(cons := CLoadTail(t.head));
    assert Repeat(t, ConsumerStep(false), 2) == Step(u, ConsumerStep(false));
  }
}
