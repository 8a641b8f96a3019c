/**
 The ring queue of the agent, driven by one producer thread and one consumer thread.
 Every atomic load, compare-and-swap and store, and every plain access to a slot's
 `fd` or `data`, is one step of its own; a run is any list of such steps, so it covers
 every interleaving. A compare-and-swap may fail spuriously.
 */
module RingQueue {
  import opened Modular
  import opened Wrappers

  const MAX_CONNECTIONS := 4096

  datatype Item = Item(fd: int, data: int)
  datatype Slot = Slot(fd: int, data: int, state: int)

  const EMPTY_SLOT := Slot(-1, 0, 0)

  /** Where the producer is inside `lfq_enqueue`; `ret` is what its last call returned. */
  datatype Producer =
    | PIdle(ret: int)
    | PLoadTail(item: Item)
    | PLoadHead(item: Item, tail: nat)
    | PCas(item: Item, tail: nat)
    | PWriteFd(item: Item, tail: nat)
    | PWriteData(item: Item, tail: nat)
    | PPublish(item: Item, tail: nat)

  /** Where the consumer is inside `lfq_dequeue`; `conn` is the caller's record. */
  datatype Consumer =
    | CIdle(ret: int)
    | CLoadHead
    | CLoadTail(head: nat)
    | CLoadState(head: nat)
    | CCas(head: nat)
    | CReadFd(head: nat)
    | CReadData(head: nat)
    | CClearState(head: nat)
    | CClearFd(head: nat)
    | CClearData(head: nat)

  /**
   `enqueued` lists the items whose enqueue returned 0, `dequeued` the records that a
   dequeue handed back with 0; neither is read by the algorithm.
   */
  datatype State = State(
    capacity: nat, head: nat, tail: nat, slots: seq<Slot>,
    prod: Producer, cons: Consumer, conn: Item,
    enqueued: seq<Item>, dequeued: seq<Item>)

  datatype Action =
    | CallEnqueue(fd: int, data: int)
    | ProducerStep(spurious: bool)
    | CallDequeue
    | ConsumerStep(spurious: bool)

  /** `lfq_init`. */
  function Init(capacity: nat): (r: Option<State>) {
    if capacity == 0 || capacity > MAX_CONNECTIONS then None
    else Some(State(capacity, 0, 0, seq(capacity, _ => EMPTY_SLOT), PIdle(0), CIdle(0), Item(0, 0), [], []))
  }

  /** Every index held anywhere is inside the ring. */
  predicate Shaped(s: State) {
    && 1 <= s.capacity == |s.slots|
    && s.head < s.capacity && s.tail < s.capacity
    && (s.prod.PIdle? || s.prod.PLoadTail? || s.prod.tail < s.capacity)
    && (s.cons.CIdle? || s.cons.CLoadHead? || s.cons.head < s.capacity)
  }

  /** One step of the producer; it stays put when no call is under way. */
  function StepProducer(s: State, spurious: bool): (r: State)
    requires Shaped(s)
    ensures Shaped(r)
  {
    match s.prod
    case PIdle(_) => s
    case PLoadTail(item) => s.(prod := PLoadHead(item, s.tail))
    case PLoadHead(item, tail) =>
      if (tail + 1) % s.capacity == s.head then s.(prod := PIdle(-1)) else s.(prod := PCas(item, tail))
    case PCas(item, tail) =>
      if s.tail == tail && !spurious
      then s.(tail := (tail + 1) % s.capacity, prod := PWriteFd(item, tail))
      else s.(prod := PLoadTail(item))
    case PWriteFd(item, tail) =>
      s.(slots := s.slots[tail := s.slots[tail].(fd := item.fd)], prod := PWriteData(item, tail))
    case PWriteData(item, tail) =>
      s.(slots := s.slots[tail := s.slots[tail].(data := item.data)], prod := PPublish(item, tail))
    case PPublish(item, tail) =>
      s.(slots := s.slots[tail := s.slots[tail].(state := 1)], prod := PIdle(0), enqueued := s.enqueued + [item])
  }

  /** One step of the consumer; it stays put when no call is under way. */
  function StepConsumer(s: State, spurious: bool): (r: State)
    requires Shaped(s)
    ensures Shaped(r)
  {
    match s.cons
    case CIdle(_) => s
    case CLoadHead => s.(cons := CLoadTail(s.head))
    case CLoadTail(head) =>
      if head == s.tail then s.(cons := CIdle(-1)) else s.(cons := CLoadState(head))
    case CLoadState(head) =>
      if s.slots[head].state != 1 then s.(cons := CLoadHead) else s.(cons := CCas(head))
    case CCas(head) =>
      if s.head == head && !spurious
      then s.(head := (head + 1) % s.capacity, cons := CReadFd(head))
      else s.(cons := CLoadHead)
    case CReadFd(head) => s.(conn := s.conn.(fd := s.slots[head].fd), cons := CReadData(head))
    case CReadData(head) => s.(conn := s.conn.(data := s.slots[head].data), cons := CClearState(head))
    case CClearState(head) =>
      s.(slots := s.slots[head := s.slots[head].(state := 0)], cons := CClearFd(head))
    case CClearFd(head) =>
      s.(slots := s.slots[head := s.slots[head].(fd := -1)], cons := CClearData(head))
    case CClearData(head) =>
      s.(slots := s.slots[head := s.slots[head].(data := 0)], cons := CIdle(0), dequeued := s.dequeued + [s.conn])
  }

  /** One step of the two-thread system. A call is taken only by an idle thread. */
  function Step(s: State, a: Action): (r: State)
    requires Shaped(s)
    ensures Shaped(r)
  {
    match a
    case CallEnqueue(fd, data) =>
      if !s.prod.PIdle? then s
      else if fd < 0 then s.(prod := PIdle(-1))
      else s.(prod := PLoadTail(Item(fd, data)))
    case ProducerStep(spurious) => StepProducer(s, spurious)
    case CallDequeue => if s.cons.CIdle? then s.(cons := CLoadHead) else s
    case ConsumerStep(spurious) => StepConsumer(s, spurious)
  }

  function Run(s: State, actions: seq<Action>): (r: State)
    requires Shaped(s)
    ensures Shaped(r)
    decreases |actions|
  {
    if actions == [] then s else Run(Step(s, actions[0]), actions[1..])
  }

  /** `lfq_size`, `lfq_is_empty` and `lfq_is_full`. */
  function Size(s: State): int {
    if s.tail >= s.head then s.tail - s.head else s.capacity - s.head + s.tail
  }

  predicate IsEmpty(s: State) {
    s.head == s.tail
  }

  predicate IsFull(s: State)
    requires s.capacity > 0
  {
    (s.tail + 1) % s.capacity == s.head
  }

  // ----- The invariant -----

  /** The producer owns the slot it reserved and has not published it. */
  predicate Writing(p: Producer) {
    p.PWriteFd? || p.PWriteData? || p.PPublish?
  }

  /** The consumer has taken a slot and its state is still 1. */
  predicate Reading(c: Consumer) {
    c.CReadFd? || c.CReadData? || c.CClearState?
  }

  /** The consumer has taken a slot and is reading or clearing it. */
  predicate Taking(c: Consumer) {
    Reading(c) || c.CClearFd? || c.CClearData?
  }

  /** How often `tail` has moved, without the modulus. */
  function TailCount(s: State): nat {
    |s.enqueued| + if Writing(s.prod) then 1 else 0
  }

  /** How often `head` has moved, without the modulus. */
  function HeadCount(s: State): nat {
    |s.dequeued| + if Taking(s.cons) then 1 else 0
  }

  function At(s: State, i: nat): Slot
    requires Shaped(s)
  {
    s.slots[i % s.capacity]
  }

  ghost predicate Counters(s: State) {
    && Shaped(s)
    && s.head == HeadCount(s) % s.capacity
    && s.tail == TailCount(s) % s.capacity
    && HeadCount(s) <= |s.enqueued|
    && TailCount(s) < HeadCount(s) + s.capacity
    && s.dequeued == s.enqueued[..|s.dequeued|]
  }

  /** What the slots hold: published items are intact, free slots are in state 0. */
  ghost predicate Contents(s: State)
    requires Counters(s)
  {
    && (forall i: nat :: HeadCount(s) <= i < |s.enqueued| ==>
          At(s, i) == Slot(s.enqueued[i].fd, s.enqueued[i].data, 1))
    && (forall i: nat :: TailCount(s) <= i < HeadCount(s) + s.capacity - (if Reading(s.cons) then 1 else 0) ==>
          At(s, i).state == 0)
  }

  /** What the producer may rely on at each point of its program. */
  ghost predicate ProducerKnows(s: State)
    requires Counters(s)
  {
    match s.prod
    case PIdle(_) => true
    case PLoadTail(item) => true
    case PLoadHead(item, tail) => tail == s.tail
    case PCas(item, tail) => tail == s.tail && TailCount(s) + 1 < HeadCount(s) + s.capacity
    case PWriteFd(item, tail) => tail == |s.enqueued| % s.capacity && s.slots[tail].state == 0
    case PWriteData(item, tail) =>
      tail == |s.enqueued| % s.capacity && s.slots[tail].state == 0 && s.slots[tail].fd == item.fd
    case PPublish(item, tail) => tail == |s.enqueued| % s.capacity && s.slots[tail] == Slot(item.fd, item.data, 0)
  }

  /** What the consumer may rely on at each point of its program. */
  ghost predicate ConsumerKnows(s: State)
    requires Counters(s)
  {
    var d := |s.dequeued|;
    match s.cons
    case CIdle(_) => true
    case CLoadHead => true
    case CLoadTail(head) => head == s.head
    case CLoadState(head) => head == s.head && HeadCount(s) < TailCount(s)
    case CCas(head) => head == s.head && HeadCount(s) < |s.enqueued|
    case CReadFd(head) =>
      head == d % s.capacity && s.slots[head] == Slot(s.enqueued[d].fd, s.enqueued[d].data, 1)
    case CReadData(head) =>
      && head == d % s.capacity && s.slots[head] == Slot(s.enqueued[d].fd, s.enqueued[d].data, 1)
      && s.conn.fd == s.enqueued[d].fd
    case CClearState(head) => head == d % s.capacity && s.conn == s.enqueued[d]
    case CClearFd(head) => head == d % s.capacity && s.conn == s.enqueued[d]
    case CClearData(head) => head == d % s.capacity && s.conn == s.enqueued[d]
  }

  ghost predicate Inv(s: State) {
    Counters(s) && Contents(s) && ProducerKnows(s) && ConsumerKnows(s)
  }

  // ----- Every step keeps the invariant -----

  /** Writing one slot leaves every other slot within a lap alone. */
  lemma OtherSlot(slots: seq<Slot>, k: nat, i: nat, v: Slot)
    requires |slots| > 0 && i != k && -|slots| < i - k < |slots|
    ensures slots[k % |slots| := v][i % |slots|] == slots[i % |slots|]
  {
    ModInjective(i, k, |slots|);
  }

  /** The producer's plain writes and its publication touch only the slot it reserved. */
  lemma ProducerWrite(s: State, v: Slot, r: State)
    requires Inv(s) && Writing(s.prod)
    requires r == s.(slots := s.slots[s.prod.tail := v])
    ensures Counters(r)
    ensures forall i: nat :: HeadCount(s) <= i < |s.enqueued| ==> At(r, i) == At(s, i)
    ensures forall i: nat :: TailCount(s) <= i < HeadCount(s) + s.capacity ==> At(r, i) == At(s, i)
    ensures Taking(s.cons) ==> At(r, |s.dequeued|) == At(s, |s.dequeued|) && s.prod.tail != s.cons.head
  {
    var k := |s.enqueued|;
    forall i: nat | HeadCount(s) <= i < k || TailCount(s) <= i < HeadCount(s) + s.capacity
      ensures At(r, i) == At(s, i)
    {
      OtherSlot(s.slots, k, i, v);
    }
    if Taking(s.cons) {
      OtherSlot(s.slots, k, |s.dequeued|, v);
      ModInjective(k, |s.dequeued|, s.capacity);
    }
  }

  /** A move that changes neither memory nor the counters keeps what the slots hold. */
  lemma LocalMove(s: State, r: State)
    requires Inv(s) && Shaped(r)
    requires r == s.(prod := r.prod, cons := r.cons, conn := r.conn)
    requires Writing(r.prod) == Writing(s.prod)
    requires Taking(r.cons) == Taking(s.cons) && Reading(r.cons) == Reading(s.cons)
    ensures Counters(r) && Contents(r)
  {
    assert forall i: nat :: At(r, i) == At(s, i);
  }

  /** The full test is exact when `head` is loaded: it answers for the true occupancy. */
  lemma FullTest(s: State)
    requires Counters(s)
    ensures (s.tail + 1) % s.capacity == s.head <==> TailCount(s) + 1 == HeadCount(s) + s.capacity
  {
    ModStep(TailCount(s), s.capacity);
    ModInjective(TailCount(s) + 1, HeadCount(s) + s.capacity, s.capacity);
    ModLap(HeadCount(s), s.capacity);
  }

  lemma TailCasKeepsInv(s: State)
    requires Inv(s) && s.prod.PCas?
    ensures Inv(StepProducer(s, false))
  {
    ModStep(TailCount(s), s.capacity);
    assert At(s, TailCount(s)).state == 0;
    var r := StepProducer(s, false);
    assert forall i: nat :: At(r, i) == At(s, i);
  }

  lemma WriteKeepsInv(s: State)
    requires Inv(s) && (s.prod.PWriteFd? || s.prod.PWriteData?)
    ensures Inv(StepProducer(s, false))
  {
    var r := StepProducer(s, false);
    var w := s.(slots := r.slots);
    ProducerWrite(s, r.slots[s.prod.tail], w);
    assert forall i: nat :: At(r, i) == At(w, i);
  }

  lemma PublishKeepsInv(s: State)
    requires Inv(s) && s.prod.PPublish?
    ensures Inv(StepProducer(s, false))
  {
    var r := StepProducer(s, false);
    var w := s.(slots := r.slots);
    ProducerWrite(s, r.slots[s.prod.tail], w);
    assert forall i: nat :: At(r, i) == At(w, i);
    assert At(r, |s.enqueued|) == Slot(s.prod.item.fd, s.prod.item.data, 1);
  }

  lemma ProducerLoadKeepsInv(s: State, spurious: bool)
    requires Inv(s) && (s.prod.PLoadTail? || s.prod.PLoadHead? || (s.prod.PCas? && spurious))
    ensures Inv(StepProducer(s, spurious))
  {
    hide Contents;
    if s.prod.PLoadHead? { FullTest(s); }
    LocalMove(s, StepProducer(s, spurious));
  }

  lemma ProducerKeepsInv(s: State, spurious: bool)
    requires Inv(s)
    ensures Inv(StepProducer(s, spurious))
  {
    hide Inv;
    match s.prod
    case PIdle(_) =>
    case PLoadTail(item) => ProducerLoadKeepsInv(s, spurious);
    case PLoadHead(item, tail) => ProducerLoadKeepsInv(s, spurious);
    case PCas(item, tail) => if spurious { ProducerLoadKeepsInv(s, spurious); } else { TailCasKeepsInv(s); }
    case PWriteFd(item, tail) => WriteKeepsInv(s);
    case PWriteData(item, tail) => WriteKeepsInv(s);
    case PPublish(item, tail) => PublishKeepsInv(s);
  }

  /** Clearing a taken slot touches nothing the queue still holds and not the producer's slot. */
  lemma ConsumerWrite(s: State, v: Slot, r: State)
    requires Inv(s) && Taking(s.cons)
    requires r == s.(slots := s.slots[s.cons.head := v])
    ensures Counters(r)
    ensures forall i: nat :: HeadCount(s) <= i < HeadCount(s) + s.capacity - 1 ==> At(r, i) == At(s, i)
    ensures At(r, HeadCount(s) + s.capacity - 1) == v
    ensures Writing(s.prod) ==> r.slots[s.prod.tail] == s.slots[s.prod.tail]
  {
    var k := |s.dequeued|;
    forall i: nat | HeadCount(s) <= i < HeadCount(s) + s.capacity - 1
      ensures At(r, i) == At(s, i)
    {
      OtherSlot(s.slots, k, i, v);
    }
    ModLap(k, s.capacity);
    if Writing(s.prod) {
      OtherSlot(s.slots, k, |s.enqueued|, v);
    }
  }

  lemma HeadCasKeepsInv(s: State)
    requires Inv(s) && s.cons.CCas?
    ensures Inv(StepConsumer(s, false))
  {
    ModStep(HeadCount(s), s.capacity);
    var r := StepConsumer(s, false);
    assert At(s, HeadCount(s)) == Slot(s.enqueued[HeadCount(s)].fd, s.enqueued[HeadCount(s)].data, 1);
    assert forall i: nat :: At(r, i) == At(s, i);
  }

  lemma ClearFdKeepsInv(s: State)
    requires Inv(s) && s.cons.CClearFd?
    ensures Inv(StepConsumer(s, false))
  {
    var r := StepConsumer(s, false);
    var w := s.(slots := r.slots);
    ConsumerWrite(s, r.slots[s.cons.head], w);
    ClearedStays(s, w);
    assert forall i: nat :: At(r, i) == At(w, i);
  }

  lemma ClearDataKeepsInv(s: State)
    requires Inv(s) && s.cons.CClearData?
    ensures Inv(StepConsumer(s, false))
  {
    var r := StepConsumer(s, false);
    var w := s.(slots := r.slots);
    ConsumerWrite(s, r.slots[s.cons.head], w);
    ClearedStays(s, w);
    assert forall i: nat :: At(r, i) == At(w, i);
  }

  /** The slot being emptied is already back in state 0. */
  lemma ClearedStays(s: State, w: State)
    requires Inv(s) && (s.cons.CClearFd? || s.cons.CClearData?)
    requires w == s.(slots := w.slots) && Counters(w) && w.slots[s.cons.head].state == s.slots[s.cons.head].state
    ensures At(w, HeadCount(s) + s.capacity - 1).state == 0
  {
    ModLap(|s.dequeued|, s.capacity);
    assert At(s, HeadCount(s) + s.capacity - 1).state == 0;
  }

  lemma ClearStateKeepsInv(s: State)
    requires Inv(s) && s.cons.CClearState?
    ensures Inv(StepConsumer(s, false))
  {
    var r := StepConsumer(s, false);
    var w := s.(slots := r.slots);
    ConsumerWrite(s, r.slots[s.cons.head], w);
    assert forall i: nat :: At(r, i) == At(w, i);
  }

  /** A slot seen in state 1 is published: the reserved slot is still in state 0. */
  lemma LoadStateKeepsInv(s: State)
    requires Inv(s) && s.cons.CLoadState?
    ensures Inv(StepConsumer(s, false))
  {
    LocalMove(s, StepConsumer(s, false));
  }

  lemma LoadIndexKeepsInv(s: State, spurious: bool)
    requires Inv(s) && (s.cons.CLoadHead? || s.cons.CLoadTail? || (s.cons.CCas? && spurious))
    ensures Inv(StepConsumer(s, spurious))
  {
    LocalMove(s, StepConsumer(s, spurious));
  }

  lemma ReadKeepsInv(s: State)
    requires Inv(s) && (s.cons.CReadFd? || s.cons.CReadData?)
    ensures Inv(StepConsumer(s, false))
  {
    LocalMove(s, StepConsumer(s, false));
  }

  lemma ConsumerKeepsInv(s: State, spurious: bool)
    requires Inv(s)
    ensures Inv(StepConsumer(s, spurious))
  {
    hide Inv;
    match s.cons
    case CIdle(_) =>
    case CLoadHead => LoadIndexKeepsInv(s, spurious);
    case CLoadTail(head) => LoadIndexKeepsInv(s, spurious);
    case CLoadState(head) => LoadStateKeepsInv(s);
    case CCas(head) => if spurious { LoadIndexKeepsInv(s, spurious); } else { HeadCasKeepsInv(s); }
    case CReadFd(head) => ReadKeepsInv(s);
    case CReadData(head) => ReadKeepsInv(s);
    case CClearState(head) => ClearStateKeepsInv(s);
    case CClearFd(head) => ClearFdKeepsInv(s);
    case CClearData(head) => ClearDataKeepsInv(s);
  }

  lemma StepKeepsInv(s: State, a: Action)
    requires Inv(s)
    ensures Inv(Step(s, a))
  {
    match a
    case CallEnqueue(fd, data) => LocalMove(s, Step(s, a));
    case ProducerStep(spurious) => ProducerKeepsInv(s, spurious);
    case CallDequeue => LocalMove(s, Step(s, a));
    case ConsumerStep(spurious) => ConsumerKeepsInv(s, spurious);
  }

  // ----- Theorems over every run -----

  lemma {:induction false} RunKeepsInv(s: State, actions: seq<Action>)
    requires Inv(s)
    ensures Inv(Run(s, actions))
    decreases |actions|
  {
    if actions != [] {
      StepKeepsInv(s, actions[0]);
      RunKeepsInv(Step(s, actions[0]), actions[1..]);
    }
  }

  /** A state some interleaving reaches from a freshly initialised queue. */
  ghost predicate Reachable(s: State) {
    exists capacity: nat, actions: seq<Action> ::
      Init(capacity).Some? && s == Run(Init(capacity).value, actions)
  }

  lemma ReachableInv(s: State)
    requires Reachable(s)
    ensures Inv(s)
  {
    var capacity: nat, actions: seq<Action> :|
      Init(capacity).Some? && s == Run(Init(capacity).value, actions);
    var s0 := Init(capacity).value;
    assert forall i: nat :: At(s0, i) == EMPTY_SLOT;
    RunKeepsInv(s0, actions);
  }

  /**
   In every interleaving what has been handed back is a prefix, in order, of what was
   accepted: nothing is lost, duplicated, torn or read before it is published.
   */
  lemma FifoTheorem(s: State)
    requires Reachable(s)
    ensures s.dequeued <= s.enqueued
    ensures |s.enqueued| - |s.dequeued| <= s.capacity
    ensures 0 <= TailCount(s) - HeadCount(s) <= s.capacity - 1
    ensures Size(s) == TailCount(s) - HeadCount(s)
  {
    ReachableInv(s);
    SizeIsOccupancy(s);
  }

  lemma SizeIsOccupancy(s: State)
    requires Counters(s)
    ensures Size(s) == TailCount(s) - HeadCount(s)
    ensures IsEmpty(s) <==> TailCount(s) == HeadCount(s)
    ensures IsFull(s) <==> TailCount(s) - HeadCount(s) == s.capacity - 1
  {
    FullTest(s);
    RingDistance(HeadCount(s), TailCount(s), s.capacity);
  }

  /** With both threads idle the queries describe the queue of accepted, not yet returned items. */
  lemma IdleQueries(s: State)
    requires Reachable(s) && s.prod.PIdle? && s.cons.CIdle?
    ensures Size(s) == |s.enqueued| - |s.dequeued| < s.capacity
    ensures IsEmpty(s) <==> s.enqueued == s.dequeued
    ensures IsFull(s) <==> |s.enqueued| - |s.dequeued| == s.capacity - 1
  {
    ReachableInv(s);
    SizeIsOccupancy(s);
  }

  /**
   Slot ownership: the slot the producer fills is never the one the consumer reads or
   clears, and a slot in state 1 is a published item not yet taken, or the one being cleared.
   */
  lemma SlotOwnership(s: State)
    requires Reachable(s)
    ensures Writing(s.prod) && Taking(s.cons) ==> s.prod.tail != s.cons.head
    ensures forall j :: 0 <= j < s.capacity && s.slots[j].state == 1 ==>
              || (exists i: nat :: HeadCount(s) <= i < |s.enqueued| && j == i % s.capacity)
              || (Reading(s.cons) && j == s.cons.head)
  {
    ReachableInv(s);
    if Writing(s.prod) {
      ProducerWrite(s, s.slots[s.prod.tail], s.(slots := s.slots[s.prod.tail := s.slots[s.prod.tail]]));
    }
    forall j | 0 <= j < s.capacity && s.slots[j].state == 1
      ensures || (exists i: nat :: HeadCount(s) <= i < |s.enqueued| && j == i % s.capacity)
              || (Reading(s.cons) && j == s.cons.head)
    {
      var i := LapCounter(s, j);
      assert At(s, i) == s.slots[j];
      ModLap(|s.dequeued|, s.capacity);
    }
  }

  /** The counter of slot `j` in the lap that starts at the head. */
  lemma LapCounter(s: State, j: nat) returns (i: nat)
    requires Counters(s) && j < s.capacity
    ensures HeadCount(s) <= i < HeadCount(s) + s.capacity && i % s.capacity == j
  {
    var n, h := s.capacity, HeadCount(s);
    assert h == n * (h / n) + s.head;
    if j >= s.head {
      i := h + (j - s.head);
      DivModUnique(i, n, h / n, j);
    } else {
      i := h + (j - s.head) + n;
      assert i == n * (h / n + 1) + j;
      DivModUnique(i, n, h / n + 1, j);
    }
  }

  /** An enqueue reports "full" only when capacity - 1 slots are taken, a dequeue "empty" only when none is. */
  lemma RefusalsAreTrue(s: State, a: Action)
    requires Reachable(s)
    ensures a.ProducerStep? && s.prod.PLoadHead? ==>
              (Step(s, a).prod == PIdle(-1) <==> TailCount(s) - HeadCount(s) == s.capacity - 1)
    ensures a.ConsumerStep? && s.cons.CLoadTail? ==>
              (Step(s, a).cons == CIdle(-1) <==> TailCount(s) == HeadCount(s))
  {
    ReachableInv(s);
    SizeIsOccupancy(s);
  }

  /**
   Every answer is true, whatever steps led to it. A call ends only by accepting its item, by handing out the
   oldest item not yet handed out, or by a refusal in a state that is full or empty; in all other cases the
   thread is still inside its call. Nothing but such an ending changes what was accepted or handed out.
   */
  lemma AnswersAreTrue(s: State, a: Action)
    requires Reachable(s)
    ensures var r := Step(s, a);
            && (!s.prod.PIdle? && r.prod.PIdle? ==>
                  || (r.prod.ret == 0 && r.enqueued == s.enqueued + [s.prod.item])
                  || (r.prod.ret == -1 && r.enqueued == s.enqueued && TailCount(s) - HeadCount(s) == s.capacity - 1))
            && (!s.cons.CIdle? && r.cons.CIdle? ==>
                  || (r.cons.ret == 0 && |s.dequeued| < |s.enqueued| && r.conn == s.enqueued[|s.dequeued|] &&
                      r.dequeued == s.dequeued + [r.conn])
                  || (r.cons.ret == -1 && r.dequeued == s.dequeued && TailCount(s) == HeadCount(s)))
            && (r.enqueued != s.enqueued ==> !s.prod.PIdle? && r.prod == PIdle(0))
            && (r.dequeued != s.dequeued ==> !s.cons.CIdle? && r.cons == CIdle(0))
  {
    ReachableInv(s);
    SizeIsOccupancy(s);
    hide Reachable, Contents;
  }

  /** A thread inside a call keeps the item it was called with. */
  lemma CallKeepsItem(s: State, a: Action)
    requires Shaped(s) && !s.prod.PIdle? && !Step(s, a).prod.PIdle?
    ensures Step(s, a).prod.item == s.prod.item
  {
  }

  /** A call begins with its item unless the descriptor is negative, which alone is refused at once. */
  lemma CallsBegin(s: State, fd: int, data: int)
    requires Shaped(s)
    ensures s.prod.PIdle? ==>
              (if fd < 0 then Step(s, CallEnqueue(fd, data)) == s.(prod := PIdle(-1))
               else Step(s, CallEnqueue(fd, data)) == s.(prod := PLoadTail(Item(fd, data))))
    ensures s.cons.CIdle? ==> Step(s, CallDequeue) == s.(cons := CLoadHead)
  {
  }

  /** The queue is made exactly for capacities from 1 to 4096, with every slot free. */
  lemma InitAccepts(capacity: nat)
    ensures Init(capacity).Some? <==> 1 <= capacity <= 4096
    ensures Init(capacity).Some? ==>
              var s := Init(capacity).value;
              && s.capacity == capacity && s.head == s.tail == 0 && s.enqueued == s.dequeued == []
              && s.prod.PIdle? && s.cons.CIdle? && forall j :: 0 <= j < capacity ==> s.slots[j] == Slot(-1, 0, 0)
  {
  }

  function Repeat(s: State, a: Action, n: nat): (r: State)
    requires Shaped(s)
    ensures Shaped(r)
    decreases n
  {
    if n == 0 then s else Repeat(Step(s, a), a, n - 1)
  }

  /** Undisturbed, a consumer that has read its record returns it. */
  lemma SoloClear(s: State)
    requires Shaped(s) && s.cons.CClearState?
    ensures var r := Repeat(s, ConsumerStep(false), 3);
            && r.cons == CIdle(0) && r.conn == s.conn && r.prod == s.prod
            && r.dequeued == s.dequeued + [s.conn] && r.enqueued == s.enqueued
            && r.slots == s.slots[s.cons.head := Slot(-1, 0, 0)]
  {
    var a := ConsumerStep(false);
    assert Repeat(s, a, 3) == Repeat(Step(s, a), a, 2);
    assert Repeat(Step(s, a), a, 2) == Step(Step(Step(s, a), a), a);
  }

  /** Undisturbed, a consumer past its tail load takes the slot and reads the item in it. */
  lemma SoloTake(s: State)
    requires Shaped(s) && s.cons == CLoadState(s.head) && s.slots[s.head].state == 1
    ensures var r := Repeat(s, ConsumerStep(false), 4);
            && r.cons == CClearState(s.head) && r.conn == Item(s.slots[s.head].fd, s.slots[s.head].data)
            && r.dequeued == s.dequeued && r.enqueued == s.enqueued && r.prod == s.prod && r.slots == s.slots
  {
    var a := ConsumerStep(false);
    var t := Step(Step(s, a), a);
    assert t.cons == CReadFd(s.head);
    assert Repeat(s, a, 4) == Repeat(t, a, 2) == Step(Step(t, a), a);
  }

  lemma {:induction false} RepeatAdd(s: State, a: Action, m: nat, n: nat)
    requires Shaped(s)
    ensures Repeat(s, a, m + n) == Repeat(Repeat(s, a, m), a, n)
    decreases m
  {
    if m > 0 { RepeatAdd(Step(s, a), a, m - 1, n); }
  }

  /** A dequeue that runs undisturbed on a non-empty idle queue returns the oldest item. */
  lemma SoloDequeue(s: State)
    requires Reachable(s) && s.prod.PIdle? && s.cons.CIdle? && |s.dequeued| < |s.enqueued|
    ensures var r := Repeat(Step(s, CallDequeue), ConsumerStep(false), 9);
            && r.cons == CIdle(0) && r.conn == s.enqueued[|s.dequeued|] && r.prod == s.prod
            && r.dequeued == s.dequeued + [r.conn] && r.enqueued == s.enqueued
            && r.slots == s.slots[s.head := Slot(-1, 0, 0)]
  {
    ReachableInv(s);
    SizeIsOccupancy(s);
    var a, s1 := ConsumerStep(false), Step(s, CallDequeue);
    assert At(s, |s.dequeued|).state == 1;
    var s3 := Repeat(s1, a, 2);
    assert s3 == s.(cons := CLoadState(s.head));
    SoloTake(s3);
    SoloClear(Repeat(s3, a, 4));
    RepeatAdd(s1, a, 2, 7);
    RepeatAdd(s3, a, 4, 3);
  }

  /** An enqueue that runs undisturbed on an idle queue with room accepts its item. */
  lemma SoloEnqueue(s: State, fd: nat, data: int)
    requires Reachable(s) && s.prod.PIdle? && s.cons.CIdle? && |s.enqueued| - |s.dequeued| < s.capacity - 1
    ensures var r := Repeat(Step(s, CallEnqueue(fd, data)), ProducerStep(false), 6);
            && r.prod == PIdle(0) && r.cons == s.cons
            && r.enqueued == s.enqueued + [Item(fd, data)] && r.dequeued == s.dequeued
  {
    ReachableInv(s);
    SizeIsOccupancy(s);
    var a := ProducerStep(false);
    var s3 := Step(Step(Step(s, CallEnqueue(fd, data)), a), a);
    assert s3 == s.(prod := PCas(Item(fd, data), s.tail));
    var s5 := Step(Step(s3, a), a);
    assert s5.prod == PWriteData(Item(fd, data), s.tail);
    assert Repeat(s5, a, 2) == Step(Step(s5, a), a);
    assert Repeat(s3, a, 4) == Repeat(s5, a, 2);
  }

  /** Three steps of a producer whose swap fails spuriously lead back to where it started. */
  lemma FailedRound(s: State)
    requires Shaped(s) && s.prod.PLoadTail? && !IsFull(s)
    ensures Repeat(s, ProducerStep(true), 3) == s
  {
    var a := ProducerStep(true);
    var t := Step(Step(s, a), a);
    assert t == s.(prod := PCas(s.prod.item, s.tail));
    assert Repeat(s, a, 3) == Repeat(t, a, 1) == Step(t, a);
  }

  lemma {:induction false} FailedRounds(s: State, k: nat)
    requires Shaped(s) && s.prod.PLoadTail? && !IsFull(s)
    ensures Repeat(s, ProducerStep(true), 3 * k) == s
    decreases k
  {
    if k > 0 {
      FailedRound(s);
      RepeatAdd(s, ProducerStep(true), 3, 3 * (k - 1));
      hide Repeat;
      FailedRounds(s, k - 1);
    }
  }

  /** With room, an enqueue is accepted after any number of spurious failures. */
  lemma EnqueueRetries(s: State, fd: nat, data: int, k: nat)
    requires Reachable(s) && s.prod.PIdle? && s.cons.CIdle? && |s.enqueued| - |s.dequeued| < s.capacity - 1
    ensures var r := Repeat(Repeat(Step(s, CallEnqueue(fd, data)), ProducerStep(true), 3 * k), ProducerStep(false), 6);
            && r.prod == PIdle(0) && r.cons == s.cons
            && r.enqueued == s.enqueued + [Item(fd, data)] && r.dequeued == s.dequeued
  {
    IdleQueries(s);
    SoloEnqueue(s, fd, data);
    hide Reachable, Repeat;
    FailedRounds(Step(s, CallEnqueue(fd, data)), k);
  }

  lemma FailedTake(s: State)
    requires Shaped(s) && s.cons.CLoadHead? && !IsEmpty(s) && s.slots[s.head].state == 1
    ensures Repeat(s, ConsumerStep(true), 4) == s
  {
    var a := ConsumerStep(true);
    var t := Step(Step(s, a), a);
    assert t == s.(cons := CLoadState(s.head));
    assert Repeat(s, a, 4) == Repeat(t, a, 2) == Step(Step(t, a), a);
  }

  lemma {:induction false} FailedTakes(s: State, k: nat)
    requires Shaped(s) && s.cons.CLoadHead? && !IsEmpty(s) && s.slots[s.head].state == 1
    ensures Repeat(s, ConsumerStep(true), 4 * k) == s
    decreases k
  {
    if k > 0 {
      FailedTake(s);
      RepeatAdd(s, ConsumerStep(true), 4, 4 * (k - 1));
      hide Repeat;
      FailedTakes(s, k - 1);
    }
  }

  /** With an item there, a dequeue hands out the oldest after any number of spurious failures. */
  lemma DequeueRetries(s: State, k: nat)
    requires Reachable(s) && s.prod.PIdle? && s.cons.CIdle? && |s.dequeued| < |s.enqueued|
    ensures var r := Repeat(Repeat(Step(s, CallDequeue), ConsumerStep(true), 4 * k), ConsumerStep(false), 9);
            && r.cons == CIdle(0) && r.conn == s.enqueued[|s.dequeued|] && r.prod == s.prod
            && r.dequeued == s.dequeued + [r.conn] && r.enqueued == s.enqueued
  {
    IdleQueries(s);
    SoloDequeue(s);
    ReachableInv(s);
    assert At(s, |s.dequeued|).state == 1;
    hide Reachable, Repeat, Inv;
    FailedTakes(Step(s, CallDequeue), k);
  }

  /** While the item at the head is still being written, a dequeue waits: it comes back to its start. */
  lemma DequeueWaits(s: State)
    requires Shaped(s) && s.cons.CLoadHead? && !IsEmpty(s) && s.slots[s.head].state != 1
    ensures Repeat(s, ConsumerStep(false), 3) == s
  {
    var a := ConsumerStep(false);
    var t := Step(Step(s, a), a);
    assert t == s.(cons := CLoadState(s.head));
    assert Repeat(s, a, 3) == Repeat(t, a, 1) == Step(t, a);
  }
}
