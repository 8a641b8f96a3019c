/**
 One wheel of the hierarchical time wheel. The wheel's own state is what the program
 keeps; `ticks`, `placed`, `fired`, `cancelled` and `ran`, the identities of the tasks run so
 far in the order they ran, are history that no operation reads.
 */
module TimeWheel {
  import opened Modular
  import opened Wrappers

  /** A task element; `id` is its identity, `born` the number of ticks seen when it was placed. */
  datatype Elem = Elem(id: nat, key: string, delay: nat, circle: nat, removed: bool, born: nat)

  datatype Wheel = Wheel(
    interval: nat, slots: seq<seq<Elem>>, pos: nat, chan: seq<Elem>, index: map<string, nat>, nextId: nat,
    ticks: nat, placed: map<nat, Elem>, fired: map<nat, nat>, cancelled: set<nat>, ran: seq<nat>)

  /** `NewTimeWheel`; the program returns nil for sizes that are not positive. */
  function New(interval: int, slotNum: int): (r: Option<Wheel>) {
    if interval <= 0 || slotNum <= 0 then None
    else Some(Wheel(interval, seq(slotNum, _ => []), 0, [], map[], 0, 0, map[], map[], {}, []))
  }

  predicate Shaped(w: Wheel) {
    w.interval > 0 && |w.slots| > 0 && w.pos < |w.slots|
  }

  function MarkList(list: seq<Elem>, id: nat): (r: seq<Elem>)
    ensures |r| == |list|
  {
    seq(|list|, i requires 0 <= i < |list| => if list[i].id == id then list[i].(removed := true) else list[i])
  }

  /** Sets the removed flag of one element, wherever it sits. */
  function Mark(slots: seq<seq<Elem>>, id: nat): (r: seq<seq<Elem>>)
    ensures |r| == |slots|
  {
    seq(|slots|, s requires 0 <= s < |slots| => MarkList(slots[s], id))
  }

  /** Flags the task known under `key`, if there is one, and forgets it. */
  function Unlink(w: Wheel, key: string): Wheel {
    if key in w.index
    then w.(slots := Mark(w.slots, w.index[key]), index := w.index - {key}, cancelled := w.cancelled + {w.index[key]})
    else w
  }

  /** `AddTask`: replace a task of the same key, then hand the new one to the wheel's goroutine. */
  function Enqueue(w: Wheel, key: string, delay: nat): Wheel {
    var u := Unlink(w, key);
    u.(chan := w.chan + [Elem(w.nextId, key, delay, 0, false, 0)], nextId := w.nextId + 1)
  }

  /** The task at the head of the channel is too long for this wheel. */
  predicate Overflows(w: Wheel)
    requires Shaped(w) && w.chan != []
  {
    w.chan[0].delay / w.interval >= |w.slots|
  }

  function Pop(w: Wheel): Wheel
    requires w.chan != []
  {
    w.(chan := w.chan[1..])
  }

  /** The slot `d` places on. */
  function SlotAfter(pos: nat, d: nat, n: nat): (s: nat)
    requires n > 0
    ensures s < n
  {
    (pos + d) % n
  }

  /** `addTask` for a task that fits: into the slot `delay / interval` ahead. */
  function Place(w: Wheel): (r: Wheel)
    requires Shaped(w) && w.chan != []
  {
    var d := w.chan[0].delay / w.interval;
    var s := SlotAfter(w.pos, d, |w.slots|);
    var e := w.chan[0].(circle := d / |w.slots|, born := w.ticks);
    Pop(w).(slots := w.slots[s := w.slots[s] + [e]], index := w.index[e.key := e.id], placed := w.placed[e.id := e])
  }

  /** What a tick leaves in its slot: tasks of later rounds, one round closer. */
  function Waiting(list: seq<Elem>): (r: seq<Elem>) {
    if list == [] then []
    else
      var e, rest := list[0], Waiting(list[1..]);
      if !e.removed && e.circle > 0 then [e.(circle := e.circle - 1)] + rest else rest
  }

  /** What a tick runs. */
  function Due(list: seq<Elem>): (r: seq<Elem>) {
    if list == [] then []
    else
      var e, rest := list[0], Due(list[1..]);
      if !e.removed && e.circle == 0 then [e] + rest else rest
  }

  function Keys(list: seq<Elem>): set<string> {
    set e | e in list :: e.key
  }

  function Ids(list: seq<Elem>): set<nat> {
    set e | e in list :: e.id
  }

  /** The identities in a list, in its order. */
  function IdList(list: seq<Elem>): (r: seq<nat>)
    ensures |r| == |list|
  {
    seq(|list|, i requires 0 <= i < |list| => list[i].id)
  }

  /** How often an identity occurs. */
  function Times(ids: seq<nat>, id: nat): nat {
    if ids == [] then 0 else (if ids[0] == id then 1 else 0) + Times(ids[1..], id)
  }

  /** `tickHandler`. */
  function Tick(w: Wheel): (r: Wheel)
    requires Shaped(w)
  {
    var list := w.slots[w.pos];
    w.(slots := w.slots[w.pos := Waiting(list)], pos := (w.pos + 1) % |w.slots|, index := w.index - Keys(Due(list)),
       ticks := w.ticks + 1, fired := w.fired + map id | id in Ids(Due(list)) :: w.ticks,
       ran := w.ran + IdList(Due(list)))
  }

  // ----- The invariant -----

  /** The tick, counted from 0, on which a placed element runs. */
  function DueTick(e: Elem, interval: nat): nat
    requires interval > 0
  {
    e.born + e.delay / interval
  }

  /** An element on the wheel sits in the slot its tick will reach next, with no rounds to wait. */
  ghost predicate Seated(w: Wheel, s: int, e: Elem)
    requires Shaped(w)
  {
    && e.circle == 0
    && w.ticks <= DueTick(e, w.interval) < w.ticks + |w.slots|
    && s == DueTick(e, w.interval) % |w.slots|
    && e.id in w.placed && e.(removed := false) == w.placed[e.id]
    && e.id !in w.fired && (e.removed <==> e.id in w.cancelled)
  }

  /** All elements are seated, and no two share an identity. */
  ghost predicate Slots(w: Wheel)
    requires Shaped(w)
  {
    && w.pos == w.ticks % |w.slots|
    && (forall s, i :: 0 <= s < |w.slots| && 0 <= i < |w.slots[s]| ==> Seated(w, s, w.slots[s][i]))
    && (forall s, i, j :: 0 <= s < |w.slots| && 0 <= i < j < |w.slots[s]| ==> w.slots[s][i].id != w.slots[s][j].id)
  }

  /** A placed task that was not cancelled has run, on its due tick, exactly when that tick is past. */
  ghost predicate Record(w: Wheel)
    requires Shaped(w)
  {
    && (forall id :: id in w.placed ==> w.placed[id].id == id && w.placed[id].delay / w.interval < |w.slots|)
    && (forall id :: id in w.fired ==>
          id in w.placed && id !in w.cancelled && w.fired[id] == DueTick(w.placed[id], w.interval) < w.ticks)
    && (forall id :: id in w.placed && id !in w.cancelled && DueTick(w.placed[id], w.interval) < w.ticks ==>
          id in w.fired)
    && (forall id :: id in w.cancelled ==> id in w.placed)
  }

  /** Until then it is in its slot. */
  ghost predicate Held(w: Wheel)
    requires Shaped(w)
  {
    forall id :: id in w.placed && id !in w.cancelled && DueTick(w.placed[id], w.interval) >= w.ticks ==>
      w.placed[id] in w.slots[DueTick(w.placed[id], w.interval) % |w.slots|]
  }

  ghost predicate History(w: Wheel)
    requires Shaped(w)
  {
    Record(w) && Held(w)
  }

  /** Identities are handed out once: pending elements are new and distinct. */
  ghost predicate Fresh(w: Wheel) {
    && (forall id :: id in w.placed ==> id < w.nextId)
    && (forall i :: 0 <= i < |w.chan| ==> w.chan[i].id < w.nextId && w.chan[i].id !in w.placed && !w.chan[i].removed)
    && (forall i, j :: 0 <= i < j < |w.chan| ==> w.chan[i].id != w.chan[j].id)
  }

  /** Every task in the record ran once, and no other ran. */
  ghost predicate Once(w: Wheel) {
    forall id :: Times(w.ran, id) == if id in w.fired then 1 else 0
  }

  /** Placed, and neither run nor cancelled. */
  ghost predicate Live(w: Wheel, id: nat) {
    id in w.placed && id !in w.cancelled && id !in w.fired
  }

  /** The index names only live tasks, under their own key. */
  ghost predicate Index(w: Wheel) {
    forall key :: key in w.index ==> Live(w, w.index[key]) && w.placed[w.index[key]].key == key
  }

  ghost predicate Inv(w: Wheel) {
    Shaped(w) && Slots(w) && History(w) && Fresh(w) && Index(w) && Once(w)
  }

  // ----- Every operation keeps it -----

  lemma NewInv(interval: int, slotNum: int)
    ensures var r := New(interval, slotNum);
            && (r.Some? <==> interval > 0 && slotNum > 0)
            && (r.Some? ==>
                  && Inv(r.value) && r.value.pos == 0 && r.value.interval == interval && |r.value.slots| == slotNum
                  && r.value.chan == [] && r.value.index == map[]
                  && forall s :: 0 <= s < slotNum ==> r.value.slots[s] == [])
  {
    if New(interval, slotNum).Some? {
      DivModUnique(0, slotNum, 0, 0);
    }
  }

  lemma MarkAt(slots: seq<seq<Elem>>, id: nat, s: nat, i: nat)
    requires s < |slots| && i < |slots[s]|
    ensures |Mark(slots, id)[s]| == |slots[s]|
    ensures Mark(slots, id)[s][i] == if slots[s][i].id == id then slots[s][i].(removed := true) else slots[s][i]
  {
  }

  lemma UnlinkKeepsSlots(w: Wheel, key: string)
    requires Inv(w)
    ensures Slots(Unlink(w, key))
  {
    hide History, Fresh;
    var u := Unlink(w, key);
    if key in w.index {
      var id := w.index[key];
      forall s, i | 0 <= s < |u.slots| && 0 <= i < |u.slots[s]| ensures Seated(u, s, u.slots[s][i]) {
        MarkAt(w.slots, id, s, i);
        assert Seated(w, s, w.slots[s][i]);
      }
      forall s, i, j | 0 <= s < |u.slots| && 0 <= i < j < |u.slots[s]| ensures u.slots[s][i].id != u.slots[s][j].id {
        MarkAt(w.slots, id, s, i);
        MarkAt(w.slots, id, s, j);
      }
    }
  }

  lemma UnlinkKeepsRecord(w: Wheel, key: string)
    requires Inv(w)
    ensures Record(Unlink(w, key))
  {
    hide Slots, Fresh, Held;
  }

  lemma UnlinkKeepsHeld(w: Wheel, key: string)
    requires Inv(w)
    ensures Held(Unlink(w, key))
  {
    hide Slots, Fresh;
    var u := Unlink(w, key);
    if key in w.index {
      forall id | id in u.placed && id !in u.cancelled && DueTick(u.placed[id], u.interval) >= u.ticks
        ensures u.placed[id] in u.slots[DueTick(u.placed[id], u.interval) % |u.slots|]
      {
        var s := DueTick(w.placed[id], w.interval) % |w.slots|;
        var i :| 0 <= i < |w.slots[s]| && w.slots[s][i] == w.placed[id];
        MarkAt(w.slots, w.index[key], s, i);
        assert u.slots[s][i] == u.placed[id];
      }
    }
  }

  lemma UnlinkKeepsInv(w: Wheel, key: string)
    requires Inv(w)
    ensures Inv(Unlink(w, key)) && key !in Unlink(w, key).index
  {
    UnlinkKeepsSlots(w, key);
    UnlinkKeepsRecord(w, key);
    UnlinkKeepsHeld(w, key);
    hide Slots, Record, Held, Mark;
  }

  /** The channel plays no part in what is on the wheel. */
  lemma ChannelFrame(u: Wheel, r: Wheel)
    requires Shaped(u) && Slots(u) && History(u) && Index(u)
    requires r == u.(chan := r.chan, nextId := r.nextId)
    ensures Shaped(r) && Slots(r) && History(r) && Index(r)
  {
    assert forall s, e :: Seated(u, s, e) == Seated(r, s, e);
    assert forall id :: Live(u, id) == Live(r, id);
  }

  lemma EnqueueKeepsInv(w: Wheel, key: string, delay: nat)
    requires Inv(w)
    ensures Inv(Enqueue(w, key, delay))
  {
    UnlinkKeepsInv(w, key);
    hide Slots, History, Index;
    var u, r := Unlink(w, key), Enqueue(w, key, delay);
    ChannelFrame(u, r);
    assert u.chan == w.chan && u.nextId == w.nextId;
    hide Unlink;
    AppendFresh(u, r);
  }

  lemma AppendFresh(u: Wheel, r: Wheel)
    requires Fresh(u) && |r.chan| == |u.chan| + 1 && r.nextId == u.nextId + 1
    requires r == u.(chan := r.chan, nextId := r.nextId) && r.chan[..|u.chan|] == u.chan
    requires r.chan[|u.chan|].id == u.nextId && !r.chan[|u.chan|].removed
    ensures Fresh(r)
  {
    assert forall i :: 0 <= i < |u.chan| ==> r.chan[i] == u.chan[i];
  }

  lemma PopKeepsInv(w: Wheel)
    requires Inv(w) && w.chan != []
    ensures Inv(Pop(w))
  {
    hide Slots, History, Index;
    ChannelFrame(w, Pop(w));
  }

  /** The slot chosen is the one the due tick will reach. */
  lemma SlotOfDue(w: Wheel)
    requires Shaped(w) && w.pos == w.ticks % |w.slots| && w.chan != [] && !Overflows(w)
    ensures var d := w.chan[0].delay / w.interval;
            d / |w.slots| == 0 && (w.pos + d) % |w.slots| == (w.ticks + d) % |w.slots|
  {
    var d := w.chan[0].delay / w.interval;
    DivModUnique(d, |w.slots|, 0, d);
    ModAdd(w.ticks, d, |w.slots|);
  }

  lemma PlaceKeepsSlots(w: Wheel)
    requires Inv(w) && w.chan != [] && !Overflows(w)
    ensures Slots(Place(w))
  {
    SlotOfDue(w);
    var r, d := Place(w), w.chan[0].delay / w.interval;
    var t := (w.pos + d) % |w.slots|;
    assert w.chan[0].id !in w.placed;
    assert w.chan[0].id !in w.fired && w.chan[0].id !in w.cancelled;
    forall s, i | 0 <= s < |r.slots| && 0 <= i < |r.slots[s]| ensures Seated(r, s, r.slots[s][i]) {
      if s == t && i == |w.slots[s]| {
        assert DueTick(r.slots[s][i], r.interval) == w.ticks + d;
      } else {
        assert Seated(w, s, w.slots[s][i]);
      }
    }
    forall s, i, j | 0 <= s < |r.slots| && 0 <= i < j < |r.slots[s]| ensures r.slots[s][i].id != r.slots[s][j].id {
      assert Seated(w, s, w.slots[s][i]);
    }
  }

  lemma PlaceKeepsRecord(w: Wheel)
    requires Inv(w) && w.chan != [] && !Overflows(w)
    ensures Record(Place(w))
  {
    hide Slots, Held, Index, Once;
    var r, e := Place(w), w.chan[0];
    assert e.id !in w.placed && e.id !in w.fired && e.id !in w.cancelled;
    var p := r.placed[e.id];
    assert r.placed == w.placed[e.id := p] && p.id == e.id && p.delay == e.delay && p.born == w.ticks;
    hide Place, Fresh, SlotAfter;
  }

  lemma PlaceKeepsHeld(w: Wheel)
    requires Inv(w) && w.chan != [] && !Overflows(w)
    ensures Held(Place(w))
  {
    SlotOfDue(w);
    hide Index, Fresh, Record;
    var r, e := Place(w), w.chan[0];
    forall id | id in r.placed && id !in r.cancelled && DueTick(r.placed[id], r.interval) >= r.ticks
      ensures r.placed[id] in r.slots[DueTick(r.placed[id], r.interval) % |r.slots|]
    {
      if id != e.id {
        assert w.placed[id] in w.slots[DueTick(w.placed[id], w.interval) % |w.slots|];
      }
    }
  }

  lemma PlaceKeepsInv(w: Wheel)
    requires Inv(w) && w.chan != [] && !Overflows(w)
    ensures Inv(Place(w))
  {
    PlaceKeepsSlots(w);
    PlaceKeepsRecord(w);
    PlaceKeepsHeld(w);
    hide Slots, Held;
    var e := w.chan[0];
    assert e.id !in w.placed && Live(Place(w), e.id);
    assert Fresh(Place(w)) by { hide Record; }
    hide Record, Fresh;
  }

  // ----- A tick -----

  /** An element is due now exactly when it sits under the hand. */
  lemma UnderHand(w: Wheel, s: int, e: Elem)
    requires Shaped(w) && w.pos == w.ticks % |w.slots| && Seated(w, s, e)
    ensures s == w.pos <==> DueTick(e, w.interval) == w.ticks
  {
    ModInjective(DueTick(e, w.interval), w.ticks, |w.slots|);
  }

  lemma {:induction false} NothingWaits(list: seq<Elem>)
    requires forall i :: 0 <= i < |list| ==> list[i].circle == 0
    ensures Waiting(list) == []
  {
    if list != [] { NothingWaits(list[1..]); }
  }

  lemma {:induction false} DueMembers(list: seq<Elem>, e: Elem)
    requires forall i :: 0 <= i < |list| ==> list[i].circle == 0
    ensures e in Due(list) <==> e in list && !e.removed
  {
    if list != [] { DueMembers(list[1..], e); }
  }

  /** What runs on this tick: the live tasks that are due, all of them and no others. */
  lemma DueNow(w: Wheel, id: nat)
    requires Inv(w)
    ensures Waiting(w.slots[w.pos]) == []
    ensures id in Ids(Due(w.slots[w.pos])) <==> Live(w, id) && DueTick(w.placed[id], w.interval) == w.ticks
    ensures Live(w, id) && DueTick(w.placed[id], w.interval) == w.ticks ==> w.placed[id] in Due(w.slots[w.pos])
  {
    var list := w.slots[w.pos];
    forall i | 0 <= i < |list| ensures list[i].circle == 0 {
      assert Seated(w, w.pos, list[i]);
    }
    NothingWaits(list);
    if id in Ids(Due(list)) {
      var e :| e in Due(list) && e.id == id;
      DueMembers(list, e);
      var i :| 0 <= i < |list| && list[i] == e;
      assert Seated(w, w.pos, list[i]);
      UnderHand(w, w.pos, e);
    }
    if Live(w, id) && DueTick(w.placed[id], w.interval) == w.ticks {
      assert w.placed[id] in list;
      var i :| 0 <= i < |list| && list[i] == w.placed[id];
      assert Seated(w, w.pos, list[i]);
      DueMembers(list, w.placed[id]);
      assert w.placed[id] in Due(list) && w.placed[id].id == id;
    }
  }

  lemma TickKeepsSlots(w: Wheel)
    requires Inv(w)
    ensures Shaped(Tick(w)) && Slots(Tick(w))
  {
    var r := Tick(w);
    DueNow(w, 0);
    ModStep(w.ticks, |w.slots|);
    forall s, i | 0 <= s < |r.slots| && 0 <= i < |r.slots[s]| ensures Seated(r, s, r.slots[s][i]) {
      var e := w.slots[s][i];
      assert Seated(w, s, e);
      UnderHand(w, s, e);
      DueNow(w, e.id);
    }
  }

  /** The tick adds to the run tasks exactly the live ones that are due. */
  lemma TickFires(w: Wheel)
    requires Inv(w)
    ensures forall id :: id in Tick(w).fired <==>
              id in w.fired || (Live(w, id) && DueTick(w.placed[id], w.interval) == w.ticks)
    ensures forall id :: id in Tick(w).fired ==> Tick(w).fired[id] == if id in w.fired then w.fired[id] else w.ticks
  {
    var r := Tick(w);
    forall id
      ensures id in r.fired <==> id in w.fired || (Live(w, id) && DueTick(w.placed[id], w.interval) == w.ticks)
      ensures id in r.fired ==> r.fired[id] == if id in w.fired then w.fired[id] else w.ticks
    {
      DueNow(w, id);
      hide Inv;
    }
  }

  lemma TickKeepsRecord(w: Wheel)
    requires Inv(w)
    ensures Shaped(Tick(w)) && Record(Tick(w))
  {
    TickFires(w);
    hide Slots, Held, Fresh, Index;
    var r := Tick(w);
    assert r.placed == w.placed && r.cancelled == w.cancelled && r.ticks == w.ticks + 1;
    hide Tick;
  }

  lemma TickKeepsHeld(w: Wheel)
    requires Inv(w)
    ensures Shaped(Tick(w)) && Held(Tick(w))
  {
    var r := Tick(w);
    forall id | id in r.placed && id !in r.cancelled && DueTick(r.placed[id], r.interval) >= r.ticks
      ensures r.placed[id] in r.slots[DueTick(r.placed[id], r.interval) % |r.slots|]
    {
      var s := DueTick(w.placed[id], w.interval) % |w.slots|;
      var i :| 0 <= i < |w.slots[s]| && w.slots[s][i] == w.placed[id];
      assert Seated(w, s, w.slots[s][i]);
      UnderHand(w, s, w.slots[s][i]);
    }
  }

  lemma TickKeepsInv(w: Wheel)
    requires Inv(w)
    ensures Inv(Tick(w))
  {
    TickKeepsOnce(w);
    TickKeepsSlots(w);
    TickKeepsRecord(w);
    TickKeepsHeld(w);
    var r, due := Tick(w), Due(w.slots[w.pos]);
    forall key | key in r.index ensures Live(r, r.index[key]) && r.placed[r.index[key]].key == key {
      var id := w.index[key];
      DueNow(w, id);
      assert w.placed[id] in due ==> key in Keys(due);
    }
    hide Slots, History, Once;
  }

  // ----- Every task runs once -----

  lemma {:induction false} TimesConcat(a: seq<nat>, b: seq<nat>, id: nat)
    ensures Times(a + b, id) == Times(a, id) + Times(b, id)
  {
    if a == [] {
      assert a + b == b;
    } else {
      assert (a + b)[1..] == a[1..] + b;
      TimesConcat(a[1..], b, id);
    }
  }

  ghost predicate NoRepeat(list: seq<Elem>) {
    forall i, j :: 0 <= i < j < |list| ==> list[i].id != list[j].id
  }

  /** A list without repetition has each of its identities once. */
  lemma {:induction false} TimesOnce(list: seq<Elem>, id: nat)
    requires NoRepeat(list)
    ensures Times(IdList(list), id) == if id in Ids(list) then 1 else 0
  {
    if list != [] {
      assert IdList(list)[1..] == IdList(list[1..]);
      assert forall e :: e in list <==> e == list[0] || e in list[1..];
      TimesOnce(list[1..], id);
    }
  }

  lemma {:induction false} DueNoRepeat(list: seq<Elem>)
    requires NoRepeat(list)
    ensures NoRepeat(Due(list)) && forall e :: e in Due(list) ==> e in list
  {
    if list != [] {
      DueNoRepeat(list[1..]);
      assert forall e :: e in list[1..] ==> e.id != list[0].id;
    }
  }

  /** No task runs twice on a tick. */
  lemma DueDistinct(w: Wheel)
    requires Inv(w)
    ensures NoRepeat(Due(w.slots[w.pos]))
  {
    DueNoRepeat(w.slots[w.pos]);
  }

  lemma TickKeepsOnce(w: Wheel)
    requires Inv(w)
    ensures Once(Tick(w))
  {
    var r, due := Tick(w), Due(w.slots[w.pos]);
    DueDistinct(w);
    forall id ensures Times(r.ran, id) == if id in r.fired then 1 else 0 {
      DueNow(w, id);
      TimesOnce(due, id);
      TimesConcat(w.ran, IdList(due), id);
      assert Once(w);
      hide Inv, Due, Times, IdList;
    }
  }

  // ----- The index, while no key is added again before its last add is taken up -----

  /** The index names every live task. */
  ghost predicate Complete(w: Wheel) {
    forall id :: Live(w, id) ==> w.placed[id].key in w.index && w.index[w.placed[id].key] == id
  }

  /** Pending adds have keys of their own, none of them live on the wheel. */
  ghost predicate Pending(w: Wheel) {
    && (forall i :: 0 <= i < |w.chan| ==> w.chan[i].key !in w.index)
    && (forall i, j :: 0 <= i < j < |w.chan| ==> w.chan[i].key != w.chan[j].key)
  }

  ghost predicate Exact(w: Wheel) {
    Complete(w) && Pending(w)
  }

  lemma UnlinkKeepsExact(w: Wheel, key: string)
    requires Inv(w) && Exact(w)
    ensures Exact(Unlink(w, key)) && key !in Unlink(w, key).index
  {
    hide Slots, History, Fresh;
    var u := Unlink(w, key);
    forall id | Live(u, id) ensures u.placed[id].key in u.index && u.index[u.placed[id].key] == id {
      assert Live(w, id);
    }
  }

  lemma EnqueueKeepsExact(w: Wheel, key: string, delay: nat)
    requires Inv(w) && Exact(w) && key !in Keys(w.chan)
    ensures Exact(Enqueue(w, key, delay))
  {
    UnlinkKeepsExact(w, key);
    hide Inv;
    var u, r := Unlink(w, key), Enqueue(w, key, delay);
    assert u.chan == w.chan;
    hide Unlink;
    assert forall id :: Live(r, id) ==> Live(u, id);
    assert Complete(r) by { hide Pending; }
    assert forall i :: 0 <= i < |w.chan| ==> w.chan[i].key in Keys(w.chan);
    hide Complete;
  }

  lemma PopKeepsExact(w: Wheel)
    requires Exact(w) && w.chan != []
    ensures Exact(Pop(w))
  {
    assert forall id :: Live(Pop(w), id) ==> Live(w, id);
  }

  lemma PlaceKeepsExact(w: Wheel)
    requires Inv(w) && Exact(w) && w.chan != [] && !Overflows(w)
    ensures Exact(Place(w))
  {
    hide Slots, History, Index;
    var r, e := Place(w), w.chan[0];
    forall id | Live(r, id) ensures r.placed[id].key in r.index && r.index[r.placed[id].key] == id {
      if id != e.id { assert Live(w, id); }
    }
  }

  lemma TickKeepsExact(w: Wheel)
    requires Inv(w) && Exact(w)
    ensures Exact(Tick(w))
  {
    var r, due := Tick(w), Due(w.slots[w.pos]);
    forall id | Live(r, id) ensures r.placed[id].key in r.index && r.index[r.placed[id].key] == id {
      assert Live(w, id);
      if r.placed[id].key in Keys(due) {
        var e :| e in due && e.key == w.placed[id].key;
        DueNow(w, e.id);
        DueElem(w, e);
      }
    }
  }

  lemma DueElem(w: Wheel, e: Elem)
    requires Inv(w) && e in Due(w.slots[w.pos])
    ensures Live(w, e.id) && w.placed[e.id].key == e.key && e.id in Tick(w).fired
  {
    var list := w.slots[w.pos];
    DueNow(w, e.id);
    forall i | 0 <= i < |list| ensures list[i].circle == 0 {
      assert Seated(w, w.pos, list[i]);
    }
    DueMembers(list, e);
    var i :| 0 <= i < |list| && list[i] == e;
    assert Seated(w, w.pos, list[i]);
    assert e.id in Ids(Due(list));
  }

  /** The number of index entries is the number of live tasks. */
  lemma CountLive(w: Wheel)
    requires Inv(w) && Exact(w)
    ensures |w.index| == |set id | id in w.placed && Live(w, id)|
  {
    hide Slots, History, Fresh;
    var live := set id | id in w.placed && Live(w, id);
    assert w.index.Values == live by {
      forall id | id in live ensures id in w.index.Values {
        assert w.index[w.placed[id].key] == id;
      }
    }
    InjectiveSize(w.index);
  }

  lemma {:induction false} InjectiveSize(m: map<string, nat>)
    requires forall a, b :: a in m && b in m && a != b ==> m[a] != m[b]
    ensures |m| == |m.Values|
    decreases |m|
  {
    if m != map[] {
      var k :| k in m;
      var rest := m - {k};
      assert rest.Keys == m.Keys - {k};
      InjectiveSize(rest);
      forall v | v in m.Values ensures v in rest.Values + {m[k]} {
        var a :| a in m && m[a] == v;
        assert a != k ==> a in rest && rest[a] == v;
      }
      assert m.Values == rest.Values + {m[k]};
    }
  }

  lemma PlaceEffect(w: Wheel)
    requires Shaped(w) && w.chan != []
    ensures var r, e := Place(w), w.chan[0];
            && Shaped(r) && r.interval == w.interval && |r.slots| == |w.slots| && r.chan == w.chan[1..]
            && r.index == w.index[e.key := e.id] && r.fired == w.fired && r.cancelled == w.cancelled
            && e.id in r.placed && r.placed[e.id].key == e.key
            && forall id :: id in w.placed && id != e.id ==> id in r.placed && r.placed[id] == w.placed[id]
  {
  }

  /**
   Adding a key again before its first add is taken up leaves two live tasks under one key: the
   index names only the second, so the first can be neither replaced nor removed.
   */
  lemma PendingReAddIsNotExact(w: Wheel, key: string, first: nat, second: nat)
    requires Inv(w) && w.chan == []
    requires first / w.interval < |w.slots| && second / w.interval < |w.slots|
    ensures var twice := Enqueue(Enqueue(w, key, first), key, second);
            && Place(twice).chan != [] && Shaped(Place(twice))
            && var r := Place(Place(twice));
               && !Complete(r) && w.nextId in r.placed && w.nextId + 1 in r.placed
               && Live(r, w.nextId) && r.placed[w.nextId].key == key
               && Live(r, w.nextId + 1) && r.placed[w.nextId + 1].key == key
  {
    var once := Enqueue(w, key, first);
    var twice := Enqueue(once, key, second);
    EnqueueKeepsInv(w, key, first);
    EnqueueKeepsInv(once, key, second);
    assert key !in once.index;
    assert twice.chan == [Elem(w.nextId, key, first, 0, false, 0), Elem(w.nextId + 1, key, second, 0, false, 0)];
    assert Shaped(twice) && twice.interval == w.interval && |twice.slots| == |w.slots|;
    assert forall id :: id >= w.nextId ==> id !in twice.placed && id !in twice.fired && id !in twice.cancelled;
    hide Inv, Enqueue, Place;
    PlaceEffect(twice);
    PlaceEffect(Place(twice));
    var r := Place(Place(twice));
    assert Live(r, w.nextId) && r.placed[w.nextId].key == key && r.index[key] == w.nextId + 1;
  }
}
