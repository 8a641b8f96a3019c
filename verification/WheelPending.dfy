/**
 What one wheel makes of its pending adds, and what its slots say: when adding or removing a
 key reaches an add that is still in the channel, and how many ticks an element has left.
 */
module WheelPending {
  import opened Modular
  import opened TimeWheel

  // ----- Taking up every pending add -----

  /** The wheel itself takes a task of this delay; longer ones it hands on. */
  predicate Fits(w: Wheel, delay: nat) {
    w.interval > 0 && delay / w.interval < |w.slots|
  }

  /** What a receipt does to the wheel: it places the task at the head of the channel, or hands it on. */
  function TakeUp(w: Wheel): Wheel
    requires Shaped(w) && w.chan != []
  {
    if Overflows(w) then Pop(w) else Place(w)
  }

  /** The wheel after its goroutine has taken up everything in the channel. */
  function Drain(w: Wheel): (r: Wheel)
    requires Shaped(w)
    decreases |w.chan|
  {
    if w.chan == [] then w else Drain(TakeUp(w))
  }

  ghost predicate LiveUnder(w: Wheel, key: string, id: nat) {
    Live(w, id) && w.placed[id].key == key
  }

  /** A task of this key and identity is pending, and is for this wheel. */
  ghost predicate WaitsUnder(w: Wheel, key: string, id: nat) {
    exists i :: 0 <= i < |w.chan| && w.chan[i].id == id && w.chan[i].key == key && Fits(w, w.chan[i].delay)
  }

  ghost predicate AnyWaits(w: Wheel, key: string) {
    exists i :: 0 <= i < |w.chan| && w.chan[i].key == key && Fits(w, w.chan[i].delay)
  }

  ghost predicate IsHead(w: Wheel, key: string, id: nat)
    requires w.chan != []
  {
    id == w.chan[0].id && key == w.chan[0].key && Fits(w, w.chan[0].delay)
  }

  /** A receipt makes the head of the channel live, if it is for this wheel, and touches no other task. */
  lemma TakeUpOutline(w: Wheel)
    requires Inv(w) && w.chan != []
    ensures var r := TakeUp(w);
            && Inv(r) && r.chan == w.chan[1..] && r.interval == w.interval && |r.slots| == |w.slots|
            && forall key, id :: LiveUnder(r, key, id) <==> LiveUnder(w, key, id) || IsHead(w, key, id)
  {
    if Overflows(w) {
      PopKeepsInv(w);
      hide Inv;
    } else {
      PlaceKeepsInv(w);
      PlaceEffect(w);
      var e := w.chan[0];
      assert e.id !in w.placed && e.id !in w.fired && e.id !in w.cancelled;
      assert Place(w).placed.Keys == w.placed.Keys + {e.id};
      hide Inv, Place;
    }
  }

  lemma WaitsTail(w: Wheel, r: Wheel, key: string, id: nat)
    requires w.chan != [] && r.chan == w.chan[1..] && r.interval == w.interval && |r.slots| == |w.slots|
    ensures WaitsUnder(w, key, id) <==> WaitsUnder(r, key, id) || IsHead(w, key, id)
  {
    if WaitsUnder(w, key, id) {
      var i :| 0 <= i < |w.chan| && w.chan[i].id == id && w.chan[i].key == key && Fits(w, w.chan[i].delay);
      assert i > 0 ==> w.chan[i] == r.chan[i - 1];
    }
    if WaitsUnder(r, key, id) {
      var i :| 0 <= i < |r.chan| && r.chan[i].id == id && r.chan[i].key == key && Fits(r, r.chan[i].delay);
      assert w.chan[i + 1] == r.chan[i];
    }
  }

  /** Draining makes live exactly the pending tasks that are for this wheel, and keeps the live ones. */
  lemma {:induction false} DrainLive(w: Wheel)
    requires Inv(w)
    ensures Inv(Drain(w)) && Drain(w).chan == []
    ensures forall key, id :: LiveUnder(Drain(w), key, id) <==> LiveUnder(w, key, id) || WaitsUnder(w, key, id)
    decreases |w.chan|
  {
    if w.chan != [] {
      assert Shaped(w);
      hide Inv, TakeUp, LiveUnder, WaitsUnder, IsHead;
      TakeUpOutline(w);
      var r := TakeUp(w);
      DrainLive(r);
      forall key, id ensures WaitsUnder(w, key, id) <==> WaitsUnder(r, key, id) || IsHead(w, key, id) {
        WaitsTail(w, r, key, id);
      }
    }
  }

  /** The index names every live task, and the adds pending for this wheel have keys of their own. */
  ghost predicate Clean(w: Wheel) {
    && Complete(w)
    && (forall i :: 0 <= i < |w.chan| && Fits(w, w.chan[i].delay) ==> w.chan[i].key !in w.index)
    && (forall i, j :: 0 <= i < j < |w.chan| && Fits(w, w.chan[i].delay) && Fits(w, w.chan[j].delay) ==>
          w.chan[i].key != w.chan[j].key)
  }

  lemma ExactIsClean(w: Wheel)
    requires Exact(w)
    ensures Clean(w)
  {
  }

  lemma TakeUpKeepsClean(w: Wheel)
    requires Inv(w) && Clean(w) && w.chan != []
    ensures Clean(TakeUp(w))
  {
    var r, e := TakeUp(w), w.chan[0];
    hide Slots, History, Index;
    forall id | Live(r, id) ensures r.placed[id].key in r.index && r.index[r.placed[id].key] == id {
      if Overflows(w) || id != e.id { assert Live(w, id); }
    }
    hide Complete;
  }

  lemma {:induction false} DrainClean(w: Wheel)
    requires Inv(w) && Clean(w)
    ensures Clean(Drain(w))
    decreases |w.chan|
  {
    if w.chan != [] {
      assert Shaped(w);
      hide Inv, Clean, TakeUp;
      TakeUpOutline(w);
      TakeUpKeepsClean(w);
      DrainClean(TakeUp(w));
    }
  }

  lemma UnlinkComplete(w: Wheel, key: string)
    requires Inv(w) && Complete(w)
    ensures var u := Unlink(w, key);
            && Inv(u) && Complete(u) && key !in u.index && u.index.Keys <= w.index.Keys
            && u.chan == w.chan && u.interval == w.interval && |u.slots| == |w.slots| && u.nextId == w.nextId
  {
    assert Index(w);
    UnlinkKeepsInv(w, key);
    hide Inv, Mark;
    var u := Unlink(w, key);
    forall id | Live(u, id) ensures u.placed[id].key in u.index && u.index[u.placed[id].key] == id {
      assert Live(w, id);
    }
    hide Complete;
  }

  lemma ChannelComplete(u: Wheel, r: Wheel)
    requires Complete(u) && r == u.(chan := r.chan, nextId := r.nextId)
    ensures Complete(r)
  {
    assert forall id :: Live(r, id) ==> Live(u, id);
  }

  lemma EnqueueOutline(w: Wheel, key: string, delay: nat)
    requires Inv(w) && Complete(w)
    ensures var r := Enqueue(w, key, delay);
            && Inv(r) && Shaped(r) && Complete(r) && key !in r.index && r.index.Keys <= w.index.Keys
            && r.chan == w.chan + [Elem(w.nextId, key, delay, 0, false, 0)]
            && r.interval == w.interval && |r.slots| == |w.slots|
  {
    hide Inv, Unlink, Complete;
    EnqueueKeepsInv(w, key, delay);
    UnlinkComplete(w, key);
    ChannelComplete(Unlink(w, key), Enqueue(w, key, delay));
    InvShaped(Enqueue(w, key, delay));
  }

  lemma InvShaped(w: Wheel)
    requires Inv(w)
    ensures Shaped(w)
  {
  }

  /**
   Adding a key again: once the channel is taken up the index still names every live task if and only if
   not both the new task and an earlier pending one of the key are for this wheel. If both are, two tasks
   of the key are live. Tasks handed on meet the same question on the next wheel.
   */
  lemma PendingReAdd(w: Wheel, key: string, delay: nat)
    requires Inv(w) && Clean(w)
    ensures var q := Enqueue(w, key, delay);
            && Shaped(q)
            && (Complete(Drain(q)) <==> !(Fits(w, delay) && AnyWaits(w, key)))
            && (Fits(w, delay) && AnyWaits(w, key) ==>
                  exists a, b :: a != b && LiveUnder(Drain(q), key, a) && LiveUnder(Drain(q), key, b))
  {
    hide Inv, Enqueue, Drain;
    var q := Enqueue(w, key, delay);
    EnqueueOutline(w, key, delay);
    DrainLive(q);
    if Fits(w, delay) && AnyWaits(w, key) {
      var i :| 0 <= i < |w.chan| && w.chan[i].key == key && Fits(w, w.chan[i].delay);
      var a, b := w.chan[i].id, w.nextId;
      PendingOlder(w, i);
      assert q.chan[i] == w.chan[i] && q.chan[|w.chan|].id == b;
      assert WaitsUnder(q, key, a) && WaitsUnder(q, key, b);
    } else {
      ReAddClean(w, q, key, delay);
      DrainClean(q);
    }
  }

  lemma PendingOlder(w: Wheel, i: nat)
    requires Inv(w) && i < |w.chan|
    ensures w.chan[i].id < w.nextId
  {
  }

  lemma ReAddClean(w: Wheel, q: Wheel, key: string, delay: nat)
    requires Clean(w) && Complete(q) && key !in q.index && q.index.Keys <= w.index.Keys
    requires q.chan == w.chan + [Elem(w.nextId, key, delay, 0, false, 0)]
    requires q.interval == w.interval && |q.slots| == |w.slots| && !(Fits(w, delay) && AnyWaits(w, key))
    ensures Clean(q)
  {
    hide Complete;
    forall i | 0 <= i < |q.chan| && Fits(q, q.chan[i].delay) ensures q.chan[i].key !in q.index {
      if i < |w.chan| { assert q.chan[i] == w.chan[i]; }
    }
  }

  /** Once the channel is taken up, a removal leaves no task of the key if and only if none was pending for here. */
  lemma RemovePending(w: Wheel, key: string)
    requires Inv(w) && Complete(w)
    ensures var u := Unlink(w, key);
            Shaped(u) && ((exists id :: LiveUnder(Drain(u), key, id)) <==> AnyWaits(w, key))
  {
    hide Inv, Unlink, Drain;
    var u := Unlink(w, key);
    UnlinkComplete(w, key);
    InvShaped(u);
    DrainLive(u);
    if AnyWaits(w, key) {
      var i :| 0 <= i < |w.chan| && w.chan[i].key == key && Fits(w, w.chan[i].delay);
      assert WaitsUnder(u, key, w.chan[i].id);
    }
  }

  // ----- What the slots say -----

  /** An element of this identity and key sits in some slot and is not flagged. */
  ghost predicate InSlot(w: Wheel, key: string, id: nat) {
    exists s, i :: 0 <= s < |w.slots| && 0 <= i < |w.slots[s]| &&
                   w.slots[s][i].id == id && w.slots[s][i].key == key && !w.slots[s][i].removed
  }

  lemma InSlotIsLive(w: Wheel, key: string, id: nat)
    requires Inv(w)
    ensures InSlot(w, key, id) <==> LiveUnder(w, key, id)
  {
    if InSlot(w, key, id) {
      var s, i :| 0 <= s < |w.slots| && 0 <= i < |w.slots[s]| &&
                  w.slots[s][i].id == id && w.slots[s][i].key == key && !w.slots[s][i].removed;
      assert Seated(w, s, w.slots[s][i]);
    }
    if LiveUnder(w, key, id) {
      var s := DueTick(w.placed[id], w.interval) % |w.slots|;
      assert w.placed[id] in w.slots[s];
      var i :| 0 <= i < |w.slots[s]| && w.slots[s][i] == w.placed[id];
      assert Seated(w, s, w.slots[s][i]);
    }
  }

  /** The index is exactly the elements in the slots that are not flagged. */
  ghost predicate IndexIsSlots(w: Wheel) {
    forall key, id :: (key in w.index && w.index[key] == id) <==> InSlot(w, key, id)
  }

  lemma ExactIsSlots(w: Wheel)
    requires Inv(w) && Complete(w)
    ensures IndexIsSlots(w)
  {
    assert Index(w);
    forall key, id ensures (key in w.index && w.index[key] == id) <==> InSlot(w, key, id) {
      InSlotIsLive(w, key, id);
      hide Inv;
    }
  }

  function TickMany(w: Wheel, m: nat): (r: Wheel)
    requires Shaped(w)
    ensures Shaped(r)
  {
    if m == 0 then w else Tick(TickMany(w, m - 1))
  }

  lemma {:induction false} TickManyOutline(w: Wheel, m: nat)
    requires Inv(w)
    ensures var r := TickMany(w, m);
            && Inv(r) && r.ticks == w.ticks + m && r.placed == w.placed && r.cancelled == w.cancelled
            && r.interval == w.interval
  {
    if m > 0 {
      TickManyOutline(w, m - 1);
      TickKeepsInv(TickMany(w, m - 1));
      hide Inv;
    }
  }

  lemma SlotDistance(w: Wheel, s: nat, i: nat)
    requires Inv(w) && s < |w.slots| && i < |w.slots[s]|
    ensures var e := w.slots[s][i];
            e.circle == 0 && DueTick(e, w.interval) - w.ticks == (s - w.pos) % |w.slots|
  {
    var e, n := w.slots[s][i], |w.slots|;
    assert Seated(w, s, e);
    var due := DueTick(e, w.interval);
    RingDistance(w.ticks, due, n);
    if s >= w.pos {
      DivModUnique(s - w.pos, n, 0, due - w.ticks);
    } else {
      DivModUnique(s - w.pos, n, -1, due - w.ticks);
    }
  }

  /** An element in slot s has run from tick (s - pos) mod n + 1 from now on, and not before; a flagged one never. */
  lemma RunsAfter(w: Wheel, s: nat, i: nat, m: nat)
    requires Inv(w) && s < |w.slots| && i < |w.slots[s]|
    ensures w.slots[s][i].id in TickMany(w, m).fired <==> !w.slots[s][i].removed && m >= (s - w.pos) % |w.slots| + 1
  {
    var e, r := w.slots[s][i], TickMany(w, m);
    SlotDistance(w, s, i);
    TickManyOutline(w, m);
    assert Seated(w, s, e);
    assert Record(r);
    hide TickMany, Slots, Held, Fresh, Index;
    assert r.placed[e.id] == e.(removed := false);
    assert DueTick(r.placed[e.id], r.interval) == DueTick(e, w.interval);
  }
}
