/** The time wheel object: its chain of wheels, and the operations callers and the wheel goroutines run. */
module TimeWheels {
  import opened TimeWheel
  import opened WheelChain

  class Wheels {
    const base: nat
    const n: nat
    var levels: seq<Wheel>

    ghost predicate Valid()
      reads this
    {
      ChainInv(View())
    }

    ghost function View(): Chain
      reads this
    {
      Chain(base, n, levels)
    }

    constructor (interval: nat, slotNum: nat)
      requires interval > 0 && slotNum >= 1
      ensures Valid() && View() == Init(interval, slotNum)
    {
      base, n := interval, slotNum;
      levels := [New(interval, slotNum).value];
      new;
      ghost var c := Init(interval, slotNum);
      NewInv(interval, slotNum);
      hide Inv;
      assert ChainInv(c);
    }

    method AddTask(delay: int, key: string)
      requires Valid()
      modifies this`levels
      ensures Valid() && View() == old(Step(View(), Action.AddTask(delay, key)))
    {
      StepKeepsInv(View(), Action.AddTask(delay, key));
      hide Inv, AtLevel;
      if delay < 0 {
        return;
      }
      levels := levels[0 := Enqueue(levels[0], key, delay)];
    }

    method RemoveTask(key: string)
      requires Valid()
      modifies this`levels
      ensures Valid() && View() == old(Step(View(), Action.RemoveTask(key)))
    {
      StepKeepsInv(View(), Action.RemoveTask(key));
      hide Inv, AtLevel;
      for l := 0 to |levels|
        invariant |levels| == |old(levels)|
        invariant forall i :: 0 <= i < l ==> levels[i] == Unlink(old(levels)[i], key)
        invariant forall i :: l <= i < |levels| ==> levels[i] == old(levels)[i]
      {
        levels := levels[l := Unlink(levels[l], key)];
      }
    }

    method HasTask(key: string) returns (found: bool)
      ensures found <==> exists l :: 0 <= l < |levels| && key in levels[l].index
    {
      for l := 0 to |levels|
        invariant forall i :: 0 <= i < l ==> key !in levels[i].index
      {
        if key in levels[l].index {
          return true;
        }
      }
      return false;
    }

    method TaskCount() returns (count: nat)
      ensures count == IndexSizes(levels)
      ensures Valid() && AllExact(View()) ==> count == |LiveFrom(levels, 0)|
    {
      count := 0;
      for l := 0 to |levels|
        invariant count + IndexSizes(levels[l..]) == IndexSizes(levels)
      {
        assert levels[l..][1..] == levels[l + 1..];
        count := count + |levels[l].index|;
      }
      assert levels[0..] == levels;
      ghost var exact := Valid() && AllExact(View());
      hide Inv, Exact, AtLevel, LiveFrom, IndexSizes;
      if exact {
        SizesAreLive(levels, 0);
      }
    }

    /** The goroutine of level `l` takes one task from its channel. */
    method Receive(l: nat)
      requires Valid() && l < |levels| && levels[l].chan != []
      modifies this`levels
      ensures Valid() && View() == old(Step(View(), Action.Receive(l)))
    {
      assert Shaped(levels[l]);
      StepKeepsInv(View(), Action.Receive(l));
      hide Inv, AtLevel, Enqueue, Place;
      var w := levels[l];
      var task := w.chan[0];
      var delaySlots := task.delay / w.interval;
      if delaySlots >= |w.slots| {
        ghost var next := NextWheel(View(), l);
        var target: Wheel;
        if l + 1 < |levels| {
          target := levels[l + 1];
        } else {
          target := New(w.interval * |w.slots|, |w.slots|).value;
        }
        assert target == next;
        levels := Put(levels[l := Pop(w)], l + 1, Enqueue(target, task.key, task.delay));
      } else {
        levels := levels[l := Place(w)];
      }
    }

    /** The goroutine of level `l` handles a tick: it runs through the slot under the hand. */
    method TickHandler(l: nat) returns (run: seq<Elem>)
      requires Valid() && l < |levels|
      modifies this`levels
      ensures Valid() && View() == old(Step(View(), TickAt(l)))
      ensures run == old(Due(levels[l].slots[levels[l].pos])) && NoRepeat(run)
    {
      hide Inv, AtLevel, Ids, IdList, NoRepeat, Due, Waiting;
      LevelInv(View(), l);
      DueDistinct(levels[l]);
      StepKeepsInv(View(), TickAt(l));
      var w := levels[l];
      var list := w.slots[w.pos];
      var kept: seq<Elem>;
      var index: map<string, nat>;
      run, kept, index := RunSlot(list, w.index);
      levels := levels[l := w.(slots := w.slots[w.pos := kept], pos := (w.pos + 1) % |w.slots|, index := index,
                               ticks := w.ticks + 1, fired := w.fired + map id | id in Ids(run) :: w.ticks,
                               ran := w.ran + IdList(run))];
    }
  }

  function IndexSizes(levels: seq<Wheel>): nat {
    if levels == [] then 0 else |levels[0].index| + IndexSizes(levels[1..])
  }

  /** The live tasks of all levels from `a` on, each with its level. */
  ghost function LiveFrom(levels: seq<Wheel>, a: nat): set<(nat, nat)> {
    set l: nat, id | a <= l < |levels| && id in levels[l].placed && Live(levels[l], id) :: (l, id)
  }

  /** Exact indices together have one entry for every live task of the chain. */
  lemma {:induction false} SizesAreLive(levels: seq<Wheel>, a: nat)
    requires a <= |levels| && forall l :: a <= l < |levels| ==> Inv(levels[l]) && Exact(levels[l])
    ensures IndexSizes(levels[a..]) == |LiveFrom(levels, a)|
    decreases |levels| - a
  {
    hide Inv, Exact, Live;
    if a == |levels| {
      assert LiveFrom(levels, a) == {};
    } else {
      assert levels[a..][1..] == levels[a + 1..];
      SizesAreLive(levels, a + 1);
      CountLive(levels[a]);
      var live := set id | id in levels[a].placed && Live(levels[a], id);
      TaggedSize(live, a);
      LiveSplit(levels, a, live);
      hide LiveFrom, Tagged;
      assert |LiveFrom(levels, a + 1) + Tagged(live, a)| == |LiveFrom(levels, a + 1)| + |Tagged(live, a)|;
    }
  }

  lemma LiveSplit(levels: seq<Wheel>, a: nat, live: set<nat>)
    requires a < |levels| && live == set id | id in levels[a].placed && Live(levels[a], id)
    ensures LiveFrom(levels, a) == LiveFrom(levels, a + 1) + Tagged(live, a)
    ensures LiveFrom(levels, a + 1) !! Tagged(live, a)
  {
    hide Live;
  }

  ghost function Tagged(ids: set<nat>, a: nat): set<(nat, nat)> {
    set id | id in ids :: (a, id)
  }

  lemma {:induction false} TaggedSize(ids: set<nat>, a: nat)
    ensures |Tagged(ids, a)| == |ids|
  {
    if ids == {} {
      assert Tagged(ids, a) == {};
    } else {
      var id :| id in ids;
      TaggedSize(ids - {id}, a);
      assert Tagged(ids, a) == Tagged(ids - {id}, a) + {(a, id)};
    }
  }

  /** The walk over one slot: drop the flagged, keep the waiting, run the rest. */
  method RunSlot(list: seq<Elem>, before: map<string, nat>)
    returns (run: seq<Elem>, kept: seq<Elem>, index: map<string, nat>)
    ensures run == Due(list) && kept == Waiting(list) && index == before - Keys(Due(list))
  {
    run, kept, index := [], [], before;
    assert list[0..] == list;
    hide Due, Waiting, Keys;
    NoKeys(before);
    for i := 0 to |list|
      invariant run + Due(list[i..]) == Due(list)
      invariant kept + Waiting(list[i..]) == Waiting(list)
      invariant index == before - Keys(run)
    {
      var e := list[i];
      SlotStep(list, i, run, kept);
      if e.removed {
        continue;
      }
      if e.circle > 0 {
        kept := kept + [e.(circle := e.circle - 1)];
        continue;
      }
      MoreKeys(before, run, e);
      run := run + [e];
      index := index - {e.key};
    }
    SlotEnd(list, run, kept);
  }

  /** What one element of the list adds to what runs and what stays. */
  lemma SlotStep(list: seq<Elem>, i: nat, run: seq<Elem>, kept: seq<Elem>)
    requires i < |list|
    ensures var e := list[i];
            && run + Due(list[i..]) == (if !e.removed && e.circle == 0 then run + [e] else run) + Due(list[i + 1..])
            && kept + Waiting(list[i..]) ==
               (if !e.removed && e.circle > 0 then kept + [e.(circle := e.circle - 1)] else kept) +
               Waiting(list[i + 1..])
  {
    assert list[i..][1..] == list[i + 1..];
  }

  lemma SlotEnd(list: seq<Elem>, run: seq<Elem>, kept: seq<Elem>)
    ensures run + Due(list[|list|..]) == run && kept + Waiting(list[|list|..]) == kept
  {
  }

  lemma NoKeys(before: map<string, nat>)
    ensures before - Keys([]) == before
  {
  }

  lemma MoreKeys(before: map<string, nat>, run: seq<Elem>, e: Elem)
    ensures before - Keys(run) - {e.key} == before - Keys(run + [e])
  {
    assert Keys(run + [e]) == Keys(run) + {e.key};
  }
}
